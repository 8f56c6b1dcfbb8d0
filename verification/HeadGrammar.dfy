/** Which bytes are a request head: the parser accepts these, and no others. */
module HeadGrammar {
  import opened Wrappers
  import opened Bytes
  import opened Head
  import opened HeadText
  import opened RequestText

  // ----- The request line -----------------------------------------------------------------------

  /** Three words with one blank between them, the last a version; a line feed may follow. */
  predicate Words(line: bytes, verb: bytes, target: bytes, http11: bool) {
    && Token(verb) && target != [] && SPACE !in target
    && (line == RequestLine(verb, target, http11) || line == RequestLine(verb, target, http11) + [LF])
  }

  ghost predicate IsRequestLine(line: bytes, verb: bytes, target: bytes, http11: bool) {
    Words(line, verb, target, http11) && verb in METHODS && |target| <= MAX_TARGET_LENGTH && LegalTarget(target)
  }

  lemma VersionAndLf(http11: bool)
    ensures var version := Text(if http11 then "HTTP/1.1" else "HTTP/1.0");
            && WithoutFinalLf(version) == version && WithoutFinalLf(version + [LF]) == version
            && (version == Text("HTTP/1.1") <==> http11)
  {
    VersionText(http11);
    var version := Text(if http11 then "HTTP/1.1" else "HTTP/1.0");
    assert (version + [LF])[..|version|] == version;
  }

  /** What is made of three words, whatever they are. */
  lemma WordsParse(line: bytes, verb: bytes, target: bytes, last: bytes)
    requires Before(line, SPACE) == verb && |verb| < |line|
    requires Before(line[|verb| + 1..], SPACE) == target && |target| < |line[|verb| + 1..]|
    requires line[|verb| + 1..][|target| + 1..] == last && target != []
    ensures var version := WithoutFinalLf(last);
            ParseRequestLine(line) ==
            if !Token(verb) || (version != Text("HTTP/1.0") && version != Text("HTTP/1.1")) then Err(400)
            else if |target| > MAX_TARGET_LENGTH then Err(414)
            else if !LegalTarget(target) then Err(400)
            else if verb !in METHODS then Err(405)
            else Ok((verb, target, version == Text("HTTP/1.1")))
  {
    hide Text, METHODS, Token, LegalTarget, WithoutFinalLf, Before;
  }

  /** What is made of the three words of a request line. */
  lemma WordsMean(line: bytes, verb: bytes, target: bytes, http11: bool)
    requires Words(line, verb, target, http11)
    ensures ParseRequestLine(line) ==
            if |target| > MAX_TARGET_LENGTH then Err(414)
            else if !LegalTarget(target) then Err(400)
            else if verb !in METHODS then Err(405)
            else Ok((verb, target, http11))
  {
    hide Text, METHODS, Token, LegalTarget, WithoutFinalLf, Before, ParseRequestLine;
    TokenIsPlain(verb);
    VersionAndLf(http11);
    var version := Text(if http11 then "HTTP/1.1" else "HTTP/1.0");
    var last := if line == RequestLine(verb, target, http11) then version else version + [LF];
    assert line == verb + [SPACE] + target + [SPACE] + last;
    WordsAreCut(verb, target, last);
    WordsParse(line, verb, target, last);
  }

  lemma NoWords(line: bytes)
    requires var verb := Before(line, SPACE);
             |verb| == |line| || (var rest := line[|verb| + 1..]; Before(rest, SPACE) == rest || Before(rest, SPACE) == [])
    ensures ParseRequestLine(line) == Err(400)
  {
    hide Text, METHODS, Token, LegalTarget, WithoutFinalLf, Before;
  }

  /** The words on a line, if there are three. */
  lemma WordsOf(line: bytes) returns (verb: bytes, target: bytes, http11: bool, found: bool)
    ensures found ==> Words(line, verb, target, http11)
    ensures !found ==> ParseRequestLine(line) == Err(400)
  {
    hide Text, METHODS, Token, LegalTarget, WithoutFinalLf, Before, ParseRequestLine;
    verb, target, http11, found := Before(line, SPACE), [], false, false;
    if |verb| == |line| {
      NoWords(line);
    } else {
      var rest := line[|verb| + 1..];
      target := Before(rest, SPACE);
      if |target| == |rest| || target == [] {
        NoWords(line);
      } else {
        var last := rest[|target| + 1..];
        WordsParse(line, verb, target, last);
        var version := WithoutFinalLf(last);
        http11 := version == Text("HTTP/1.1");
        found := Token(verb) && (http11 || version == Text("HTTP/1.0"));
        if found {
          WordsFound(line, verb, target, last, http11);
        }
      }
    }
  }

  lemma WordsFound(line: bytes, verb: bytes, target: bytes, last: bytes, http11: bool)
    requires Before(line, SPACE) == verb && |verb| < |line| && Token(verb) && target != []
    requires var rest := line[|verb| + 1..]; Before(rest, SPACE) == target && |target| < |rest| && rest[|target| + 1..] == last
    requires WithoutFinalLf(last) == Text(if http11 then "HTTP/1.1" else "HTTP/1.0")
    ensures Words(line, verb, target, http11)
  {
    hide Text, Token, WithoutFinalLf, Before;
    var rest := line[|verb| + 1..];
    BeforeCuts(line, SPACE);
    BeforeCuts(rest, SPACE);
    LfOrNot(last);
    OneAfterTheOther(line, verb, target, rest, last, Text(if http11 then "HTTP/1.1" else "HTTP/1.0"));
  }

  lemma OneAfterTheOther(line: bytes, verb: bytes, target: bytes, rest: bytes, last: bytes, version: bytes)
    requires line == verb + [SPACE] + rest && rest == target + [SPACE] + last
    requires last == version || last == version + [LF]
    ensures var words := verb + [SPACE] + target + [SPACE] + version; line == words || line == words + [LF]
  {
    var front := verb + [SPACE];
    ConcatAssoc(front, target, [SPACE]);
    ConcatAssoc(front, target + [SPACE], last);
    ConcatAssoc(front + (target + [SPACE]), version, [LF]);
  }

  lemma LfOrNot(b: bytes)
    ensures b == WithoutFinalLf(b) || b == WithoutFinalLf(b) + [LF]
  {
  }

  lemma BeforeCuts(b: bytes, mark: byte)
    ensures var first := Before(b, mark); |first| < |b| ==> b == first + [mark] + b[|first| + 1..]
  {
  }

  /** A line is read as a request line exactly if it is one. */
  lemma RequestLineIff(line: bytes, verb: bytes, target: bytes, http11: bool)
    ensures ParseRequestLine(line) == Ok((verb, target, http11)) <==> IsRequestLine(line, verb, target, http11)
  {
    hide ParseRequestLine, Words, METHODS, LegalTarget;
    if IsRequestLine(line, verb, target, http11) {
      WordsMean(line, verb, target, http11);
    } else {
      var v, t, h, found := WordsOf(line);
      if found {
        WordsMean(line, v, t, h);
      }
    }
  }

  // ----- Header lines ---------------------------------------------------------------------------

  predicate Blanks(b: bytes) {
    forall i :: 0 <= i < |b| ==> b[i] in {SPACE, TAB}
  }

  /** A name, a colon, and a value with blanks around it. */
  ghost predicate FieldLineOf(line: bytes, name: bytes, left: bytes, right: bytes, f: Field) {
    && line == name + [COLON] + (left + f.1 + right)
    && Token(WithoutFinalLf(name)) && f.0 == Lower(name)
    && Blanks(left) && Blanks(right) && Trim(f.1) && LegalValue(f.1)
  }

  ghost predicate IsFieldLine(line: bytes, f: Field) {
    exists name, left, right :: FieldLineOf(line, name, left, right, f)
  }

  lemma {:induction false} TrimLeftTakes(left: bytes, b: bytes)
    requires Blanks(left)
    ensures TrimLeft(left + b) == TrimLeft(b)
  {
    if left == [] {
      assert left + b == b;
    } else {
      assert (left + b)[1..] == left[1..] + b;
      TrimLeftTakes(left[1..], b);
    }
  }

  lemma {:induction false} TrimRightTakes(b: bytes, right: bytes)
    requires Blanks(right)
    ensures TrimRight(b + right) == TrimRight(b)
  {
    if right == [] {
      assert b + right == b;
    } else {
      var front := right[..|right| - 1];
      assert (b + right)[..|b + right| - 1] == b + front;
      TrimRightTakes(b, front);
    }
  }

  lemma ValueIsTrimmed(left: bytes, value: bytes, right: bytes)
    requires Blanks(left) && Blanks(right) && Trim(value)
    ensures TrimRight(TrimLeft(left + value + right)) == value
  {
    ConcatAssoc(left, value, right);
    TrimLeftTakes(left, value + right);
    if value == [] {
      assert value + right == right && right + [] == right;
      TrimLeftTakes(right, []);
    } else {
      assert TrimLeft(value + right) == value + right;
      TrimRightTakes(value, right);
    }
  }

  lemma {:induction false} TrimLeftLeaves(b: bytes) returns (left: bytes)
    ensures b == left + TrimLeft(b) && Blanks(left)
    ensures TrimLeft(b) != [] ==> TrimLeft(b)[0] !in {SPACE, TAB}
  {
    left := [];
    if b != [] && (b[0] == SPACE || b[0] == TAB) {
      var more := TrimLeftLeaves(b[1..]);
      left := [b[0]] + more;
    }
  }

  lemma {:induction false} TrimRightLeaves(b: bytes) returns (right: bytes)
    ensures b == TrimRight(b) + right && Blanks(right)
    ensures TrimRight(b) != [] ==> TrimRight(b)[|TrimRight(b)| - 1] !in {SPACE, TAB} && b != [] && TrimRight(b)[0] == b[0]
  {
    right := [];
    if b != [] && (b[|b| - 1] == SPACE || b[|b| - 1] == TAB) {
      var more := TrimRightLeaves(b[..|b| - 1]);
      right := more + [b[|b| - 1]];
    }
  }

  lemma NameHasNoColon(name: bytes)
    requires Token(WithoutFinalLf(name))
    ensures COLON !in name && name != [] && name[0] !in {SPACE, TAB}
  {
    TokenIsPlain(WithoutFinalLf(name));
  }

  lemma FieldLineIsRead(line: bytes, name: bytes, left: bytes, right: bytes, f: Field)
    requires FieldLineOf(line, name, left, right, f)
    ensures ParseField(line) == Ok(f)
  {
    hide Token, LegalValue, Trim, Lower, TrimLeft, TrimRight, Before;
    NameHasNoColon(name);
    var value := left + f.1 + right;
    BeforeMark(name, COLON, value);
    assert line[|name| + 1..] == value && line[0] == name[0];
    ValueIsTrimmed(left, f.1, right);
  }

  lemma ReadIsFieldLine(line: bytes) returns (name: bytes, left: bytes, right: bytes)
    requires ParseField(line).Ok?
    ensures FieldLineOf(line, name, left, right, ParseField(line).value)
  {
    hide Token, LegalValue, Lower, Before, WithoutFinalLf;
    name := Before(line, COLON);
    var raw := line[|name| + 1..];
    BeforeCuts(line, COLON);
    left := TrimLeftLeaves(raw);
    right := TrimRightLeaves(TrimLeft(raw));
    ConcatAssoc(left, TrimRight(TrimLeft(raw)), right);
  }

  /** A line is read as a field exactly if it is a line of that field. */
  lemma FieldLineIff(line: bytes, f: Field)
    ensures ParseField(line) == Ok(f) <==> IsFieldLine(line, f)
    ensures ParseField(line).Err? ==> ParseField(line) == Err(400)
  {
    if IsFieldLine(line, f) {
      var name, left, right :| FieldLineOf(line, name, left, right, f);
      FieldLineIsRead(line, name, left, right, f);
    }
    if ParseField(line) == Ok(f) {
      var name, left, right := ReadIsFieldLine(line);
    }
  }

  // ----- Whole heads -----------------------------------------------------------------------------

  /** The text says this, line by line: a request line, and a line for every field. */
  ghost predicate TextSays(text: bytes, verb: bytes, target: bytes, http11: bool, h: seq<Field>) {
    var lines := Lines(text);
    && IsRequestLine(lines[0], verb, target, http11) && |lines| == |h| + 1
    && forall i :: 0 <= i < |h| ==> IsFieldLine(lines[i + 1], h[i])
  }

  lemma SaidIsRead(text: bytes, verb: bytes, target: bytes, http11: bool, h: seq<Field>)
    ensures TextSays(text, verb, target, http11, h) <==> HeadReadAs(Lines(text), verb, target, http11, h)
  {
    hide Lines, IsRequestLine, IsFieldLine, ParseField, ParseRequestLine;
    var lines := Lines(text);
    RequestLineIff(lines[0], verb, target, http11);
    forall i | 0 <= i < |h| && i + 1 < |lines|
      ensures IsFieldLine(lines[i + 1], h[i]) <==> ParseField(lines[1..][i]) == Ok(h[i])
    {
      FieldLineIff(lines[i + 1], h[i]);
    }
    if HeadReadAs(lines, verb, target, http11, h) {
      forall i | 0 <= i < |h| ensures IsFieldLine(lines[i + 1], h[i]) {
        assert ParseField(lines[1..][i]) == Ok(h[i]);
      }
    }
  }

  lemma CollectsFirst(cfg: Config, lines: seq<bytes>, count: nat, f: Fields)
    requires ParseFields(cfg, lines, count, f).Ok? && lines != []
    ensures ParseField(lines[0]).Ok? && AddField(f, ParseField(lines[0]).value).Ok?
    ensures ParseFields(cfg, lines[1..], count + 1, AddField(f, ParseField(lines[0]).value).value).Ok?
  {
    hide ParseField, AddField;
  }

  lemma OneMoreRead(lines: seq<bytes>, more: seq<Field>)
    requires lines != [] && ParseField(lines[0]).Ok? && ReadAs(lines[1..], more)
    ensures ReadAs(lines, [ParseField(lines[0]).value] + more)
  {
    hide ParseField;
    var h := [ParseField(lines[0]).value] + more;
    forall i | 0 < i < |lines| ensures ParseField(lines[i]) == Ok(h[i]) {
      assert lines[i] == lines[1..][i - 1];
    }
  }

  lemma {:induction false} CollectedAreRead(cfg: Config, lines: seq<bytes>, count: nat, f: Fields) returns (h: seq<Field>)
    requires ParseFields(cfg, lines, count, f).Ok?
    ensures ReadAs(lines, h)
    decreases |lines|
  {
    hide ParseField, AddField, ParseFields;
    h := [];
    if lines != [] {
      CollectsFirst(cfg, lines, count, f);
      var field := ParseField(lines[0]).value;
      var more := CollectedAreRead(cfg, lines[1..], count + 1, AddField(f, field).value);
      OneMoreRead(lines, more);
      h := [field] + more;
    }
  }

  /** The first empty line, within the limit, ends a text that says this, and is acceptable. */
  ghost predicate IsHead(cfg: Config, buffer: bytes, n: nat, verb: bytes, target: bytes, http11: bool, h: seq<Field>) {
    && 4 <= n <= |buffer| && n <= cfg.maxHeaderSize
    && EmptyLineAt(buffer, n - 4) && (forall k :: 0 <= k < n - 4 ==> !EmptyLineAt(buffer, k))
    && TextSays(buffer[..n - 4], verb, target, http11, h) && Acceptable(cfg, target, http11, h)
  }

  lemma {:induction false} EndIsFound(buffer: bytes, i: nat)
    requires EmptyLineAt(buffer, i)
    ensures FindEnd(buffer).Some?
  {
    if i == 0 {
      assert buffer[0..4] == buffer[..4];
    } else {
      assert buffer[i..i + 4] == buffer[1..][i - 1..i + 3];
      EndIsFound(buffer[1..], i - 1);
    }
  }

  lemma EndIs(buffer: bytes, i: nat)
    requires EmptyLineAt(buffer, i) && forall k :: 0 <= k < i ==> !EmptyLineAt(buffer, k)
    ensures FindEnd(buffer) == Some(i)
  {
    EndIsFound(buffer, i);
    FindEndIsFirst(buffer);
  }

  /** What is a head is accepted, and understood as what it says. */
  lemma HeadIsAccepted(cfg: Config, buffer: bytes, n: nat, verb: bytes, target: bytes, http11: bool, h: seq<Field>)
    requires IsHead(cfg, buffer, n, verb, target, http11, h)
    ensures var outcome := ParseHead(cfg, buffer);
            outcome.Accept? && outcome.n == n && Says(cfg, outcome.head, verb, target, http11, h)
  {
    hide TextSays, ParseText, Says, Acceptable, FindEnd, HeadReadAs;
    EndIs(buffer, n - 4);
    SaidIsRead(buffer[..n - 4], verb, target, http11, h);
    TextParses(cfg, buffer[..n - 4], verb, target, http11, h);
  }

  lemma TextIsRead(cfg: Config, text: bytes) returns (verb: bytes, target: bytes, http11: bool, h: seq<Field>)
    requires ParseText(cfg, text).Ok?
    ensures HeadReadAs(Lines(text), verb, target, http11, h)
  {
    hide Lines, ParseRequestLine, ResolveHost, ResolveFraming, ParseFields, ReadAs;
    var lines := Lines(text);
    verb, target, http11 := ParseRequestLine(lines[0]).value.0, ParseRequestLine(lines[0]).value.1, ParseRequestLine(lines[0]).value.2;
    h := CollectedAreRead(cfg, lines[1..], 1, NO_FIELDS);
  }

  /** And nothing else is accepted. */
  lemma AcceptedIsHead(cfg: Config, buffer: bytes) returns (verb: bytes, target: bytes, http11: bool, h: seq<Field>)
    requires ParseHead(cfg, buffer).Accept?
    ensures IsHead(cfg, buffer, ParseHead(cfg, buffer).n, verb, target, http11, h)
  {
    hide ParseText, Acceptable, Says, FindEnd, HeadReadAs, TextSays, EmptyLineAt;
    AcceptTakesHead(cfg, buffer);
    var n := ParseHead(cfg, buffer).n;
    EndIs(buffer, n - 4);
    var text := buffer[..n - 4];
    verb, target, http11, h := TextIsRead(cfg, text);
    TextParses(cfg, text, verb, target, http11, h);
    SaidIsRead(text, verb, target, http11, h);
  }
}
