/** The head of an upstream's answer, and what of it is forwarded to the client. */
module AnswerHead {
  import opened Wrappers
  import opened Bytes
  import opened Head
  import opened Response
  import opened Relay

  const HOP_BY_HOP: set<bytes> :=
    {Text("connection"), Text("keep-alive"), Text("proxy-authenticate"), Text("proxy-authorization"),
     Text("proxy-connection"), Text("te"), Text("trailer"), Text("transfer-encoding"), Text("upgrade")}

  // ----- Reading the head ---------------------------------------------------------------------

  /** The status code on the first line. */
  function ParseStatus(line: bytes): Option<nat> {
    var version := Before(line, SPACE);
    if |version| == |line| || !StartsWith(version, Text("HTTP/1.")) then None
    else
      var code := Before(line[|version| + 1..], SPACE);
      if !Digits(code) || !(100 <= Decimal(code) <= 599) then None else Some(Decimal(code))
  }

  predicate IsLength(name: bytes) {
    SpecialOf(name).Length?
  }

  /** A field as it is kept: its name a token in lower case, its value without white
      space around it, and a length only digits. */
  predicate Tidy(f: Field) {
    Token(f.0) && Lower(f.0) == f.0 && Strip(f.0) == f.0 && Strip(f.1) == f.1 && (IsLength(f.0) ==> Digits(f.1))
  }

  predicate AllTidy(headers: seq<Field>) {
    forall i :: 0 <= i < |headers| ==> Tidy(headers[i])
  }

  function ParseHeader(line: bytes): (r: Option<Field>)
    ensures r.Some? ==> Tidy(r.value)
  {
    var raw := Before(line, COLON);
    if |raw| == |line| then None
    else
      var name, value := Lower(Strip(raw)), Strip(line[|raw| + 1..]);
      TidyField(raw, line[|raw| + 1..]);
      if !Token(name) || (IsLength(name) && !Digits(value)) then None else Some((name, value))
  }

  lemma TidyField(raw: bytes, value: bytes)
    ensures var name := Lower(Strip(raw)); Lower(name) == name && Strip(name) == name && Strip(Strip(value)) == Strip(value)
  {
    StripStrips(raw);
    StripStrips(value);
    StrippedStays(Strip(value));
    assert Stripped(Lower(Strip(raw)));
    StrippedStays(Lower(Strip(raw)));
  }

  lemma StrippedStays(b: bytes)
    requires Stripped(b)
    ensures Strip(b) == b
  {
  }

  function ParseHeaders(lines: seq<bytes>): (r: Option<seq<Field>>)
    ensures r.Some? ==> AllTidy(r.value)
  {
    if lines == [] then Some([])
    else
      var rest, last := ParseHeaders(lines[..|lines| - 1]), ParseHeader(lines[|lines| - 1]);
      if rest.None? || last.None? then None else Some(rest.value + [last.value])
  }

  /** The loop over the header lines. */
  method ReadHeaders(lines: seq<bytes>) returns (headers: Option<seq<Field>>)
    ensures headers == ParseHeaders(lines)
  {
    var read: seq<Field> := [];
    assert lines[..0] == [];
    for i := 0 to |lines|
      invariant ParseHeaders(lines[..i]) == Some(read)
    {
      assert lines[..i + 1][..i] == lines[..i];
      var field := ParseHeader(lines[i]);
      if field.None? {
        StaysMalformed(lines, i + 1);
        return None;
      }
      read := read + [field.value];
    }
    assert lines[..|lines|] == lines;
    return Some(read);
  }

  lemma {:induction false} StaysMalformed(lines: seq<bytes>, n: nat)
    requires n <= |lines| && ParseHeaders(lines[..n]).None?
    ensures ParseHeaders(lines).None?
    decreases |lines|
  {
    if n == |lines| {
      assert lines[..n] == lines;
    } else {
      assert lines[..|lines| - 1][..n] == lines[..n];
      StaysMalformed(lines[..|lines| - 1], n);
    }
  }

  lemma TidyKind(headers: seq<Field>, f: Field)
    requires AllTidy(headers) && f in headers
    ensures Tidy(f) && Lower(f.0) == f.0
  {
    var i :| 0 <= i < |headers| && headers[i] == f;
  }

  lemma {:induction false} ValuesFrom(headers: seq<Field>, kind: Special, value: bytes)
    requires value in Values(headers, kind)
    ensures exists f :: f in headers && SpecialOf(f.0) == kind && f.1 == value
  {
    var front, last := headers[..|headers| - 1], headers[|headers| - 1];
    if !(SpecialOf(last.0) == kind && last.1 == value) {
      ValuesFrom(front, kind, value);
      var f :| f in front && SpecialOf(f.0) == kind && f.1 == value;
      assert f in headers;
    }
  }

  lemma SubsetTidy(some: seq<Field>, headers: seq<Field>)
    requires AllTidy(headers) && forall f :: f in some ==> f in headers
    ensures AllTidy(some)
  {
    hide Tidy;
    forall i | 0 <= i < |some| ensures Tidy(some[i]) {
      assert some[i] in headers;
      var j :| 0 <= j < |headers| && headers[j] == some[i];
    }
  }

  lemma CollapsedTidy(headers: seq<Field>, value: bytes)
    requires AllTidy(headers) && value in Values(headers, Special.Length)
    ensures AllTidy(Without(headers, Special.Length) + [(Text("content-length"), value)])
  {
    hide Tidy, AllTidy, Values;
    ValuesFrom(headers, Special.Length, value);
    var g :| g in headers && SpecialOf(g.0).Length? && g.1 == value;
    assert g == (Text("content-length"), value);
    SubsetTidy(Without(headers, Special.Length) + [g], headers);
  }

  /** One length at most: lengths that differ are refused, and equal ones collapsed. */
  function Collapse(headers: seq<Field>): (r: Option<seq<Field>>)
    requires AllTidy(headers)
    ensures r.Some? ==> AllTidy(r.value)
  {
    var lengths := Values(headers, Special.Length);
    if |lengths| <= 1 then Some(headers)
    else if exists i :: 0 <= i < |lengths| && lengths[i] != lengths[0] then None
    else
      CollapsedTidy(headers, lengths[0]);
      Some(Without(headers, Special.Length) + [(Text("content-length"), lengths[0])])
  }

  // ----- What is forwarded ----------------------------------------------------------------------

  function Contains(b: bytes, part: bytes): bool {
    StartsWith(b, part) || (b != [] && Contains(b[1..], part))
  }

  lemma FirstLengthDigits(headers: seq<Field>)
    requires AllTidy(headers)
    ensures First(headers, Special.Length).Some? ==> Digits(First(headers, Special.Length).value)
  {
    var length := First(headers, Special.Length);
    if length.Some? {
      var f :| f in headers && IsKind(f, Special.Length) && f.1 == length.value;
      TidyKind(headers, f);
    }
  }

  /** How the upstream delimits its body. */
  function DelimiterOf(verb: bytes, status: nat, headers: seq<Field>): Delimiter
    requires AllTidy(headers)
  {
    FirstLengthDigits(headers);
    var coding, length := First(headers, Special.Coding), First(headers, Special.Length);
    if !ResponseHasBody(verb, status) then Nothing
    else if coding.Some? && Contains(Lower(coding.value), Text("chunked")) then Delimiter.Coding
    else if length.Some? then Delimiter.Length(Decimal(length.value))
    else UntilEof
  }

  /** The members of the list-valued fields of one name. */
  function Listed(headers: seq<Field>, name: bytes): seq<bytes> {
    if headers == [] then []
    else (if headers[0].0 == name then Members(Split(headers[0].1, COMMA)) else []) + Listed(headers[1..], name)
  }

  /** The trailer fields an answer announces and the relay would pass on, each once. */
  function Announced(names: seq<bytes>): seq<bytes> {
    if names == [] then []
    else
      var front, last := Announced(names[..|names| - 1]), names[|names| - 1];
      if Token(last) && last !in front && last !in TRAILER_FORBIDDEN then front + [last] else front
  }

  function Join(names: seq<bytes>): bytes {
    if names == [] then []
    else if |names| == 1 then names[0]
    else Join(names[..|names| - 1]) + [COMMA, SPACE] + names[|names| - 1]
  }

  /** Whether a field of this name is passed on: not one of this hop, none that the
      connection field names, and a length only where it is what delimits the body or
      where there is none. */
  predicate PassedOn(verb: bytes, status: nat, delimiter: Delimiter, tokens: seq<bytes>, name: bytes) {
    && name !in HOP_BY_HOP && name !in tokens
    && !(IsLength(name) && !delimiter.Length? && verb != Text("HEAD") && status != 304)
  }

  function PassOn(verb: bytes, status: nat, delimiter: Delimiter, tokens: seq<bytes>, headers: seq<Field>): (r: seq<Field>)
    ensures forall f :: f in r ==> f in headers && PassedOn(verb, status, delimiter, tokens, f.0)
  {
    if headers == [] then []
    else
      var front, last := headers[..|headers| - 1], headers[|headers| - 1];
      PassOn(verb, status, delimiter, tokens, front)
      + if PassedOn(verb, status, delimiter, tokens, last.0) then [last] else []
  }

  /** The forwarding loop. */
  method ForwardHeaders(verb: bytes, status: nat, delimiter: Delimiter, tokens: seq<bytes>, headers: seq<Field>)
    returns (forwarded: seq<Field>)
    ensures forwarded == PassOn(verb, status, delimiter, tokens, headers)
  {
    forwarded := [];
    assert headers[..0] == [];
    for i := 0 to |headers|
      invariant forwarded == PassOn(verb, status, delimiter, tokens, headers[..i])
    {
      assert headers[..i + 1][..i] == headers[..i];
      var name := headers[i].0;
      if name in HOP_BY_HOP {
        assert !PassedOn(verb, status, delimiter, tokens, name);
        assert forwarded + [] == forwarded;
        continue;
      }
      if name in tokens {
        assert forwarded + [] == forwarded;
        continue;
      }
      if IsLength(name) && !delimiter.Length? && verb != Text("HEAD") && status != 304 {
        assert forwarded + [] == forwarded;
        continue;
      }
      forwarded := forwarded + [headers[i]];
    }
    assert headers[..|headers|] == headers;
  }

  /** The answer that is started for the client. */
  function AnswerOf(verb: bytes, http11: bool, status: nat, headers: seq<Field>): Answer
    requires AllTidy(headers)
  {
    var delimiter := DelimiterOf(verb, status, headers);
    var announced := if delimiter.Coding? then Announced(Listed(headers, Text("trailer"))) else [];
    var expected := http11 && announced != [];
    var forwarded := PassOn(verb, status, delimiter, Listed(headers, Text("connection")), headers);
    Answer(status, forwarded + (if expected then [(Text("trailer"), Join(announced))] else []), delimiter, expected)
  }

  /** The head with its empty line, read and turned into the answer to be started. */
  function ParseAnswer(verb: bytes, http11: bool, maxHeaderCount: nat, raw: bytes): Option<Answer> {
    if |raw| < 4 then None
    else
      var lines := Lines(raw[..|raw| - 4]);
      var status, headers := ParseStatus(lines[0]), ParseHeaders(lines[1..]);
      if status.None? || |lines| - 1 > maxHeaderCount || headers.None? then None
      else
        match Collapse(headers.value)
        case None => None
        case Some(collapsed) => Some(AnswerOf(verb, http11, status.value, collapsed))
  }

  // ----- What the forwarded head guarantees -----------------------------------------------------

  /** What the client's head is built on: lengths that agree, and none for a body that
      the upstream delimits in another way. */
  ghost predicate Forwards(verb: bytes, a: Answer) {
    var length := First(Normalise(a.headers), Special.Length);
    && LengthsAgree(Normalise(a.headers)) && (a.trailers ==> a.delimiter.Coding?)
    && (a.delimiter.Nothing? <==> !ResponseHasBody(verb, a.status))
    && (length.Some? && !a.delimiter.Nothing? ==> a.delimiter == Delimiter.Length(Decimal(length.value)))
  }

  /** Every length among the fields is `value`. */
  ghost predicate OnlyLength(headers: seq<Field>, value: bytes) {
    forall f :: f in headers && IsKind(f, Special.Length) ==> f.1 == value
  }

  lemma {:induction false} ValuesHold(headers: seq<Field>, f: Field)
    requires f in headers
    ensures f.1 in Values(headers, SpecialOf(f.0))
  {
    var front, last := headers[..|headers| - 1], headers[|headers| - 1];
    if f != last {
      assert f in front;
      ValuesHold(front, f);
    }
  }

  /** Fields without two lengths. */
  lemma OneValue(headers: seq<Field>, value: bytes)
    requires AllTidy(headers) && forall v :: v in Values(headers, Special.Length) ==> v == value
    ensures OnlyLength(headers, value)
  {
    hide AllTidy;
    forall f | f in headers && IsKind(f, Special.Length) ensures f.1 == value {
      TidyKind(headers, f);
      ValuesHold(headers, f);
    }
  }

  /** After collapsing there is one length. */
  lemma CollapsedLength(headers: seq<Field>) returns (value: bytes)
    requires AllTidy(headers) && Collapse(headers).Some?
    ensures OnlyLength(Collapse(headers).value, value)
  {
    hide AllTidy, Values, Tidy;
    var lengths := Values(headers, Special.Length);
    value := if lengths == [] then [] else lengths[0];
    if |lengths| <= 1 {
      OneValue(headers, value);
    }
  }

  /** Cleaning up changes no tidy field: it may only drop it. */
  lemma {:induction false} CleanedFrom(headers: seq<Field>, f: Field)
    requires f in Normalise(headers)
    ensures exists g :: g in headers && f == (Strip(g.0), Strip(g.1))
    decreases |headers|
  {
    if Clean(headers[0]) == Some(f) {
      assert headers[0] in headers;
    } else {
      assert f in Normalise(headers[1..]);
      CleanedFrom(headers[1..], f);
      var g :| g in headers[1..] && f == (Strip(g.0), Strip(g.1));
      assert g in headers;
    }
  }

  /** Where a length of the client's head comes from. */
  lemma LengthFrom(verb: bytes, http11: bool, status: nat, headers: seq<Field>, value: bytes, f: Field)
    requires AllTidy(headers) && OnlyLength(headers, value)
    requires f in Normalise(AnswerOf(verb, http11, status, headers).headers) && IsKind(f, Special.Length)
    ensures f.1 == value && First(headers, Special.Length) == Some(value)
    ensures ResponseHasBody(verb, status) ==> DelimiterOf(verb, status, headers).Length?
  {
    hide Strip, Lower, Text;
    var a := AnswerOf(verb, http11, status, headers);
    CleanedFrom(a.headers, f);
    var g :| g in a.headers && f == (Strip(g.0), Strip(g.1));
    TrailerName();
    if g in headers {
      TidyKind(headers, g);
      var d := DelimiterOf(verb, status, headers);
      assert PassedOn(verb, status, d, Listed(headers, Text("connection")), g.0) by {
        assert g in PassOn(verb, status, d, Listed(headers, Text("connection")), headers);
      }
    }
  }

  lemma TrailerName()
    ensures Strip(Text("trailer")) == Text("trailer") && !SpecialOf(Lower(Text("trailer"))).Length?
  {
    var name := Text("trailer");
    assert |name| == 7 && name[0] == 116 && name[6] == 114;
    StrippedStays(name);
  }

  /** The relay's header loop establishes what the client relies on, for every head. */
  lemma AnswerForwards(verb: bytes, http11: bool, maxHeaderCount: nat, raw: bytes)
    requires ParseAnswer(verb, http11, maxHeaderCount, raw).Some?
    ensures Forwards(verb, ParseAnswer(verb, http11, maxHeaderCount, raw).value)
  {
    var lines := Lines(raw[..|raw| - 4]);
    var status, headers := ParseStatus(lines[0]).value, ParseHeaders(lines[1..]).value;
    var collapsed := Collapse(headers).value;
    var value := CollapsedLength(headers);
    FieldsForward(verb, http11, status, collapsed, value);
  }

  lemma FieldsForward(verb: bytes, http11: bool, status: nat, headers: seq<Field>, value: bytes)
    requires AllTidy(headers) && OnlyLength(headers, value)
    ensures Forwards(verb, AnswerOf(verb, http11, status, headers))
  {
    var a := AnswerOf(verb, http11, status, headers);
    var sent := Normalise(a.headers);
    forall f | f in sent && IsKind(f, Special.Length) ensures f.1 == value {
      LengthFrom(verb, http11, status, headers, value, f);
    }
    forall f, g | f in sent && g in sent && IsKind(f, Special.Length) && IsKind(g, Special.Length)
      ensures SameLength(f.1, g.1)
    {
      NormalisedDigits(a.headers, f);
    }
    var length := First(sent, Special.Length);
    if length.Some? {
      var f :| f in sent && IsKind(f, Special.Length) && f.1 == length.value;
      LengthFrom(verb, http11, status, headers, value, f);
    }
  }

  lemma NormalisedDigits(headers: seq<Field>, f: Field)
    requires f in Normalise(headers) && IsKind(f, Special.Length)
    ensures Digits(f.1)
  {
    var i :| 0 <= i < |Normalise(headers)| && Normalise(headers)[i] == f;
  }
}
