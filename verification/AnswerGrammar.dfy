/** Which bytes are the head of an upstream's answer: the proxy reads these, and no others. */
module AnswerGrammar {
  import opened Wrappers
  import opened Bytes
  import opened Head
  import opened Relay
  import opened AnswerHead
  import opened AnswerText
  import HeadGrammar

  /** A version of HTTP/1, a blank, a status of three digits' worth, and perhaps a phrase. */
  ghost predicate StatusLineOf(line: bytes, version: bytes, code: bytes, phrase: Option<bytes>, status: nat) {
    && line == version + [SPACE] + code + (if phrase.Some? then [SPACE] + phrase.value else [])
    && SPACE !in version && SPACE !in code && StartsWith(version, Text("HTTP/1."))
    && Digits(code) && Decimal(code) == status && 100 <= status <= 599
  }

  ghost predicate IsStatusLine(line: bytes, status: nat) {
    exists version, code, phrase :: StatusLineOf(line, version, code, phrase, status)
  }

  lemma CutAtBlanks(line: bytes, version: bytes, code: bytes, phrase: Option<bytes>)
    requires line == version + [SPACE] + code + (if phrase.Some? then [SPACE] + phrase.value else [])
    requires SPACE !in version && SPACE !in code
    ensures Before(line, SPACE) == version && |version| < |line| && Before(line[|version| + 1..], SPACE) == code
  {
    hide Before;
    var front, tail := version + [SPACE], if phrase.Some? then [SPACE] + phrase.value else [];
    var rest := code + tail;
    ConcatAssoc(front, code, tail);
    BeforeMark(version, SPACE, rest);
    RestIs(version, rest);
    if phrase.Some? {
      ConcatAssoc(code, [SPACE], phrase.value);
      BeforeMark(code, SPACE, phrase.value);
    } else {
      assert rest == code;
      NoMark(code);
    }
  }

  lemma RestIs(version: bytes, rest: bytes)
    ensures |version| < |version + [SPACE] + rest| && (version + [SPACE] + rest)[|version| + 1..] == rest
  {
  }

  lemma NoMark(code: bytes)
    requires SPACE !in code
    ensures Before(code, SPACE) == code
  {
  }

  lemma StatusIsRead(line: bytes, version: bytes, code: bytes, phrase: Option<bytes>, status: nat)
    requires StatusLineOf(line, version, code, phrase, status)
    ensures ParseStatus(line) == Some(status)
  {
    hide Text, Digits, Decimal, StartsWith, Before;
    CutAtBlanks(line, version, code, phrase);
  }

  lemma ReadIsStatus(line: bytes) returns (version: bytes, code: bytes, phrase: Option<bytes>)
    requires ParseStatus(line).Some?
    ensures StatusLineOf(line, version, code, phrase, ParseStatus(line).value)
  {
    hide Text, Digits, Decimal, StartsWith, Before;
    version := Before(line, SPACE);
    var rest := line[|version| + 1..];
    code := Before(rest, SPACE);
    phrase := if |code| == |rest| then None else Some(rest[|code| + 1..]);
    HeadGrammar.BeforeCuts(line, SPACE);
    HeadGrammar.BeforeCuts(rest, SPACE);
    PutTogether(line, version, rest, code, phrase);
  }

  lemma PutTogether(line: bytes, version: bytes, rest: bytes, code: bytes, phrase: Option<bytes>)
    requires line == version + [SPACE] + rest
    requires if phrase.Some? then rest == code + [SPACE] + phrase.value else rest == code
    ensures line == version + [SPACE] + code + if phrase.Some? then [SPACE] + phrase.value else []
  {
    var front := version + [SPACE];
    if phrase.Some? {
      ConcatAssoc(code, [SPACE], phrase.value);
      ConcatAssoc(front, code, [SPACE] + phrase.value);
    } else {
      assert front + code + [] == front + code;
    }
  }

  /** A line is read as a status line exactly if it is one. */
  lemma StatusLineIff(line: bytes, status: nat)
    ensures ParseStatus(line) == Some(status) <==> IsStatusLine(line, status)
  {
    hide ParseStatus, StatusLineOf;
    if IsStatusLine(line, status) {
      var version, code, phrase :| StatusLineOf(line, version, code, phrase, status);
      StatusIsRead(line, version, code, phrase, status);
    } else if ParseStatus(line) == Some(status) {
      var version, code, phrase := ReadIsStatus(line);
    }
  }

  /** A name, a colon and a value, both without the white space around them; a length is a
      number. */
  ghost predicate HeaderLineOf(line: bytes, name: bytes, value: bytes, f: Field) {
    && line == name + [COLON] + value && COLON !in name && f == (Lower(Strip(name)), Strip(value))
    && Token(f.0) && (IsLength(f.0) ==> Digits(f.1))
  }

  ghost predicate IsHeaderLine(line: bytes, f: Field) {
    exists name, value :: HeaderLineOf(line, name, value, f)
  }

  lemma HeaderLineIff(line: bytes, f: Field)
    ensures ParseHeader(line) == Some(f) <==> IsHeaderLine(line, f)
  {
    hide Strip, Token, Lower, IsLength, Digits;
    if IsHeaderLine(line, f) {
      var name, value :| HeaderLineOf(line, name, value, f);
      BeforeMark(name, COLON, value);
      assert line[|name| + 1..] == value;
    }
    if ParseHeader(line) == Some(f) {
      var name := Before(line, COLON);
      assert line == name + [COLON] + line[|name| + 1..];
      assert HeaderLineOf(line, name, line[|name| + 1..], f);
    }
  }

  /** The lines are those of the fields, one for each. */
  ghost predicate HeaderLines(lines: seq<bytes>, h: seq<Field>) {
    |lines| == |h| && forall i :: 0 <= i < |h| ==> IsHeaderLine(lines[i], h[i])
  }

  lemma HeaderLinesStep(lines: seq<bytes>, line: bytes, h: seq<Field>, f: Field)
    ensures HeaderLines(lines + [line], h + [f]) <==> HeaderLines(lines, h) && IsHeaderLine(line, f)
  {
    hide IsHeaderLine;
    var all, g := lines + [line], h + [f];
    if HeaderLines(all, g) {
      forall i | 0 <= i < |h| ensures IsHeaderLine(lines[i], h[i]) {
        assert all[i] == lines[i] && g[i] == h[i];
      }
      assert all[|h|] == line && g[|h|] == f;
    }
  }

  lemma NoHeaders(lines: seq<bytes>, h: seq<Field>)
    requires lines == [] || h == []
    ensures ParseHeaders(lines) == Some(h) <==> HeaderLines(lines, h)
  {
    hide ParseHeader;
  }

  lemma {:induction false} HeaderLinesIff(lines: seq<bytes>, h: seq<Field>)
    ensures ParseHeaders(lines) == Some(h) <==> HeaderLines(lines, h)
  {
    hide ParseHeader, IsHeaderLine, ParseHeaders, HeaderLines;
    if lines == [] || h == [] {
      NoHeaders(lines, h);
    } else {
      var front, line := lines[..|lines| - 1], lines[|lines| - 1];
      var most, f := h[..|h| - 1], h[|h| - 1];
      assert lines == front + [line] && h == most + [f];
      HeaderLinesIff(front, most);
      HeaderLineIff(line, f);
      ParseHeadersLast(front, line);
      HeaderLinesStep(front, line, most, f);
      if ParseHeaders(lines) == Some(h) {
        assert ParseHeaders(front).value + [ParseHeader(line).value] == most + [f];
        SameEnds(ParseHeaders(front).value, ParseHeader(line).value, most, f);
      }
    }
  }

  lemma SameEnds(a: seq<Field>, x: Field, b: seq<Field>, y: Field)
    requires a + [x] == b + [y]
    ensures a == b && x == y
  {
    assert (a + [x])[|a + [x]| - 1] == x && (b + [y])[|b + [y]| - 1] == y;
    assert a == (a + [x])[..|a|] && b == (b + [y])[..|b|];
  }

  /** The text of a head says this, line by line. */
  ghost predicate AnswerSays(text: bytes, status: nat, h: seq<Field>) {
    IsStatusLine(Lines(text)[0], status) && HeaderLines(Lines(text)[1..], h)
  }

  lemma SaidIsTidy(text: bytes, status: nat, h: seq<Field>)
    requires AnswerSays(text, status, h)
    ensures AllTidy(h) && ParseHeaders(Lines(text)[1..]) == Some(h) && ParseStatus(Lines(text)[0]) == Some(status)
  {
    hide ParseHeaders, ParseStatus, Lines, IsStatusLine, HeaderLines, Tidy;
    StatusLineIff(Lines(text)[0], status);
    HeaderLinesIff(Lines(text)[1..], h);
  }

  /** A head with its empty line is read if and only if it says a status and fields, not
      too many, with lengths that are the same; and then as those, with one of the lengths. */
  lemma AnswerIff(verb: bytes, client11: bool, maxHeaderCount: nat, text: bytes, end: bytes)
    requires |end| == 4
    ensures var r := ParseAnswer(verb, client11, maxHeaderCount, text + end);
            && (r.Some? <==> exists status, h :: AnswerSays(text, status, h) && |h| <= maxHeaderCount
                                                 && SameValues(Values(h, Special.Length)))
            && (forall status, h :: AnswerSays(text, status, h) && r.Some? ==>
                  exists g :: AllTidy(g) && OneLengthLeft(h, g) && r.value == AnswerOf(verb, client11, status, g))
  {
    hide ParseHeaders, ParseStatus, Lines, HeaderLines, IsStatusLine, Collapse, AnswerOf, Tidy, OneLengthLeft, Values;
    assert (text + end)[..|text + end| - 4] == text;
    var lines := Lines(text);
    var r := ParseAnswer(verb, client11, maxHeaderCount, text + end);
    forall status, h | AnswerSays(text, status, h)
      ensures r.Some? <==> |h| <= maxHeaderCount && SameValues(Values(h, Special.Length))
      ensures r.Some? ==> exists g :: AllTidy(g) && OneLengthLeft(h, g) && r.value == AnswerOf(verb, client11, status, g)
    {
      SaidIsTidy(text, status, h);
      CollapseLeavesOne(h);
      SameCount(lines[1..], h);
      if Collapse(h).Some? {
        var g := Collapse(h).value;
        assert AllTidy(g) && OneLengthLeft(h, g);
      }
    }
    if r.Some? {
      var status, h := ParseStatus(lines[0]).value, ParseHeaders(lines[1..]).value;
      StatusLineIff(lines[0], status);
      HeaderLinesIff(lines[1..], h);
      assert AnswerSays(text, status, h);
    }
  }

  lemma SameCount(lines: seq<bytes>, h: seq<Field>)
    requires ParseHeaders(lines) == Some(h)
    ensures |lines| == |h|
  {
    HeaderLinesIff(lines, h);
    hide ParseHeaders;
  }
}
