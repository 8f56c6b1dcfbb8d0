/** Answer heads as an upstream prints them, what is read out of them, and what of it
    reaches the client. */
module AnswerText {
  import opened Wrappers
  import opened Bytes
  import opened Head
  import opened HeadText
  import opened RequestText
  import opened Selection
  import opened Response
  import opened Relay
  import opened AnswerHead
  import opened WrittenHead

  // ----- What is forwarded -----------------------------------------------------------------------

  /** A field of the answer passes: it is not of this hop, the connection field does not
      name it, and a length is that of the body, or of the one that HEAD and 304 leave out. */
  ghost predicate Passes(verb: bytes, status: nat, delimiter: Delimiter, headers: seq<Field>, f: Field) {
    && f.0 !in HOP_BY_HOP && !Names(headers, f.0)
    && (f.0 == Text("content-length") ==> delimiter.Length? || verb == Text("HEAD") || status == 304)
  }

  lemma {:induction false} ListedIsNamed(headers: seq<Field>, token: bytes)
    ensures token in Listed(headers, Text("connection")) <==> Names(headers, token)
  {
    if headers != [] {
      var f, rest := headers[0], headers[1..];
      ListedIsNamed(rest, token);
      MembersAreListed(f.1, token);
      ConnectionIsKind(f.0);
      hide Members, Split, Lists, Text, SpecialOf;
      assert forall g :: g in headers <==> g == f || g in rest by {
        assert headers == [f] + rest;
      }
      assert Names(headers, token) <==> (SpecialOf(f.0).Connection? && Lists(f.1, token)) || Names(rest, token);
    }
  }

  lemma ConnectionIsKind(name: bytes)
    ensures SpecialOf(name).Connection? <==> name == Text("connection")
    ensures SpecialOf(name).Length? <==> name == Text("content-length")
    ensures SpecialOf(name).Coding? <==> name == Text("transfer-encoding")
  {
    assert |Text("connection")| == 10 && |Text("content-length")| == 14 && |Text("transfer-encoding")| == 17;
  }

  lemma PassedOnIffPasses(verb: bytes, status: nat, delimiter: Delimiter, headers: seq<Field>, f: Field)
    ensures PassedOn(verb, status, delimiter, Listed(headers, Text("connection")), f.0)
            <==> Passes(verb, status, delimiter, headers, f)
  {
    ListedIsNamed(headers, f.0);
    ConnectionIsKind(f.0);
    hide Listed, Names, Text, SpecialOf;
  }

  lemma {:induction false} PassOnFilters(verb: bytes, status: nat, delimiter: Delimiter, all: seq<Field>, headers: seq<Field>)
    ensures PassOn(verb, status, delimiter, Listed(all, Text("connection")), headers)
            == Filtered(headers, f => Passes(verb, status, delimiter, all, f))
  {
    hide PassedOn, Passes, Listed, Text;
    if headers != [] {
      var front, last := headers[..|headers| - 1], headers[|headers| - 1];
      PassOnFilters(verb, status, delimiter, all, front);
      PassedOnIffPasses(verb, status, delimiter, all, last);
      assert Filtered(front, f => Passes(verb, status, delimiter, all, f)) + []
             == Filtered(front, f => Passes(verb, status, delimiter, all, f));
    }
  }

  /** What is started for the client: every field of the answer that passes, in order, and
      the announcement of trailers if there will be some. */
  lemma ForwardsExactly(verb: bytes, http11: bool, status: nat, headers: seq<Field>) returns (kept: seq<Field>)
    requires AllTidy(headers)
    ensures var a := AnswerOf(verb, http11, status, headers);
            && a.status == status && a.delimiter == DelimiterOf(verb, status, headers)
            && Selects(headers, kept, f => Passes(verb, status, a.delimiter, headers, f))
            && a.headers == kept + (if a.trailers then [(Text("trailer"), Join(Announced(Listed(headers, Text("trailer")))))] else [])
            && (a.trailers <==> http11 && a.delimiter.Coding? && Announced(Listed(headers, Text("trailer"))) != [])
  {
    hide DelimiterOf, PassOn, Listed, Announced, Join, Selects, Passes, Text;
    var delimiter := DelimiterOf(verb, status, headers);
    kept := Filtered(headers, f => Passes(verb, status, delimiter, headers, f));
    FilteredSelects(headers, f => Passes(verb, status, delimiter, headers, f));
    PassOnFilters(verb, status, delimiter, headers, headers);
  }

  // ----- How the upstream delimits its body -------------------------------------------------------

  ghost predicate HoldsAt(b: bytes, part: bytes, i: nat) {
    i + |part| <= |b| && b[i..i + |part|] == part
  }

  lemma SliceOfDrop(b: bytes, from: nat, to: nat)
    requires from <= to < |b|
    ensures b[1..][from..to] == b[from + 1..to + 1]
  {
  }

  lemma {:induction false} ContainsIff(b: bytes, part: bytes)
    ensures Contains(b, part) <==> exists i: nat :: HoldsAt(b, part, i)
  {
    if StartsWith(b, part) {
      assert HoldsAt(b, part, 0);
    } else {
      assert !HoldsAt(b, part, 0);
      if b != [] {
        ContainsIff(b[1..], part);
        forall i: nat ensures HoldsAt(b, part, i + 1) <==> HoldsAt(b[1..], part, i) {
          if i + 1 + |part| <= |b| {
            SliceOfDrop(b, i, i + |part|);
          }
        }
        if exists i: nat :: HoldsAt(b, part, i) {
          var i: nat :| HoldsAt(b, part, i);
          assert HoldsAt(b[1..], part, i - 1);
        }
      }
    }
  }

  /** How a body is delimited, section 6.3 of RFC 9112: not at all if the answer ends with
      its head; by the chunked coding if that is applied; by its length; by the close. */
  ghost predicate Delimits(verb: bytes, status: nat, headers: seq<Field>, d: Delimiter) {
    var codings, lengths := Values(headers, Special.Coding), Values(headers, Special.Length);
    if EndsWithHead(verb, status) then d == Nothing
    else if codings != [] && exists i: nat :: HoldsAt(Lower(codings[0]), Text("chunked"), i) then d == Delimiter.Coding
    else if lengths != [] then Digits(lengths[0]) && d == Delimiter.Length(Decimal(lengths[0]))
    else d == UntilEof
  }

  lemma {:induction false} FirstIsFirstValue(headers: seq<Field>, kind: Special)
    requires forall f :: f in headers ==> Lower(f.0) == f.0
    ensures First(headers, kind) == if Values(headers, kind) == [] then None else Some(Values(headers, kind)[0])
  {
    if headers != [] {
      FirstIsFirstValue(headers[1..], kind);
      ValuesCons(headers[0], headers[1..], kind);
      assert headers == [headers[0]] + headers[1..];
      assert headers[0] in headers;
    }
  }

  lemma TidyNames(headers: seq<Field>)
    requires AllTidy(headers)
    ensures forall f :: f in headers ==> Lower(f.0) == f.0
  {
    forall f | f in headers ensures Lower(f.0) == f.0 {
      TidyKind(headers, f);
    }
  }

  lemma DelimiterIsRight(verb: bytes, status: nat, headers: seq<Field>)
    requires AllTidy(headers)
    ensures Delimits(verb, status, headers, DelimiterOf(verb, status, headers))
  {
    hide Values, Digits, Decimal, Lower, Text, Contains, AllTidy;
    TidyNames(headers);
    FirstLengthDigits(headers);
    FirstIsFirstValue(headers, Special.Coding);
    FirstIsFirstValue(headers, Special.Length);
    if Values(headers, Special.Coding) != [] {
      ContainsIff(Lower(Values(headers, Special.Coding)[0]), Text("chunked"));
    }
  }

  // ----- Trailers -----------------------------------------------------------------------------------

  /** The names announced: those that the trailer field lists, that are tokens, and that may
      stand in a trailer section; each of them once. */
  lemma {:induction false} AnnouncedOnce(names: seq<bytes>)
    ensures forall n :: n in Announced(names) <==> n in names && Token(n) && n !in TRAILER_FORBIDDEN
    ensures forall i, j :: 0 <= i < j < |Announced(names)| ==> Announced(names)[i] != Announced(names)[j]
  {
    if names != [] {
      var front, last := names[..|names| - 1], names[|names| - 1];
      AnnouncedOnce(front);
      assert forall n :: n in names <==> n in front || n == last by {
        assert names == front + [last];
      }
    }
  }

  lemma {:induction false} SplitLast(front: bytes, last: bytes)
    requires COMMA !in last
    ensures Split(front + [COMMA] + last, COMMA) == Split(front, COMMA) + [last]
    decreases |front|
  {
    var b, first := front + [COMMA] + last, Before(front, COMMA);
    if |first| == |front| {
      BeforeMark(front, COMMA, last);
      assert b[|front| + 1..] == last;
    } else {
      var rest := front[|first| + 1..];
      assert front == first + [COMMA] + rest && b == first + [COMMA] + (rest + [COMMA] + last);
      BeforeMark(first, COMMA, rest + [COMMA] + last);
      assert b[|first| + 1..] == rest + [COMMA] + last;
      SplitLast(rest, last);
      ConcatAssoc([first], Split(rest, COMMA), [last]);
    }
  }

  lemma {:induction false} MembersLast(parts: seq<bytes>, last: bytes)
    requires Lower(Strip(last)) != []
    ensures Members(parts + [last]) == Members(parts) + [Lower(Strip(last))]
  {
    if parts == [] {
      assert [] + [last] == [last] && [last][1..] == [];
    } else {
      assert (parts + [last])[1..] == parts[1..] + [last];
      MembersLast(parts[1..], last);
    }
  }

  lemma SpacedName(name: bytes)
    requires Token(name)
    ensures Strip(name) == name && Strip([SPACE] + name) == name && COMMA !in name && COMMA !in [SPACE] + name
  {
    TokenStays(name);
    assert TokenByte(name[0]) && TokenByte(name[|name| - 1]);
    ValueStays(name);
    assert forall i :: 0 <= i < |name| ==> TokenByte(name[i]);
  }

  predicate LowerTokens(names: seq<bytes>) {
    forall i :: 0 <= i < |names| ==> Token(names[i]) && Lower(names[i]) == names[i]
  }

  lemma OneName(name: bytes)
    requires Token(name) && Lower(name) == name
    ensures Members(Split(name, COMMA)) == [name]
  {
    SpacedName(name);
    assert Split(name, COMMA) == [name] && [name][1..] == [];
  }

  /** The announcement lists exactly the names announced, in order. */
  lemma {:induction false} JoinedAreListed(names: seq<bytes>)
    requires names != [] && LowerTokens(names)
    ensures Members(Split(Join(names), COMMA)) == names
  {
    var front, last := names[..|names| - 1], names[|names| - 1];
    assert names == front + [last];
    if front == [] {
      OneName(last);
    } else {
      hide Strip, Token, Lower, Split, Members;
      JoinedAreListed(front);
      SpacedName(last);
      ConcatAssoc(Join(front), [COMMA], [SPACE]);
      ConcatAssoc(Join(front) + [COMMA], [SPACE], last);
      assert [COMMA, SPACE] == [COMMA] + [SPACE];
      SplitLast(Join(front), [SPACE] + last);
      MembersLast(Split(Join(front), COMMA), [SPACE] + last);
    }
  }

  predicate MayTrail(f: Field) {
    Lower(f.0) !in TRAILER_FORBIDDEN
  }

  /** The trailer fields that are forwarded: all but those that have no place there. */
  lemma ForwardedTrailers(fields: seq<Field>)
    ensures Selects(fields, Forwarded(fields), MayTrail)
  {
    FilteredSelects(fields, MayTrail);
    ForwardedFilters(fields);
  }

  lemma {:induction false} ForwardedFilters(fields: seq<Field>)
    ensures Forwarded(fields) == Filtered(fields, MayTrail)
  {
    hide TRAILER_FORBIDDEN, Lower;
    if fields != [] {
      ForwardedFilters(fields[1..]);
      assert fields == [fields[0]] + fields[1..];
      FilteredConcat([fields[0]], fields[1..], MayTrail);
      FilteredOne(fields[0], MayTrail);
    }
  }

  // ----- Printing and reading -------------------------------------------------------------------------

  function StatusLine(http11: bool, status: nat, phrase: bytes): bytes {
    Text(if http11 then "HTTP/1.1" else "HTTP/1.0") + [SPACE] + Ascii(status) + [SPACE] + phrase
  }

  function AnswerLines(http11: bool, status: nat, phrase: bytes, fields: seq<Field>): seq<bytes> {
    [StatusLine(http11, status, phrase)] + FieldLines(fields)
  }

  function PrintAnswer(http11: bool, status: nat, phrase: bytes, fields: seq<Field>): bytes {
    WriteLines(AnswerLines(http11, status, phrase, fields)) + CRLF
  }

  lemma VersionStarts(http11: bool)
    ensures var version := Text(if http11 then "HTTP/1.1" else "HTTP/1.0");
            StartsWith(version, Text("HTTP/1.")) && version != [] && SPACE !in version && CR !in version
  {
    var version := Text(if http11 then "HTTP/1.1" else "HTTP/1.0");
    assert |Text("HTTP/1.")| == 7 && version[..7] == Text("HTTP/1.");
  }

  lemma DigitsArePlain(b: bytes)
    requires Digits(b)
    ensures SPACE !in b && CR !in b
  {
  }

  lemma StatusLineParses(http11: bool, status: nat, phrase: bytes)
    requires CR !in phrase
    ensures IsLine(StatusLine(http11, status, phrase))
    ensures ParseStatus(StatusLine(http11, status, phrase)) == if 100 <= status <= 599 then Some(status) else None
  {
    hide Text, Ascii, Digits, Decimal, StartsWith, Before, ParseStatus, IsLine;
    var version, code := Text(if http11 then "HTTP/1.1" else "HTTP/1.0"), Ascii(status);
    VersionStarts(http11);
    DigitsArePlain(code);
    WordsAreCut(version, code, phrase);
    StatusIsParsed(StatusLine(http11, status, phrase), version, code, status);
    StatusIsLine(version, code, phrase);
  }

  lemma StatusIsParsed(line: bytes, version: bytes, code: bytes, status: nat)
    requires Before(line, SPACE) == version && |version| < |line| && Before(line[|version| + 1..], SPACE) == code
    requires StartsWith(version, Text("HTTP/1.")) && Digits(code) && Decimal(code) == status
    ensures ParseStatus(line) == if 100 <= status <= 599 then Some(status) else None
  {
    hide Text, Digits, Decimal, StartsWith, Before;
  }

  lemma StatusIsLine(version: bytes, code: bytes, phrase: bytes)
    requires version != [] && CR !in version && CR !in code && CR !in phrase
    ensures IsLine(version + [SPACE] + code + [SPACE] + phrase)
  {
  }

  /** A field as an upstream may print it. */
  lemma AnswerFieldParses(f: Field)
    requires Readable(f)
    ensures var h := (Lower(f.0), f.1);
            ParseHeader(FieldLine(f)) == if IsLength(Lower(f.0)) && !Digits(f.1) then None else Some(h)
  {
    hide Digits, LegalValue, TokenByte;
    var line := FieldLine(f);
    TokenIsPlain(f.0);
    assert line == f.0 + [COLON] + ([SPACE] + f.1) && line[|f.0| + 1..] == [SPACE] + f.1;
    BeforeMark(f.0, COLON, [SPACE] + f.1);
    TokenStays(f.0);
    ValueStays(f.1);
  }

  lemma TokenStays(name: bytes)
    requires Token(name)
    ensures Strip(name) == name && Token(Lower(name))
  {
    assert TokenByte(name[0]) && TokenByte(name[|name| - 1]);
    forall i | 0 <= i < |name| ensures TokenByte(Lower(name)[i]) {
      assert TokenByte(name[i]);
    }
  }

  lemma ValueStays(value: bytes)
    requires Stripped(value)
    ensures Strip([SPACE] + value) == value
  {
    assert ([SPACE] + value)[1..] == value;
    StrippedStays(value);
  }

  /** A field that an upstream may print and that is read as it is. */
  predicate Readable(f: Field) {
    Token(f.0) && CR !in f.1 && Stripped(f.1)
  }

  predicate AllReadable(fields: seq<Field>) {
    forall i :: 0 <= i < |fields| ==> Readable(fields[i])
  }

  predicate LengthsAreDigits(h: seq<Field>) {
    forall i :: 0 <= i < |h| && IsLength(h[i].0) ==> Digits(h[i].1)
  }

  lemma ParseHeadersLast(lines: seq<bytes>, line: bytes)
    ensures ParseHeaders(lines + [line]) ==
            if ParseHeaders(lines).None? || ParseHeader(line).None? then None
            else Some(ParseHeaders(lines).value + [ParseHeader(line).value])
  {
    hide ParseHeader;
    assert (lines + [line])[..|lines|] == lines;
  }

  lemma {:induction false} LastField(front: seq<Field>, last: Field)
    ensures FieldLines(front + [last]) == FieldLines(front) + [FieldLine(last)]
    ensures LowerNames(front + [last]) == LowerNames(front) + [(Lower(last.0), last.1)]
  {
    hide FieldLine, Lower;
    if front == [] {
      assert [] + [last] == [last] && [last][1..] == [];
    } else {
      assert (front + [last])[0] == front[0] && (front + [last])[1..] == front[1..] + [last];
      LastField(front[1..], last);
    }
  }

  /** The lines are read back as the fields, names in lower case, unless a length is no number. */
  ghost predicate ReadBack(fields: seq<Field>) {
    var h := LowerNames(fields);
    ParseHeaders(FieldLines(fields)) == if LengthsAreDigits(h) then Some(h) else None
  }

  lemma OneMoreRead(front: seq<Field>, last: Field)
    requires ReadBack(front) && Readable(last)
    ensures ReadBack(front + [last])
  {
    hide ParseHeader, Readable, IsLength, Digits, Lower, FieldLine, ParseHeaders, LengthsAreDigits, FieldLines, LowerNames;
    LastField(front, last);
    AnswerFieldParses(last);
    ParseHeadersLast(FieldLines(front), FieldLine(last));
    LengthsStep(LowerNames(front), (Lower(last.0), last.1));
  }

  lemma {:induction false} FieldLinesRead(fields: seq<Field>)
    requires AllReadable(fields)
    ensures ReadBack(fields)
  {
    hide ReadBack, Readable;
    if fields == [] {
      NothingRead();
    } else {
      var n := |fields| - 1;
      FieldLinesRead(fields[..n]);
      OneMoreRead(fields[..n], fields[n]);
      assert fields == fields[..n] + [fields[n]];
    }
  }

  lemma NothingRead()
    ensures ReadBack([])
  {
  }

  lemma LengthsStep(h: seq<Field>, last: Field)
    ensures LengthsAreDigits(h + [last]) <==> LengthsAreDigits(h) && (IsLength(last.0) ==> Digits(last.1))
  {
    hide IsLength, Digits;
    assert (h + [last])[|h|] == last;
    if LengthsAreDigits(h + [last]) {
      forall i | 0 <= i < |h| && IsLength(h[i].0) ensures Digits(h[i].1) {
        assert (h + [last])[i] == h[i];
      }
    }
  }

  predicate IsNoLength(f: Field) {
    !SpecialOf(f.0).Length?
  }

  /** The same fields, with one length where there were several of the same. */
  ghost predicate OneLengthLeft(h: seq<Field>, g: seq<Field>) {
    var lengths := Values(h, Special.Length);
    && Values(g, Special.Length) == (if |lengths| <= 1 then lengths else [lengths[0]])
    && Filtered(g, IsNoLength) == Filtered(h, IsNoLength)
    && (|lengths| <= 1 ==> g == h)
  }

  predicate SameValues(values: seq<bytes>) {
    forall i :: 0 <= i < |values| ==> values[i] == values[0]
  }

  lemma {:induction false} WithoutLengths(h: seq<Field>)
    requires forall f :: f in h ==> Lower(f.0) == f.0
    ensures Without(h, Special.Length) == Filtered(h, IsNoLength) && Values(Without(h, Special.Length), Special.Length) == []
  {
    if h != [] {
      var rest := Without(h[1..], Special.Length);
      assert h[0] in h;
      WithoutLengths(h[1..]);
      assert h == [h[0]] + h[1..] && [] + rest == rest;
      FilteredConcat([h[0]], h[1..], IsNoLength);
      FilteredOne(h[0], IsNoLength);
      ValuesCons(h[0], rest, Special.Length);
    }
  }

  lemma {:induction false} FilteredTwice(h: seq<Field>)
    ensures Filtered(Filtered(h, IsNoLength), IsNoLength) == Filtered(h, IsNoLength)
  {
    if h != [] {
      var front, last := h[..|h| - 1], h[|h| - 1];
      var kept := Filtered(front, IsNoLength);
      FilteredTwice(front);
      assert (kept + [last])[..|kept|] == kept;
    }
  }

  lemma {:induction false} ValuesOfOthers(h: seq<Field>, kind: Special)
    requires !kind.Length?
    ensures Values(Filtered(h, IsNoLength), kind) == Values(h, kind)
  {
    if h != [] {
      var front, last := h[..|h| - 1], h[|h| - 1];
      ValuesOfOthers(front, kind);
      ValuesStep(front, last, kind);
      assert h == front + [last];
      if IsNoLength(last) {
        ValuesStep(Filtered(front, IsNoLength), last, kind);
      }
    }
  }

  /** Making equal lengths one leaves the body delimited as it was. */
  lemma SameDelimits(verb: bytes, status: nat, h: seq<Field>, g: seq<Field>, d: Delimiter)
    requires OneLengthLeft(h, g)
    ensures Delimits(verb, status, h, d) <==> Delimits(verb, status, g, d)
  {
    hide Values, Filtered, Digits, Decimal, HoldsAt, Text, Lower, EndsWithHead;
    ValuesOfOthers(h, Special.Coding);
    ValuesOfOthers(g, Special.Coding);
  }

  lemma CollapseLeavesOne(h: seq<Field>)
    requires AllTidy(h)
    ensures Collapse(h).Some? <==> SameValues(Values(h, Special.Length))
    ensures Collapse(h).Some? ==> OneLengthLeft(h, Collapse(h).value)
  {
    hide Tidy, Values, Without, Filtered;
    var lengths := Values(h, Special.Length);
    if |lengths| > 1 && Collapse(h).Some? {
      var others, length := Without(h, Special.Length), (Text("content-length"), lengths[0]);
      TidyNames(h);
      WithoutLengths(h);
      FilteredTwice(h);
      ValuesStep(others, length, Special.Length);
      ConnectionIsKind(length.0);
      FilteredConcat(others, [length], IsNoLength);
      FilteredOne(length, IsNoLength);
      assert [] + [lengths[0]] == [lengths[0]] && Filtered(others, IsNoLength) + [] == Filtered(others, IsNoLength);
    }
  }

  /** Whatever an upstream prints is read as that status and those fields, with equal
      lengths made one, unless the status is out of range, the fields are too many, or a
      length is no number or differs from another. */
  lemma AnswerRoundTrip(verb: bytes, client11: bool, maxHeaderCount: nat, http11: bool, status: nat, phrase: bytes, fields: seq<Field>)
    returns (g: seq<Field>)
    requires CR !in phrase && AllReadable(fields)
    ensures var h, r := LowerNames(fields), ParseAnswer(verb, client11, maxHeaderCount, PrintAnswer(http11, status, phrase, fields));
            && (r.Some? <==> 100 <= status <= 599 && |h| <= maxHeaderCount && LengthsAreDigits(h)
                             && SameValues(Values(h, Special.Length)))
            && (r.Some? ==> AllTidy(g) && OneLengthLeft(h, g) && r.value == AnswerOf(verb, client11, status, g))
  {
    hide Collapse, ParseStatus, ParseHeaders, AnswerOf, StatusLine, Values, OneLengthLeft, Lines, WriteLines, Tidy, FieldLines;
    var lines := AnswerLines(http11, status, phrase, fields);
    var text := WriteLines(lines);
    StatusLineParses(http11, status, phrase);
    FieldLinesRead(fields);
    ReadableLines(fields);
    LinesOfText(lines);
    assert (text + CRLF)[..|text + CRLF| - 4] == text[..|text| - 2];
    assert lines[1..] == FieldLines(fields);
    g := [];
    if LengthsAreDigits(LowerNames(fields)) {
      CollapseLeavesOne(ParseHeaders(FieldLines(fields)).value);
      if Collapse(LowerNames(fields)).Some? {
        g := Collapse(LowerNames(fields)).value;
      }
    }
  }

  lemma {:induction false} ReadableLines(fields: seq<Field>)
    requires AllReadable(fields)
    ensures AreLines(FieldLines(fields))
  {
    forall i | 0 <= i < |fields| ensures IsLine(FieldLines(fields)[i]) {
      assert Readable(fields[i]);
      TokenIsPlain(fields[i].0);
    }
  }
}
