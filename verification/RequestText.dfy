/** Request heads as a client prints them, and what the parser makes of them. */
module RequestText {
  import opened Wrappers
  import opened Bytes
  import opened Head
  import opened HeadText
  import opened Selection

  // ----- Printing --------------------------------------------------------------------------------

  function RequestLine(verb: bytes, target: bytes, http11: bool): bytes {
    verb + [SPACE] + target + [SPACE] + Text(if http11 then "HTTP/1.1" else "HTTP/1.0")
  }

  function FieldLines(fields: seq<Field>): (lines: seq<bytes>)
    ensures |lines| == |fields| && forall i :: 0 <= i < |fields| ==> lines[i] == FieldLine(fields[i])
  {
    if fields == [] then [] else [FieldLine(fields[0])] + FieldLines(fields[1..])
  }

  function PrintRequest(verb: bytes, target: bytes, http11: bool, fields: seq<Field>): bytes {
    WriteLines([RequestLine(verb, target, http11)] + FieldLines(fields)) + CRLF
  }

  /** No blank stands at either end. */
  predicate Trim(b: bytes) {
    b != [] ==> b[0] !in {SPACE, TAB} && b[|b| - 1] !in {SPACE, TAB}
  }

  /** A field that can be printed as it is. */
  predicate Printable(f: Field) {
    Token(f.0) && LegalValue(f.1) && Trim(f.1)
  }

  predicate AllPrintable(fields: seq<Field>) {
    forall i :: 0 <= i < |fields| ==> Printable(fields[i])
  }

  predicate Sendable(verb: bytes, target: bytes, fields: seq<Field>) {
    verb in METHODS && target != [] && |target| <= MAX_TARGET_LENGTH && LegalTarget(target) && AllPrintable(fields)
  }

  // ----- Reading the lines back ------------------------------------------------------------------

  lemma LettersAreToken(s: string)
    requires s != "" && forall i :: 0 <= i < |s| ==> 'A' <= s[i] <= 'Z'
    ensures Token(Text(s))
  {
  }

  lemma MethodIsToken(verb: bytes)
    requires verb in METHODS
    ensures Token(verb)
  {
    LettersAreToken("GET");
    LettersAreToken("HEAD");
    LettersAreToken("POST");
    LettersAreToken("PUT");
    LettersAreToken("DELETE");
    LettersAreToken("OPTIONS");
    LettersAreToken("PATCH");
    LettersAreToken("TRACE");
    hide Text, Token;
  }

  lemma TokenIsPlain(name: bytes)
    requires Token(name)
    ensures SPACE !in name && COLON !in name && CR !in name && LF !in name && name[0] !in {SPACE, TAB}
  {
    assert forall i :: 0 <= i < |name| ==> TokenByte(name[i]);
  }

  lemma VersionText(http11: bool)
    ensures var version := Text(if http11 then "HTTP/1.1" else "HTTP/1.0");
            && WithoutFinalLf(version) == version && SPACE !in version && CR !in version
            && (version == Text("HTTP/1.1") <==> http11)
  {
    var version := Text(if http11 then "HTTP/1.1" else "HTTP/1.0");
    assert version[7] == if http11 then 49 else 48;
    assert Text("HTTP/1.1")[7] == 49;
  }

  lemma TargetIsPlain(target: bytes)
    requires LegalTarget(target)
    ensures SPACE !in target && CR !in target
  {
  }

  /** Three words with a blank between them. */
  lemma WordsAreCut(a: bytes, b: bytes, c: bytes)
    requires SPACE !in a && SPACE !in b
    ensures var line := a + [SPACE] + b + [SPACE] + c;
            && Before(line, SPACE) == a && |a| < |line| && line[|a| + 1..] == b + [SPACE] + c
            && Before(b + [SPACE] + c, SPACE) == b && (b + [SPACE] + c)[|b| + 1..] == c
  {
    var rest := b + [SPACE] + c;
    assert a + [SPACE] + b + [SPACE] + c == a + [SPACE] + rest;
    BeforeMark(a, SPACE, rest);
    BeforeMark(b, SPACE, c);
  }

  lemma RequestLineParses(verb: bytes, target: bytes, http11: bool)
    requires verb in METHODS && target != [] && |target| <= MAX_TARGET_LENGTH && LegalTarget(target)
    ensures IsLine(RequestLine(verb, target, http11))
    ensures ParseRequestLine(RequestLine(verb, target, http11)) == Ok((verb, target, http11))
  {
    hide Text, METHODS, Token, LegalTarget, WithoutFinalLf, Before, ParseRequestLine;
    MethodIsToken(verb);
    TokenIsPlain(verb);
    TargetIsPlain(target);
    VersionText(http11);
    var version := Text(if http11 then "HTTP/1.1" else "HTTP/1.0");
    WordsAreCut(verb, target, version);
    WordsParse(RequestLine(verb, target, http11), verb, target, version);
  }

  lemma WordsParse(line: bytes, verb: bytes, target: bytes, version: bytes)
    requires Before(line, SPACE) == verb && |verb| < |line| && verb in METHODS && Token(verb)
    requires Before(line[|verb| + 1..], SPACE) == target && |target| < |line[|verb| + 1..]|
    requires target != [] && |target| <= MAX_TARGET_LENGTH && LegalTarget(target)
    requires line[|verb| + 1..][|target| + 1..] == version == WithoutFinalLf(version)
    requires version == Text("HTTP/1.0") || version == Text("HTTP/1.1")
    ensures ParseRequestLine(line) == Ok((verb, target, version == Text("HTTP/1.1")))
  {
    hide Text, METHODS, Token, LegalTarget, Before;
  }

  lemma TrimmedValue(value: bytes)
    requires Trim(value)
    ensures TrimRight(TrimLeft([SPACE] + value)) == value
  {
    assert ([SPACE] + value)[1..] == value;
    assert TrimLeft(value) == value && TrimRight(value) == value;
  }

  lemma FieldLineParses(f: Field)
    requires Printable(f)
    ensures IsLine(FieldLine(f)) && ParseField(FieldLine(f)) == Ok((Lower(f.0), f.1))
  {
    TokenIsPlain(f.0);
    var line := FieldLine(f);
    assert line == f.0 + [COLON] + ([SPACE] + f.1) && line[|f.0| + 1..] == [SPACE] + f.1;
    BeforeMark(f.0, COLON, [SPACE] + f.1);
    TrimmedValue(f.1);
    assert CR !in f.1;
  }

  lemma {:induction false} FieldLinesAreLines(fields: seq<Field>)
    requires AllPrintable(fields)
    ensures AreLines(FieldLines(fields))
  {
    if fields != [] {
      FieldLineParses(fields[0]);
      FieldLinesAreLines(fields[1..]);
      hide Printable, IsLine;
    }
  }

  // ----- Collecting the fields ----------------------------------------------------------------------

  /** A field the server takes: a length of at most ten digits, an expectation it knows, or
      any other. */
  predicate Takes(f: Field) {
    match SpecialOf(f.0)
    case Length => Digits(f.1) && |f.1| <= 10
    case Expectation => Lower(f.1) == Text("100-continue")
    case _ => true
  }

  predicate AllTaken(h: seq<Field>) {
    forall i :: 0 <= i < |h| ==> Takes(h[i])
  }

  lemma {:induction false} TakenHasNumbers(h: seq<Field>)
    requires AllTaken(h)
    ensures Numbers(Values(h, Length)).Some?
  {
    if h != [] {
      var front, last := h[..|h| - 1], h[|h| - 1];
      TakenHasNumbers(front);
      var values := Values(front, Length);
      assert Takes(last);
      assert (values + [last.1])[..|values|] == values;
    }
  }

  /** Everything the fields say that the server acts on. */
  ghost function Gathered(h: seq<Field>): Fields
    requires AllTaken(h)
  {
    TakenHasNumbers(h);
    Fields(h, Numbers(Values(h, Length)).value, Codings(Values(h, Coding)), Codings(Values(h, Special.Connection)),
           Values(h, Special.Host), Values(h, Expectation) != [])
  }

  lemma OneMoreNumber(values: seq<bytes>, value: bytes)
    requires Numbers(values).Some? && Digits(value)
    ensures Numbers(values + [value]) == Some(Numbers(values).value + [Decimal(value)])
  {
    assert (values + [value])[..|values|] == values;
  }

  lemma OneMoreCoding(values: seq<bytes>, value: bytes)
    ensures Codings(values + [value]) == Codings(values) + Members(Split(value, COMMA))
  {
    assert (values + [value])[..|values|] == values;
  }

  lemma TakenIsGathered(h: seq<Field>, f: Field)
    requires AllTaken(h) && Takes(f)
    ensures AllTaken(h + [f]) && AddField(Gathered(h), f) == Ok(Gathered(h + [f]))
  {
    hide Decimal, Members, Split, Digits, Lower, Text, Values, Codings, Numbers;
    ValuesStep(h, f, Length);
    ValuesStep(h, f, Coding);
    ValuesStep(h, f, Special.Connection);
    ValuesStep(h, f, Special.Host);
    ValuesStep(h, f, Expectation);
    TakenHasNumbers(h);
    OneMoreNumberIf(h, f);
    OneMoreCoding(Values(h, Coding), f.1);
    OneMoreCoding(Values(h, Special.Connection), f.1);
  }

  lemma OneMoreNumberIf(h: seq<Field>, f: Field)
    requires AllTaken(h) && Takes(f) && Numbers(Values(h, Length)).Some?
    ensures SpecialOf(f.0).Length? ==>
              Numbers(Values(h, Length) + [f.1]) == Some(Numbers(Values(h, Length)).value + [Decimal(f.1)])
  {
    hide Values;
    if SpecialOf(f.0).Length? {
      OneMoreNumber(Values(h, Length), f.1);
    }
  }

  /** One header line. */
  lemma ParseFieldsOnce(cfg: Config, lines: seq<bytes>, count: nat, f: Fields, field: Field)
    requires lines != [] && ParseField(lines[0]) == Ok(field)
    ensures ParseFields(cfg, lines, count, f) ==
            if count > cfg.maxHeaderCount then Err(431)
            else match AddField(f, field)
                 case Err(status) => Err(status)
                 case Ok(g) => ParseFields(cfg, lines[1..], count + 1, g)
  {
    hide ParseField, AddField;
  }

  /** The fields that the lines are read as. */
  ghost predicate ReadAs(lines: seq<bytes>, h: seq<Field>) {
    |lines| == |h| && forall i :: 0 <= i < |lines| ==> ParseField(lines[i]) == Ok(h[i])
  }

  lemma PrintedAreRead(fields: seq<Field>)
    requires AllPrintable(fields)
    ensures ReadAs(FieldLines(fields), LowerNames(fields))
  {
    hide Printable, ParseField, FieldLine;
    forall i | 0 <= i < |fields| ensures ParseField(FieldLines(fields)[i]) == Ok(LowerNames(fields)[i]) {
      FieldLineParses(fields[i]);
    }
  }

  lemma OthersAreRead(lines: seq<bytes>, h: seq<Field>)
    requires ReadAs(lines, h) && lines != []
    ensures ReadAs(lines[1..], h[1..]) && ParseField(lines[0]) == Ok(h[0])
  {
    hide ParseField;
  }

  /** The loop over the header lines, with `h` read so far. */
  lemma {:induction false} FieldLinesParse(cfg: Config, lines: seq<bytes>, more: seq<Field>, h: seq<Field>)
    requires ReadAs(lines, more) && AllTaken(h)
    ensures var r := ParseFields(cfg, lines, |h| + 1, Gathered(h));
            if AllTaken(h + more) && (lines == [] || |h| + |more| <= cfg.maxHeaderCount)
            then r == Ok(Gathered(h + more)) else r.Err?
    decreases |lines|
  {
    hide Gathered, Takes, ParseField, AddField, ReadAs;
    if lines == [] {
      assert h + more == h by {
        NothingIsRead(more);
      }
    } else {
      hide ParseFields, AllTaken;
      OthersAreRead(lines, more);
      SameNumber(lines, more);
      var f := more[0];
      ParseFieldsOnce(cfg, lines, |h| + 1, Gathered(h), f);
      assert h + more == (h + [f]) + more[1..];
      if Takes(f) {
        TakenIsGathered(h, f);
        FieldLinesParse(cfg, lines[1..], more[1..], h + [f]);
      } else {
        NotTaken(h, f);
        NotAllTaken(h + more, |h|);
      }
    }
  }

  lemma NothingIsRead(more: seq<Field>)
    requires ReadAs([], more)
    ensures more == []
  {
  }

  lemma SameNumber(lines: seq<bytes>, h: seq<Field>)
    requires ReadAs(lines, h)
    ensures |lines| == |h|
  {
  }

  lemma NotAllTaken(h: seq<Field>, i: nat)
    requires i < |h| && !Takes(h[i])
    ensures !AllTaken(h)
  {
  }

  lemma NotTaken(h: seq<Field>, f: Field)
    requires AllTaken(h) && !Takes(f)
    ensures AddField(Gathered(h), f).Err?
  {
  }

  // ----- Host and framing -----------------------------------------------------------------------------

  /** The request says once and validly whom it is for, in the host field or the target. */
  ghost predicate SaysHost(cfg: Config, target: bytes, http11: bool, h: seq<Field>) {
    var hosts, authority := Values(h, Special.Host), cfg.targetAuthority(target);
    && |hosts| <= 1 && (http11 ==> |hosts| == 1) && (|hosts| == 1 ==> cfg.validAuthority(hosts[0]))
    && (Absolute(target) ==> authority.Some? && authority.value != [] && cfg.validAuthority(authority.value))
  }

  /** The fields with the authority of the target for their host: one such field, and all
      the others as they are. */
  ghost predicate Rehosted(h: seq<Field>, headers: seq<Field>, authority: bytes) {
    && Values(headers, Special.Host) == [authority]
    && Filtered(headers, IsNoHost) == Filtered(h, IsNoHost)
  }

  predicate IsNoHost(f: Field) {
    !SpecialOf(f.0).Host?
  }

  lemma FilteredCons(f: Field, rest: seq<Field>)
    ensures Filtered([f] + rest, IsNoHost) == (if IsNoHost(f) then [f] else []) + Filtered(rest, IsNoHost)
  {
    FilteredConcat([f], rest, IsNoHost);
    FilteredOne(f, IsNoHost);
  }

  lemma HostIsHost(authority: bytes)
    ensures SpecialOf(Text("host")).Host? && !IsNoHost((Text("host"), authority))
  {
    assert |Text("host")| == 4 && |Text("content-length")| == 14 && |Text("transfer-encoding")| == 17 && |Text("connection")| == 10;
  }

  lemma {:induction false} RehostOnce(h: seq<Field>, authority: bytes, seen: bool)
    ensures var r := Rehost(h, authority, seen);
            && Values(r, Special.Host) == (if seen then [] else [authority])
            && Filtered(r, IsNoHost) == Filtered(h, IsNoHost)
  {
    var host := (Text("host"), authority);
    if h == [] {
      ValuesCons(host, [], Special.Host);
      FilteredCons(host, []);
      assert [host] + [] == [host] && [] + Filtered([], IsNoHost) == [];
    } else {
      var isHost := SpecialOf(h[0].0).Host?;
      var rest := Rehost(h[1..], authority, seen || isHost);
      RehostOnce(h[1..], authority, seen || isHost);
      HostIsHost(authority);
      assert h == [h[0]] + h[1..] && [] + rest == rest;
      hide Values, Filtered, SpecialOf;
      FilteredCons(h[0], h[1..]);
      FilteredCons(h[0], rest);
      FilteredCons(host, rest);
      ValuesCons(h[0], rest, Special.Host);
      ValuesCons(host, rest, Special.Host);
      assert [] + Filtered(rest, IsNoHost) == Filtered(rest, IsNoHost);
    }
  }

  lemma HostResolves(cfg: Config, target: bytes, http11: bool, h: seq<Field>)
    requires AllTaken(h)
    ensures var r := ResolveHost(cfg, target, http11, Gathered(h));
            && (r.Ok? <==> SaysHost(cfg, target, http11, h))
            && (r.Ok? && Absolute(target) ==>
                  cfg.targetAuthority(target) == Some(r.value.0) && Rehosted(h, r.value.1, r.value.0))
            && (r.Ok? && !Absolute(target) ==>
                  r.value.1 == h && r.value.0 == if Values(h, Special.Host) == [] then [] else Values(h, Special.Host)[0])
  {
    hide Values, Numbers, Codings, Rehost, Absolute;
    if Absolute(target) && cfg.targetAuthority(target).Some? {
      RehostOnce(h, cfg.targetAuthority(target).value, false);
    }
  }

  /** The body is framed in one way: by one chunked coding, by lengths that agree and are
      not too large, or not at all. */
  ghost predicate SaysLength(cfg: Config, http11: bool, h: seq<Field>) {
    var codings, lengths := Codings(Values(h, Coding)), Values(h, Length);
    && (codings != [] ==> http11 && codings == [Text("chunked")] && lengths == [])
    && (forall i :: 0 <= i < |lengths| ==> Digits(lengths[i]) && Digits(lengths[0]) && Decimal(lengths[i]) == Decimal(lengths[0]))
    && (lengths != [] && cfg.maxRequestSize > 0 ==> Decimal(lengths[0]) <= cfg.maxRequestSize)
  }

  lemma OneCoding(codings: seq<bytes>)
    ensures codings == [Text("chunked")] <==>
              codings != [] && Occurrences(codings, Text("chunked")) <= 1
              && forall i :: 0 <= i < |codings| ==> codings[i] == Text("chunked")
  {
    hide Text;
    if codings == [Text("chunked")] {
      assert Occurrences(codings[1..], Text("chunked")) == 0;
    } else if codings != [] && Occurrences(codings, Text("chunked")) <= 1
              && forall i :: 0 <= i < |codings| ==> codings[i] == Text("chunked") {
      AllChunked(codings, Text("chunked"));
    }
  }

  lemma FramingResolves(cfg: Config, http11: bool, h: seq<Field>)
    requires AllTaken(h)
    ensures var r := ResolveFraming(cfg, http11, Gathered(h));
            && (r.Ok? <==> SaysLength(cfg, http11, h))
            && (r.Ok? ==> (r.value.0 <==> Codings(Values(h, Coding)) != []))
            && (r.Ok? ==> r.value.1 == if Values(h, Length) == [] then None else Some(Decimal(Values(h, Length)[0])))
  {
    hide Values, Codings, Text, Decimal, Digits;
    var codings, lengths := Codings(Values(h, Coding)), Values(h, Length);
    TakenHasNumbers(h);
    NumbersAre(lengths);
    OneCoding(codings);
    assert codings != [] && !(forall i :: 0 <= i < |codings| ==> codings[i] == Text("chunked")) ==>
      exists i :: 0 <= i < |codings| && codings[i] != Text("chunked");
  }

  // ----- Whether the connection may be used again ------------------------------------------------------

  /** A connection field lists the option. */
  ghost predicate Names(h: seq<Field>, option: bytes) {
    exists f :: f in h && SpecialOf(f.0).Connection? && Lists(f.1, option)
  }

  lemma {:induction false} CodingsAreListed(values: seq<bytes>, token: bytes)
    ensures token in Codings(values) <==> exists v :: v in values && Lists(v, token)
  {
    if values != [] {
      var front, last := values[..|values| - 1], values[|values| - 1];
      CodingsAreListed(front, token);
      MembersAreListed(last, token);
      assert forall v :: v in values <==> v in front || v == last by {
        assert values == front + [last];
      }
    }
  }

  lemma {:induction false} ValuesAreFields(h: seq<Field>, kind: Special, value: bytes)
    ensures value in Values(h, kind) <==> exists f :: f in h && SpecialOf(f.0) == kind && f.1 == value
  {
    if h != [] {
      var front, last := h[..|h| - 1], h[|h| - 1];
      ValuesAreFields(front, kind, value);
      assert forall f :: f in h <==> f in front || f == last by {
        assert h == front + [last];
      }
    }
  }

  lemma NamesAreCollected(h: seq<Field>, option: bytes)
    ensures Names(h, option) <==> option in Codings(Values(h, Special.Connection))
  {
    hide Lists, Codings, Values, SpecialOf;
    var values := Values(h, Special.Connection);
    CodingsAreListed(values, option);
    if Names(h, option) {
      var f :| f in h && SpecialOf(f.0).Connection? && Lists(f.1, option);
      ValuesAreFields(h, Special.Connection, f.1);
    }
    if option in Codings(values) {
      var v :| v in values && Lists(v, option);
      ValuesAreFields(h, Special.Connection, v);
    }
  }

  /** The connection may be used again: by default in HTTP/1.1, and if it is asked for by a
      client that says whom the request is for; and not when `close` is among the options. */
  ghost predicate Reusable(target: bytes, http11: bool, h: seq<Field>) {
    && !Names(h, Text("close"))
    && (http11 || (Names(h, Text("keep-alive")) && (Absolute(target) || Values(h, Special.Host) != [])))
  }

  // ----- The round trip -------------------------------------------------------------------------------

  /** What an accepted head says: what was printed, no more and no less. */
  ghost predicate Says(cfg: Config, head: RequestHead, verb: bytes, target: bytes, http11: bool, h: seq<Field>) {
    && head.verb == verb && head.target == target && head.http11 == http11
    && (if Absolute(target) then cfg.targetAuthority(target) == Some(head.host) && Rehosted(h, head.headers, head.host)
        else head.headers == h && head.host == if Values(h, Special.Host) == [] then [] else Values(h, Special.Host)[0])
    && (head.chunked <==> Codings(Values(h, Coding)) != [])
    && (Values(h, Length) != [] ==> Digits(Values(h, Length)[0]))
    && head.contentLength == (if Values(h, Length) == [] then None else Some(Decimal(Values(h, Length)[0])))
    && (head.keepAlive <==> Reusable(target, http11, h))
    && (head.expectContinue <==> Values(h, Expectation) != [])
  }

  lemma ReuseIsRead(target: bytes, http11: bool, h: seq<Field>)
    requires AllTaken(h) && |Values(h, Special.Host)| <= 1
    ensures var f := Gathered(h);
            var known := Absolute(target) || |f.hosts| == 1;
            (if Text("close") in f.connection then false
             else if Text("keep-alive") in f.connection && (http11 || known) then true
             else http11) <==> Reusable(target, http11, h)
  {
    hide Text, Names, Values, Codings, Numbers, Absolute;
    NamesAreCollected(h, Text("close"));
    NamesAreCollected(h, Text("keep-alive"));
  }

  /** The head is acceptable: not too many fields, each of them one that the server takes,
      one host, and one framing. */
  ghost predicate Acceptable(cfg: Config, target: bytes, http11: bool, h: seq<Field>) {
    |h| <= cfg.maxHeaderCount && AllTaken(h) && SaysHost(cfg, target, http11, h) && SaysLength(cfg, http11, h)
  }

  /** The lines of a head, read one after the other. */
  ghost predicate HeadReadAs(lines: seq<bytes>, verb: bytes, target: bytes, http11: bool, h: seq<Field>) {
    lines != [] && ParseRequestLine(lines[0]) == Ok((verb, target, http11)) && ReadAs(lines[1..], h)
  }

  lemma PrintedHeadIsRead(verb: bytes, target: bytes, http11: bool, fields: seq<Field>)
    requires Sendable(verb, target, fields)
    ensures HeadReadAs([RequestLine(verb, target, http11)] + FieldLines(fields), verb, target, http11, LowerNames(fields))
  {
    hide RequestLine, METHODS, ParseRequestLine, LegalTarget, AllPrintable, ReadAs;
    RequestLineParses(verb, target, http11);
    PrintedAreRead(fields);
    assert ([RequestLine(verb, target, http11)] + FieldLines(fields))[1..] == FieldLines(fields);
  }

  lemma LinesParse(cfg: Config, lines: seq<bytes>, h: seq<Field>)
    requires lines != [] && ReadAs(lines[1..], h)
    ensures var r := ParseFields(cfg, lines[1..], 1, NO_FIELDS);
            if AllTaken(h) && |h| <= cfg.maxHeaderCount then r == Ok(Gathered(h)) else r.Err?
  {
    hide Gathered, ParseFields, AllTaken, ReadAs;
    NothingGathered();
    FieldLinesParse(cfg, lines[1..], h, []);
    SameNumber(lines[1..], h);
    assert [] + h == h;
  }

  lemma NothingGathered()
    ensures AllTaken([]) && Gathered([]) == NO_FIELDS
  {
  }

  lemma TextParses(cfg: Config, text: bytes, verb: bytes, target: bytes, http11: bool, h: seq<Field>)
    requires HeadReadAs(Lines(text), verb, target, http11, h)
    ensures var r := ParseText(cfg, text);
            && (r.Ok? <==> Acceptable(cfg, target, http11, h))
            && (r.Ok? ==> Says(cfg, r.value, verb, target, http11, h))
  {
    hide Lines, ParseRequestLine, ParseFields, ResolveHost, ResolveFraming, SaysHost, SaysLength, Rehosted, Reusable,
         Names, Values, Codings, Numbers, Decimal, Absolute, Text, AllTaken, ReadAs;
    LinesParse(cfg, Lines(text), h);
    if AllTaken(h) && |h| <= cfg.maxHeaderCount {
      HostResolves(cfg, target, http11, h);
      FramingResolves(cfg, http11, h);
      FoundHost(cfg, target, http11, h);
      FoundLength(cfg, http11, h);
      if SaysHost(cfg, target, http11, h) {
        ReuseIsRead(target, http11, h);
      }
    }
  }

  lemma FoundHost(cfg: Config, target: bytes, http11: bool, h: seq<Field>)
    ensures SaysHost(cfg, target, http11, h) ==> |Values(h, Special.Host)| <= 1
  {
  }

  lemma FoundLength(cfg: Config, http11: bool, h: seq<Field>)
    ensures SaysLength(cfg, http11, h) && Values(h, Length) != [] ==> Digits(Values(h, Length)[0])
  {
  }

  /** Any printed request head, followed by anything: it is refused for its size, or it is
      accepted exactly if it is acceptable, and then says what was printed, its length
      included. */
  lemma RequestRoundTrip(cfg: Config, verb: bytes, target: bytes, http11: bool, fields: seq<Field>, rest: bytes)
    requires Sendable(verb, target, fields)
    ensures var text, h := PrintRequest(verb, target, http11, fields), LowerNames(fields);
            var outcome := ParseHead(cfg, text + rest);
            && !outcome.NeedMore?
            && (outcome.Accept? <==> |text| <= cfg.maxHeaderSize && Acceptable(cfg, target, http11, h))
            && (|text| > cfg.maxHeaderSize ==> outcome == Reject(431))
            && (outcome.Accept? ==> outcome.n == |text| && Says(cfg, outcome.head, verb, target, http11, h))
  {
    hide ParseText, ParseHead, Says, Acceptable, AreLines, WriteLines, Lines, RequestLine, Sendable, FieldLines, HeadReadAs;
    var lines := [RequestLine(verb, target, http11)] + FieldLines(fields);
    PrintedLines(verb, target, http11, fields);
    PrintedHead(cfg, lines, rest);
    PrintedHeadIsRead(verb, target, http11, fields);
    TextParses(cfg, WriteLines(lines)[..|WriteLines(lines)| - 2], verb, target, http11, LowerNames(fields));
  }

  lemma PrintedLines(verb: bytes, target: bytes, http11: bool, fields: seq<Field>)
    requires Sendable(verb, target, fields)
    ensures AreLines([RequestLine(verb, target, http11)] + FieldLines(fields))
  {
    hide RequestLine, IsLine, METHODS, LegalTarget, AllPrintable;
    RequestLineParses(verb, target, http11);
    FieldLinesAreLines(fields);
  }

  /** Lines that were written with an empty one after them are a head. */
  lemma PrintedHead(cfg: Config, lines: seq<bytes>, rest: bytes)
    requires lines != [] && AreLines(lines)
    ensures var text := WriteLines(lines);
            && Lines(text[..|text| - 2]) == lines
            && ParseHead(cfg, text + CRLF + rest) ==
               if |text + CRLF| > cfg.maxHeaderSize then Reject(431)
               else match ParseText(cfg, text[..|text| - 2])
                    case Err(status) => Reject(status)
                    case Ok(head) => Accept(head, |text + CRLF|)
  {
    hide ParseText, AreLines, FindEnd, Lines;
    EndOfText(lines, rest);
    LinesOfText(lines);
    var text := WriteLines(lines);
    assert (text + CRLF + rest)[..|text| - 2] == text[..|text| - 2];
  }
}
