/** The request head parser, sections 3 and 6.1 to 6.3 of RFC 9112. */
module Head {
  import opened Wrappers
  import opened Bytes

  /** The limits that matter to the parser.  Whether bytes are an authority, and
      what authority an absolute-form target carries, are left to `validAuthority`
      and `targetAuthority`. */
  datatype Config = Config(
    maxHeaderSize: nat,
    maxHeaderCount: nat,
    maxRequestSize: nat,
    validAuthority: bytes -> bool,
    targetAuthority: bytes -> Option<bytes>)

  datatype RequestHead = RequestHead(
    verb: bytes,
    target: bytes,
    http11: bool,
    headers: seq<Field>,
    contentLength: Option<nat>,
    chunked: bool,
    keepAlive: bool,
    expectContinue: bool,
    host: bytes)

  /** More bytes are needed, the head is refused with a status, or it is accepted
      and takes the first `n` bytes of the buffer. */
  datatype Outcome = NeedMore | Reject(status: nat) | Accept(head: RequestHead, n: nat)

  const MAX_TARGET_LENGTH := 8192
  const COMMA: byte := 44

  /** ASCII text as bytes. */
  function Text(s: string): (b: bytes)
    ensures |b| == |s|
  {
    seq(|s|, i requires 0 <= i < |s| => (s[i] as int) % 256)
  }

  const METHODS: set<bytes> :=
    {Text("GET"), Text("HEAD"), Text("POST"), Text("PUT"), Text("DELETE"), Text("OPTIONS"), Text("PATCH"), Text("TRACE")}

  /** Where the first empty line ends the head: the position of CRLFCRLF. */
  function FindEnd(b: bytes): (r: Option<nat>)
    ensures r.Some? ==> r.value + 4 <= |b|
  {
    if |b| < 4 then None
    else if b[..4] == CRLF + CRLF then Some(0)
    else
      var r := FindEnd(b[1..]);
      if r.None? then None else Some(r.value + 1)
  }

  function Lines(b: bytes): (lines: seq<bytes>)
    ensures lines != []
    decreases |b|
  {
    match FindCrlf(b)
    case None => [b]
    case Some(i) => [b[..i]] + Lines(b[i + 2..])
  }

  function Split(b: bytes, mark: byte): (parts: seq<bytes>)
    decreases |b|
  {
    var first := Before(b, mark);
    if |first| == |b| then [first] else [first] + Split(b[|first| + 1..], mark)
  }

  /** The non-empty members of a comma separated list, in lower case. */
  function Members(parts: seq<bytes>): seq<bytes> {
    if parts == [] then []
    else
      var token := Lower(Strip(parts[0]));
      (if token == [] then [] else [token]) + Members(parts[1..])
  }

  function TrimLeft(b: bytes): bytes {
    if b != [] && (b[0] == SPACE || b[0] == TAB) then TrimLeft(b[1..]) else b
  }

  function TrimRight(b: bytes): bytes {
    if b != [] && (b[|b| - 1] == SPACE || b[|b| - 1] == TAB) then TrimRight(b[..|b| - 1]) else b
  }

  /** A pattern anchored with `$` also matches in front of one final line feed. */
  function WithoutFinalLf(b: bytes): bytes {
    if b != [] && b[|b| - 1] == LF then b[..|b| - 1] else b
  }

  predicate Digits(b: bytes) {
    b != [] && forall i :: 0 <= i < |b| ==> 48 <= b[i] <= 57
  }

  function Decimal(b: bytes): nat
    requires b == [] || Digits(b)
  {
    if b == [] then 0 else 10 * Decimal(b[..|b| - 1]) + (b[|b| - 1] - 48)
  }

  /** A number in decimal digits. */
  function Ascii(n: nat): (b: bytes)
    ensures Digits(b) && Decimal(b) == n
  {
    if n < 10 then [48 + n]
    else
      var b := Ascii(n / 10) + [48 + n % 10];
      assert b[..|b| - 1] == Ascii(n / 10);
      b
  }

  predicate LegalTarget(b: bytes) {
    forall i :: 0 <= i < |b| ==> b[i] > 32 && b[i] != 127
  }

  predicate StartsWith(b: bytes, prefix: bytes) {
    |prefix| <= |b| && b[..|prefix|] == prefix
  }

  predicate Absolute(target: bytes) {
    StartsWith(target, Text("http://")) || StartsWith(target, Text("https://"))
  }

  /** Method, target and whether the version is 1.1. */
  function ParseRequestLine(line: bytes): Result<(bytes, bytes, bool), nat> {
    var verb := Before(line, SPACE);
    if |verb| == |line| || !Token(verb) then Err(400)
    else
      var rest := line[|verb| + 1..];
      var target := Before(rest, SPACE);
      if |target| == |rest| || target == [] then Err(400)
      else
        var version := WithoutFinalLf(rest[|target| + 1..]);
        if version != Text("HTTP/1.0") && version != Text("HTTP/1.1") then Err(400)
        else if |target| > MAX_TARGET_LENGTH then Err(414)
        else if !LegalTarget(target) then Err(400)
        else if verb !in METHODS then Err(405)
        else Ok((verb, target, version == Text("HTTP/1.1")))
  }

  /** What the header lines read so far have said. */
  datatype Fields = Fields(
    headers: seq<Field>,
    lengths: seq<nat>,
    codings: seq<bytes>,
    connection: seq<bytes>,
    hosts: seq<bytes>,
    expectation: bool)

  const NO_FIELDS := Fields([], [], [], [], [], false)

  function ParseField(line: bytes): Result<Field, nat> {
    if line == [] || line[0] == SPACE || line[0] == TAB then Err(400)
    else
      var name := Before(line, COLON);
      if |name| == |line| || !Token(WithoutFinalLf(name)) then Err(400)
      else
        var value := TrimRight(TrimLeft(line[|name| + 1..]));
        if !LegalValue(value) then Err(400) else Ok((Lower(name), value))
  }

  /** The fields the server itself acts on. */
  datatype Special = Length | Coding | Connection | Host | Expectation | Plain

  function SpecialOf(name: bytes): Special {
    if name == Text("content-length") then Length
    else if name == Text("transfer-encoding") then Coding
    else if name == Text("connection") then Connection
    else if name == Text("host") then Host
    else if name == Text("expect") then Expectation
    else Plain
  }

  function AddField(f: Fields, field: Field): Result<Fields, nat> {
    var value := field.1;
    var g := f.(headers := f.headers + [field]);
    match SpecialOf(field.0)
    case Length =>
      if !Digits(value) then Err(400)
      else if |value| > 10 then Err(413)
      else Ok(g.(lengths := f.lengths + [Decimal(value)]))
    case Coding => Ok(g.(codings := f.codings + Members(Split(value, COMMA))))
    case Connection => Ok(g.(connection := f.connection + Members(Split(value, COMMA))))
    case Host => Ok(g.(hosts := f.hosts + [value]))
    case Expectation => if Lower(value) == Text("100-continue") then Ok(g.(expectation := true)) else Err(417)
    case Plain => Ok(g)
  }

  /** The header lines from number `count` (the first is 1) on. */
  function ParseFields(cfg: Config, lines: seq<bytes>, count: nat, f: Fields): Result<Fields, nat> {
    if lines == [] then Ok(f)
    else
      match ParseField(lines[0])
      case Err(status) => Err(status)
      case Ok(field) =>
        if count > cfg.maxHeaderCount then Err(431)
        else
          match AddField(f, field)
          case Err(status) => Err(status)
          case Ok(g) => ParseFields(cfg, lines[1..], count + 1, g)
  }

  /** The fields with every host field replaced by one for `authority`. */
  function Rehost(headers: seq<Field>, authority: bytes, seen: bool): seq<Field> {
    if headers == [] then (if seen then [] else [(Text("host"), authority)])
    else if SpecialOf(headers[0].0).Host? then
      (if seen then [] else [(Text("host"), authority)]) + Rehost(headers[1..], authority, true)
    else [headers[0]] + Rehost(headers[1..], authority, seen)
  }

  /** The authority the request is for, and the fields that say so. */
  function ResolveHost(cfg: Config, target: bytes, http11: bool, f: Fields): Result<(bytes, seq<Field>), nat> {
    if |f.hosts| > 1 then Err(400)
    else if |f.hosts| == 1 && !cfg.validAuthority(f.hosts[0]) then Err(400)
    else if |f.hosts| == 0 && http11 then Err(400)
    else if Absolute(target) then
      match cfg.targetAuthority(target)
      case None => Err(400)
      case Some(authority) =>
        if authority == [] || !cfg.validAuthority(authority) then Err(400)
        else Ok((authority, Rehost(f.headers, authority, false)))
    else Ok((if |f.hosts| == 1 then f.hosts[0] else [], f.headers))
  }

  function Occurrences(tokens: seq<bytes>, token: bytes): nat {
    if tokens == [] then 0 else (if tokens[0] == token then 1 else 0) + Occurrences(tokens[1..], token)
  }

  /** How the body is framed: chunked or not, and a length if one is declared. */
  function ResolveFraming(cfg: Config, http11: bool, f: Fields): Result<(bool, Option<nat>), nat> {
    if f.codings != [] then
      if !http11 || f.lengths != [] then Err(400)
      else if Occurrences(f.codings, Text("chunked")) > 1 then Err(400)
      else if f.codings[|f.codings| - 1] != Text("chunked") then Err(400)
      else if exists i :: 0 <= i < |f.codings| && f.codings[i] != Text("chunked") then Err(501)
      else Ok((true, None))
    else if f.lengths != [] then
      if exists i :: 0 <= i < |f.lengths| && f.lengths[i] != f.lengths[0] then Err(400)
      else if cfg.maxRequestSize > 0 && f.lengths[0] > cfg.maxRequestSize then Err(413)
      else Ok((false, Some(f.lengths[0])))
    else Ok((false, None))
  }

  /** The head of a request, without the empty line that ends it. */
  function ParseText(cfg: Config, text: bytes): Result<RequestHead, nat> {
    var lines := Lines(text);
    match ParseRequestLine(lines[0])
    case Err(status) => Err(status)
    case Ok((verb, target, http11)) =>
      match ParseFields(cfg, lines[1..], 1, NO_FIELDS)
      case Err(status) => Err(status)
      case Ok(f) =>
        match ResolveHost(cfg, target, http11, f)
        case Err(status) => Err(status)
        case Ok((host, headers)) =>
          match ResolveFraming(cfg, http11, f)
          case Err(status) => Err(status)
          case Ok((chunked, length)) =>
            var known := Absolute(target) || |f.hosts| == 1;
            var keepAlive := if Text("close") in f.connection then false
                             else if Text("keep-alive") in f.connection && (http11 || known) then true
                             else http11;
            Ok(RequestHead(verb, target, http11, headers, length, chunked, keepAlive, f.expectation, host))
  }

  function ParseHead(cfg: Config, buffer: bytes): (outcome: Outcome)
    ensures outcome.Accept? ==> outcome.n <= |buffer|
  {
    match FindEnd(buffer)
    case None => if |buffer| > cfg.maxHeaderSize then Reject(431) else NeedMore
    case Some(i) =>
      if i + 4 > cfg.maxHeaderSize then Reject(431)
      else
        match ParseText(cfg, buffer[..i])
        case Err(status) => Reject(status)
        case Ok(head) => Accept(head, i + 4)
  }

  // ----- Cutting the input -------------------------------------------------------

  lemma {:induction false} FindEndStays(a: bytes, b: bytes)
    requires FindEnd(a).Some?
    ensures FindEnd(a + b) == FindEnd(a)
  {
    assert (a + b)[..4] == a[..4];
    if a[..4] != CRLF + CRLF {
      assert (a + b)[1..] == a[1..] + b;
      FindEndStays(a[1..], b);
    }
  }

  lemma {:induction false} FindEndLater(a: bytes, b: bytes)
    requires FindEnd(a).None? && FindEnd(a + b).Some?
    ensures FindEnd(a + b).value + 4 > |a|
  {
    if |a| >= 4 {
      assert (a + b)[..4] == a[..4];
      assert (a + b)[1..] == a[1..] + b;
      FindEndLater(a[1..], b);
    }
  }

  /** Once there is an outcome, more input does not change it. */
  lemma OutcomeStays(cfg: Config, a: bytes, b: bytes)
    requires !ParseHead(cfg, a).NeedMore?
    ensures ParseHead(cfg, a + b) == ParseHead(cfg, a)
  {
    if FindEnd(a).Some? {
      FindEndStays(a, b);
      var i := FindEnd(a).value;
      assert (a + b)[..i] == a[..i];
    } else if FindEnd(a + b).Some? {
      FindEndLater(a, b);
    }
  }

  /** The parser as the connection drives it: tried again after every arrival. */
  function ParsePieces(cfg: Config, buffer: bytes, pieces: seq<bytes>): Outcome
    decreases |pieces|
  {
    if pieces == [] || !ParseHead(cfg, buffer).NeedMore? then ParseHead(cfg, buffer)
    else ParsePieces(cfg, buffer + pieces[0], pieces[1..])
  }

  /** The outcome depends on the bytes alone, not on how they were cut. */
  lemma {:induction false} PiecesParseAlike(cfg: Config, buffer: bytes, pieces: seq<bytes>)
    ensures ParsePieces(cfg, buffer, pieces) == ParseHead(cfg, buffer + Flat(pieces))
    decreases |pieces|
  {
    if !ParseHead(cfg, buffer).NeedMore? {
      OutcomeStays(cfg, buffer, Flat(pieces));
    } else if pieces == [] {
      assert buffer + [] == buffer;
    } else {
      PiecesParseAlike(cfg, buffer + pieces[0], pieces[1..]);
      ConcatAssoc(buffer, pieces[0], Flat(pieces[1..]));
    }
  }

  /** An accepted head ends with the first empty line and fits the limit. */
  lemma AcceptTakesHead(cfg: Config, buffer: bytes)
    requires ParseHead(cfg, buffer).Accept?
    ensures var n := ParseHead(cfg, buffer).n;
            && 4 <= n <= |buffer| && n <= cfg.maxHeaderSize
            && EmptyLineAt(buffer, n - 4)
            && (forall k :: 0 <= k < n - 4 ==> !EmptyLineAt(buffer, k))
  {
    FindEndIsFirst(buffer);
  }

  /** What follows the head played no part in accepting it. */
  lemma AcceptNeedsHeadOnly(cfg: Config, buffer: bytes)
    requires ParseHead(cfg, buffer).Accept?
    ensures ParseHead(cfg, buffer).n <= |buffer|
    ensures ParseHead(cfg, buffer[..ParseHead(cfg, buffer).n]) == ParseHead(cfg, buffer)
  {
    hide ParseText;
    var n := ParseHead(cfg, buffer).n;
    FindEndExact(buffer, n);
    assert buffer[..n][..n - 4] == buffer[..n - 4];
  }

  predicate EmptyLineAt(b: bytes, k: nat) {
    k + 4 <= |b| && b[k..k + 4] == CRLF + CRLF
  }

  lemma {:induction false} FindEndIsFirst(b: bytes)
    requires FindEnd(b).Some?
    ensures var i := FindEnd(b).value;
            && EmptyLineAt(b, i)
            && forall k :: 0 <= k < i ==> !EmptyLineAt(b, k)
  {
    assert b[0..4] == b[..4];
    if b[..4] != CRLF + CRLF {
      FindEndIsFirst(b[1..]);
      forall k | 0 < k <= FindEnd(b).value ensures EmptyLineAt(b, k) <==> EmptyLineAt(b[1..], k - 1) {
        assert b[k..k + 4] == b[1..][k - 1..k + 3];
      }
    }
  }

  lemma {:induction false} FindEndExact(b: bytes, n: nat)
    requires FindEnd(b) == Some(n - 4) && 4 <= n <= |b|
    ensures FindEnd(b[..n]) == Some(n - 4)
  {
    assert b[..n][..4] == b[..4];
    if b[..4] != CRLF + CRLF {
      FindEndExact(b[1..], n - 1);
      assert b[..n][1..] == b[1..][..n - 1];
    }
  }

  // ----- Framing -----------------------------------------------------------------

  /** The values of all fields of one kind, in order. */
  function Values(headers: seq<Field>, kind: Special): seq<bytes> {
    if headers == [] then []
    else
      var front, last := headers[..|headers| - 1], headers[|headers| - 1];
      if SpecialOf(last.0) == kind then Values(front, kind) + [last.1] else Values(front, kind)
  }

  /** All the codings the values of the transfer-encoding fields list. */
  function Codings(values: seq<bytes>): seq<bytes> {
    if values == [] then []
    else Codings(values[..|values| - 1]) + Members(Split(values[|values| - 1], COMMA))
  }

  /** The numbers the values of the content-length fields stand for, if they all do. */
  function Numbers(values: seq<bytes>): Option<seq<nat>> {
    if values == [] then Some([])
    else
      var front, last := Numbers(values[..|values| - 1]), values[|values| - 1];
      if front.Some? && Digits(last) then Some(front.value + [Decimal(last)]) else None
  }

  /** The lengths and codings collected are those of the fields, no more or less. */
  ghost predicate Collected(f: Fields) {
    && Some(f.lengths) == Numbers(Values(f.headers, Length))
    && f.codings == Codings(Values(f.headers, Coding))
  }

  lemma ValuesStep(headers: seq<Field>, field: Field, kind: Special)
    ensures var values := Values(headers, kind);
            Values(headers + [field], kind) == if SpecialOf(field.0) == kind then values + [field.1] else values
  {
    assert (headers + [field])[..|headers|] == headers;
  }

  lemma AddKeepsCollected(f: Fields, field: Field, g: Fields)
    requires Collected(f) && AddField(f, field) == Ok(g)
    ensures Collected(g)
  {
    hide Decimal, Members, Split, Digits;
    ValuesStep(f.headers, field, Length);
    ValuesStep(f.headers, field, Coding);
    var lengths, codings := Values(f.headers, Length), Values(f.headers, Coding);
    assert (lengths + [field.1])[..|lengths|] == lengths;
    assert (codings + [field.1])[..|codings|] == codings;
  }

  lemma ParseFieldsStep(cfg: Config, lines: seq<bytes>, count: nat, f: Fields) returns (g: Fields)
    requires lines != [] && ParseFields(cfg, lines, count, f).Ok? && Collected(f)
    ensures ParseFields(cfg, lines[1..], count + 1, g) == ParseFields(cfg, lines, count, f)
    ensures Collected(g)
  {
    g := AddField(f, ParseField(lines[0]).value).value;
    AddKeepsCollected(f, ParseField(lines[0]).value, g);
  }

  lemma {:induction false} ParseFieldsCollects(cfg: Config, lines: seq<bytes>, count: nat, f: Fields)
    requires Collected(f) && ParseFields(cfg, lines, count, f).Ok?
    ensures Collected(ParseFields(cfg, lines, count, f).value)
    decreases |lines|
  {
    if lines != [] {
      var g := ParseFieldsStep(cfg, lines, count, f);
      ParseFieldsCollects(cfg, lines[1..], count + 1, g);
    }
  }

  lemma {:induction false} ValuesConcat(a: seq<Field>, b: seq<Field>, kind: Special)
    ensures Values(a + b, kind) == Values(a, kind) + Values(b, kind)
  {
    if b == [] {
      assert a + b == a && Values(a, kind) + [] == Values(a, kind);
    } else {
      assert (a + b)[..|a + b| - 1] == a + b[..|b| - 1];
      ValuesConcat(a, b[..|b| - 1], kind);
      ConcatAssoc(Values(a, kind), Values(b[..|b| - 1], kind), [b[|b| - 1].1]);
    }
  }

  lemma ValuesCons(field: Field, headers: seq<Field>, kind: Special)
    ensures var values := Values(headers, kind);
            Values([field] + headers, kind) == if SpecialOf(field.0) == kind then [field.1] + values else values
  {
    ValuesConcat([field], headers, kind);
    ValuesStep([], field, kind);
    assert [] + [field] == [field] && [] + [field.1] == [field.1] && [] + Values(headers, kind) == Values(headers, kind);
  }

  lemma {:induction false} RehostKeepsValues(headers: seq<Field>, authority: bytes, seen: bool, kind: Special)
    requires !kind.Host?
    ensures Values(Rehost(headers, authority, seen), kind) == Values(headers, kind)
  {
    var host := (Text("host"), authority);
    if headers == [] {
      ValuesCons(host, [], kind);
      assert [host] + [] == [host];
    } else {
      var isHost := SpecialOf(headers[0].0).Host?;
      var rest := Rehost(headers[1..], authority, seen || isHost);
      RehostKeepsValues(headers[1..], authority, seen || isHost, kind);
      assert headers == [headers[0]] + headers[1..] && [] + rest == rest;
      ValuesCons(headers[0], headers[1..], kind);
      ValuesCons(headers[0], rest, kind);
      ValuesCons(host, rest, kind);
    }
  }

  /** What an accepted head says about its body can be read one way only: either
      one chunked coding and no length, or lengths that all agree and respect the
      limit, or neither field at all. */
  ghost predicate OneFraming(cfg: Config, head: RequestHead) {
    var lengths := Values(head.headers, Length);
    var codings := Codings(Values(head.headers, Coding));
    && (head.chunked ==> head.http11 && codings == [Text("chunked")] && lengths == [] && head.contentLength.None?)
    && (!head.chunked ==> codings == [] && (head.contentLength.None? <==> lengths == []))
    && (head.contentLength.Some? ==>
          && (cfg.maxRequestSize > 0 ==> head.contentLength.value <= cfg.maxRequestSize)
          && forall i :: 0 <= i < |lengths| ==> Digits(lengths[i]) && Decimal(lengths[i]) == head.contentLength.value)
  }

  lemma {:induction false} AllChunked(tokens: seq<bytes>, token: bytes)
    requires tokens != [] && Occurrences(tokens, token) <= 1
    requires forall i :: 0 <= i < |tokens| ==> tokens[i] == token
    ensures tokens == [token]
  {
    if |tokens| > 1 {
      assert false;
    }
  }

  lemma {:induction false} NumbersAre(values: seq<bytes>)
    requires Numbers(values).Some?
    ensures |Numbers(values).value| == |values|
    ensures forall i :: 0 <= i < |values| ==> Digits(values[i]) && Numbers(values).value[i] == Decimal(values[i])
  {
    if values != [] {
      NumbersAre(values[..|values| - 1]);
    }
  }

  lemma FramingIsOne(cfg: Config, f: Fields, head: RequestHead)
    requires Collected(f) && ResolveFraming(cfg, head.http11, f) == Ok((head.chunked, head.contentLength))
    requires Values(head.headers, Length) == Values(f.headers, Length)
    requires Values(head.headers, Coding) == Values(f.headers, Coding)
    ensures OneFraming(cfg, head)
  {
    NumbersAre(Values(f.headers, Length));
    if head.chunked {
      AllChunked(f.codings, Text("chunked"));
    }
  }

  lemma HostKeepsFraming(cfg: Config, target: bytes, http11: bool, f: Fields)
    requires ResolveHost(cfg, target, http11, f).Ok?
    ensures var headers := ResolveHost(cfg, target, http11, f).value.1;
            Values(headers, Length) == Values(f.headers, Length) && Values(headers, Coding) == Values(f.headers, Coding)
  {
    var (host, headers) := ResolveHost(cfg, target, http11, f).value;
    RehostKeepsValues(f.headers, host, false, Length);
    RehostKeepsValues(f.headers, host, false, Coding);
  }

  lemma LinesCollect(cfg: Config, lines: seq<bytes>)
    requires ParseFields(cfg, lines, 1, NO_FIELDS).Ok?
    ensures Collected(ParseFields(cfg, lines, 1, NO_FIELDS).value)
  {
    ParseFieldsCollects(cfg, lines, 1, NO_FIELDS);
  }

  lemma TextHasOneFraming(cfg: Config, text: bytes)
    requires ParseText(cfg, text).Ok?
    ensures OneFraming(cfg, ParseText(cfg, text).value)
  {
    var head, lines := ParseText(cfg, text).value, Lines(text);
    LinesCollect(cfg, lines[1..]);
    var f := ParseFields(cfg, lines[1..], 1, NO_FIELDS).value;
    HostKeepsFraming(cfg, head.target, head.http11, f);
    FramingIsOne(cfg, f, head);
  }

  lemma AcceptedHeadHasOneFraming(cfg: Config, buffer: bytes)
    requires ParseHead(cfg, buffer).Accept?
    ensures OneFraming(cfg, ParseHead(cfg, buffer).head)
  {
    TextHasOneFraming(cfg, buffer[..FindEnd(buffer).value]);
  }

  // ----- The parser in place ---------------------------------------------------------

  /** Read the head out of the buffer: only an accepted head is taken off it. */
  method TakeHead(cfg: Config, buffer: Buffer) returns (outcome: Outcome)
    modifies buffer
    ensures outcome == ParseHead(cfg, old(buffer.data))
    ensures buffer.data == if outcome.Accept? then old(buffer.data)[outcome.n..] else old(buffer.data)
  {
    var end := FindEnd(buffer.data);
    if end.None? {
      return if |buffer.data| > cfg.maxHeaderSize then Reject(431) else NeedMore;
    }
    if end.value + 4 > cfg.maxHeaderSize {
      return Reject(431);
    }
    var head := ReadText(cfg, buffer.data[..end.value]);
    if head.Err? {
      return Reject(head.error);
    }
    buffer.data := buffer.data[end.value + 4..];
    return Accept(head.value, end.value + 4);
  }

  method ReadText(cfg: Config, text: bytes) returns (r: Result<RequestHead, nat>)
    ensures r == ParseText(cfg, text)
  {
    var lines := Lines(text);
    var start := ParseRequestLine(lines[0]);
    if start.Err? {
      return Err(start.error);
    }
    var (verb, target, http11) := start.value;
    var fields := ReadFields(cfg, lines);
    if fields.Err? {
      return Err(fields.error);
    }
    var f := fields.value;
    var host := ResolveHost(cfg, target, http11, f);
    if host.Err? {
      return Err(host.error);
    }
    var framing := ResolveFraming(cfg, http11, f);
    if framing.Err? {
      return Err(framing.error);
    }
    var keepAlive := http11;
    if Text("close") in f.connection {
      keepAlive := false;
    } else if Text("keep-alive") in f.connection && (http11 || Absolute(target) || |f.hosts| == 1) {
      keepAlive := true;
    }
    return Ok(RequestHead(verb, target, http11, host.value.1, framing.value.1, framing.value.0, keepAlive,
                          f.expectation, host.value.0));
  }

  method ReadFields(cfg: Config, lines: seq<bytes>) returns (r: Result<Fields, nat>)
    requires lines != []
    ensures r == ParseFields(cfg, lines[1..], 1, NO_FIELDS)
  {
    var f := NO_FIELDS;
    for count := 1 to |lines|
      invariant ParseFields(cfg, lines[count..], count, f) == ParseFields(cfg, lines[1..], 1, NO_FIELDS)
    {
      assert lines[count..][1..] == lines[count + 1..];
      var field := ParseField(lines[count]);
      if field.Err? {
        return Err(field.error);
      }
      if count > cfg.maxHeaderCount {
        return Err(431);
      }
      var added := AddField(f, field.value);
      if added.Err? {
        return Err(added.error);
      }
      f := added.value;
    }
    return Ok(f);
  }
}
