/** The response writer of HTTP/1.1: ASGI messages in, framed bytes out. */
module Response {
  import opened Wrappers
  import opened Bytes
  import opened Head
  import Chunked
  import opened ChunkedRoundTrip

  datatype Message =
    | Start(status: nat, headers: seq<Field>, trailers: bool, moreBody: bool)
    | Body(data: bytes, more: bool, aborted: bool)
    | Trailers(fields: seq<Field>, moreTrailers: bool)

  /** The request that is answered, and the content coding: whether the response
      is encoded, and what the encoder emits for the pieces it has been given. */
  datatype Exchange = Exchange(
    verb: bytes,
    http11: bool,
    phrase: nat -> bytes,
    encoding: (nat, seq<Field>) -> Option<bytes>,
    compress: seq<bytes> -> bytes,
    flush: seq<bytes> -> bytes)

  datatype FinalHead = FinalHead(status: nat, headers: seq<Field>)

  /** The writer: what went out (interim heads, the head of the answer, and the
      octets after it), what it knows of the answer, and how things stand.
      `late`, `pieces` and `trailers` record what the octets were made of: the octets
      of interim heads among them, the data, and the trailer fields. */
  datatype Writer = Writer(
    interim: bytes,
    head: Option<FinalHead>,
    octets: bytes,
    bodyBytes: nat,           // what is counted against a declared length
    discard: bool,            // no payload may follow the head
    chunked: bool,
    declared: Option<nat>,
    trailersExpected: bool,
    awaitingTrailers: bool,
    encoded: bool,
    given: seq<bytes>,        // what the encoder has been given
    keepAlive: bool,
    ended: bool,
    aborted: bool,
    late: nat,
    pieces: seq<bytes>,
    trailers: seq<Field>)

  function Begin(keepAlive: bool): Writer {
    Writer([], None, [], 0, false, false, None, false, false, false, [], keepAlive, false, false, 0, [], [])
  }

  // ----- Header hygiene -------------------------------------------------------------

  const FORBIDDEN: set<bytes> :=
    {Text("connection"), Text("keep-alive"), Text("proxy-authenticate"), Text("proxy-authorization"),
     Text("proxy-connection"), Text("te"), Text("transfer-encoding"), Text("upgrade")}

  function Clean(field: Field): (r: Option<Field>)
    ensures r.Some? ==> Token(r.value.0) && LegalValue(r.value.1) && Stripped(r.value.1)
                        && !SpecialOf(Lower(r.value.0)).Coding? && (SpecialOf(Lower(r.value.0)).Length? ==> Digits(r.value.1))
  {
    StripStrips(field.1);
    var name, value := Strip(field.0), Strip(field.1);
    if !Token(name) || Lower(name) in FORBIDDEN then None
    else if SpecialOf(Lower(name)).Length? && !Digits(value) then None
    else if !LegalValue(value) then None
    else Some((name, value))
  }

  /** The fields an application may set, cleaned up; the others are dropped. */
  function Normalise(headers: seq<Field>): (r: seq<Field>)
    ensures forall i :: 0 <= i < |r| ==> Token(r[i].0) && LegalValue(r[i].1) && Stripped(r[i].1)
                                         && !IsKind(r[i], Coding) && (IsKind(r[i], Length) ==> Digits(r[i].1))
  {
    if headers == [] then []
    else
      var first := Clean(headers[0]);
      (if first.Some? then [first.value] else []) + Normalise(headers[1..])
  }

  predicate IsKind(field: Field, kind: Special) {
    SpecialOf(Lower(field.0)) == kind
  }

  function Without(headers: seq<Field>, kind: Special): (r: seq<Field>)
    ensures forall f :: f in r <==> f in headers && !IsKind(f, kind)
  {
    if headers == [] then []
    else (if IsKind(headers[0], kind) then [] else [headers[0]]) + Without(headers[1..], kind)
  }

  function First(headers: seq<Field>, kind: Special): (r: Option<bytes>)
    ensures r.Some? ==> exists f :: f in headers && IsKind(f, kind) && f.1 == r.value
    ensures r.None? ==> forall f :: f in headers ==> !IsKind(f, kind)
  {
    if headers == [] then None
    else if IsKind(headers[0], kind) then Some(headers[0].1)
    else First(headers[1..], kind)
  }

  predicate ResponseHasBody(verb: bytes, status: nat) {
    verb != Text("HEAD") && !(100 <= status < 200) && status != 204 && status != 304
  }

  // ----- What a client makes of it -----------------------------------------------------

  datatype Framing = NoBody | ChunkedCoding | Exactly(n: nat) | UntilClose | Ambiguous

  predicate SameLength(a: bytes, b: bytes) {
    Digits(a) && Digits(b) && Decimal(a) == Decimal(b)
  }

  ghost predicate LengthsAgree(headers: seq<Field>) {
    forall f, g :: f in headers && g in headers && IsKind(f, Length) && IsKind(g, Length) ==> SameLength(f.1, g.1)
  }

  /** How the body is delimited, section 6.3 of RFC 9112: whatever its fields say, an
      answer to HEAD, and one with a status of 1xx, 204 or 304, ends with its head. */
  ghost function FramingOf(verb: bytes, head: FinalHead): Framing {
    if verb == Text("HEAD") || head.status / 100 == 1 || head.status in {204, 304} then NoBody
    else if First(head.headers, Coding).Some? then ChunkedCoding
    else if First(head.headers, Length).None? then UntilClose
    else
      var value := First(head.headers, Length).value;
      if LengthsAgree(head.headers) && Digits(value) then Exactly(Decimal(value)) else Ambiguous
  }

  /** Exactly one complete body, delimited in that way and carrying `content`. */
  ghost predicate WholeBody(framing: Framing, octets: bytes, content: bytes) {
    match framing
    case NoBody => octets == [] && content == []
    case ChunkedCoding => Chunked.WholeChunked(octets) && Chunked.Payload(octets) == content
    case Exactly(n) => |octets| == n && octets == content
    case _ => false
  }

  /** Exactly one complete answer carrying `content`. */
  ghost predicate Complete(verb: bytes, w: Writer, content: bytes) {
    w.head.Some? && WholeBody(FramingOf(verb, w.head.value), w.octets, content)
  }

  // ----- What the application asked for -----------------------------------------------

  /** How the answer is carried: no body, a body as it is, or the chunked coding. */
  datatype Carrier = Bodyless | Verbatim | Coded

  datatype Stage = BeforeStart | InBody | InTrailers

  /** Where a sequence of messages stands: what the start settled (for `trailers`, that
      they were announced), what the encoder has been given, and the stage. */
  datatype Course = Course(carrier: Carrier, encoded: bool, trailers: bool, given: seq<bytes>, stage: Stage)

  const NO_COURSE := Course(Verbatim, false, false, [], BeforeStart)

  function CourseOf(ex: Exchange, m: Message): Course {
    if !m.Start? then NO_COURSE
    else if !ResponseHasBody(ex.verb, m.status) then Course(Bodyless, false, false, [], InBody)
    else
      var headers := Normalise(m.headers);
      var encoded := ex.encoding(m.status, headers).Some?;
      Course(if (encoded || First(headers, Length).None?) && ex.http11 then Coded else Verbatim, encoded, m.trailers, [], InBody)
  }

  /** The course that the start of the answer will set. */
  function CourseFor(plan: Message -> Course, msgs: seq<Message>): (c: Course)
    ensures c.stage.BeforeStart?
  {
    if msgs == [] then NO_COURSE
    else if msgs[0].Start? && msgs[0].status >= 200 then plan(msgs[0]).(stage := BeforeStart)
    else CourseFor(plan, msgs[1..])
  }

  function Given(c: Course, data: bytes): Course {
    if c.encoded && data != [] then c.(given := c.given + [data]) else c
  }

  /** Nothing comes of the data: there is none, or the encoder keeps it. */
  predicate Silent(ex: Exchange, c: Course, data: bytes) {
    data == [] || (c.encoded && ex.compress(c.given + [data]) == [])
  }

  /** Messages in the order that their carrier can bear: no interim answer after the
      start; and with the chunked coding, no trailer section that ends the answer before
      its body has ended, nothing but trailer fields after the end of a body that
      announced them, and fields that fit a decoder. */
  predicate Orderly(ex: Exchange, msgs: seq<Message>, c: Course)
    decreases |msgs|
  {
    msgs == [] ||
    (var rest := msgs[1..];
     match msgs[0]
     case Start(status, _, _, moreBody) =>
       if status < 200 then c.stage.BeforeStart? && Orderly(ex, rest, c)
       else (c.carrier.Bodyless? && !moreBody) || Orderly(ex, rest, c.(stage := InBody))
     case Body(data, more, aborted) =>
       (match c.stage
        case BeforeStart => Orderly(ex, rest, c)
        case InBody =>
          if more then Orderly(ex, rest, Given(c, data))
          else aborted || !c.carrier.Coded? || !c.trailers || Orderly(ex, rest, Given(c, data).(stage := InTrailers))
        case InTrailers => if more then Silent(ex, c, data) && Orderly(ex, rest, Given(c, data)) else aborted)
     case Trailers(fields, more) =>
       (match c.stage
        case InTrailers => Fit(Normalise(fields)) && (more ==> Orderly(ex, rest, c))
        case _ => if more then Orderly(ex, rest, c) else !c.carrier.Coded?))
  }

  /** The whole sequence is in order.  The application can tell before it sends anything,
      except that for an encoded answer it depends on what the encoder keeps to itself. */
  predicate InOrder(ex: Exchange, msgs: seq<Message>) {
    Orderly(ex, msgs, CourseFor(m => CourseOf(ex, m), msgs))
  }

  /** The start of the answer, interim ones left out. */
  function FinalStart(msgs: seq<Message>): (m: Option<Message>)
    ensures m.Some? ==> m.value.Start? && m.value.status >= 200
  {
    if msgs == [] then None
    else if msgs[0].Start? && msgs[0].status >= 200 then Some(msgs[0])
    else FinalStart(msgs[1..])
  }

  /** The lengths that the start gives are the same number, if one of them is to delimit
      the body. */
  ghost predicate OneLength(ex: Exchange, msgs: seq<Message>) {
    var start := FinalStart(msgs);
    start.Some? ==>
      var c := CourseOf(ex, start.value);
      c.carrier.Verbatim? && !c.encoded ==> LengthsAgree(Normalise(start.value.headers))
  }

  predicate Fit(fields: seq<Field>) {
    forall i :: 0 <= i < |fields| ==> |fields[i].1| <= Chunked.MAX_TRAILER_VALUE
  }

  /** The body messages up to the one that ends the answer. */
  function BodyOf(msgs: seq<Message>, started: bool): bytes {
    if msgs == [] then []
    else
      match msgs[0]
      case Start(status, _, _, _) => BodyOf(msgs[1..], started || status >= 200)
      case Body(data, more, _) =>
        if !started then BodyOf(msgs[1..], started)
        else if more then data + BodyOf(msgs[1..], started) else data
      case Trailers(_, more) => if more then BodyOf(msgs[1..], started) else []
  }

  /** What a body message amounts to: its data, or what the encoder makes of it. */
  function Emission(ex: Exchange, c: Course, data: bytes, more: bool): bytes {
    if !c.encoded then data
    else
      (if data == [] then [] else ex.compress(c.given + [data])) + (if more then [] else ex.flush(Given(c, data).given))
  }

  /** What the messages after the start amount to, up to the one that ends the answer. */
  function ContentOf(ex: Exchange, c: Course, msgs: seq<Message>): bytes
    decreases |msgs|
  {
    if msgs == [] then []
    else
      match msgs[0]
      case Start(_, _, _, _) => ContentOf(ex, c, msgs[1..])
      case Body(data, more, _) =>
        if more then Emission(ex, c, data, true) + ContentOf(ex, Given(c, data), msgs[1..]) else Emission(ex, c, data, false)
      case Trailers(_, more) => if more then ContentOf(ex, c, msgs[1..]) else []
  }

  function ContentFor(ex: Exchange, plan: Message -> Course, msgs: seq<Message>): bytes
    decreases |msgs|
  {
    if msgs == [] then []
    else
      match msgs[0]
      case Start(status, _, _, _) =>
        if status >= 200 then ContentOf(ex, plan(msgs[0]), msgs[1..]) else ContentFor(ex, plan, msgs[1..])
      case Body(_, _, _) => ContentFor(ex, plan, msgs[1..])
      case Trailers(_, more) => if more then ContentFor(ex, plan, msgs[1..]) else []
  }

  /** The body that the application means, in the coding that it goes out in. */
  function Content(ex: Exchange, msgs: seq<Message>): bytes {
    ContentFor(ex, m => CourseOf(ex, m), msgs)
  }

  /** An answer starts once. */
  predicate StartsOnce(msgs: seq<Message>, started: bool) {
    msgs != [] ==>
      var s := msgs[0].Start? && msgs[0].status >= 200;
      !(started && s) && StartsOnce(msgs[1..], started || s)
  }

  function TrailerText(fields: seq<Field>): bytes {
    if fields == [] then [] else FieldLine(fields[0]) + CRLF + TrailerText(fields[1..])
  }

  // ----- The writer ----------------------------------------------------------------

  /** The head of an interim answer, section 15.2 of RFC 9110. */
  function InterimText(ex: Exchange, m: Message): bytes
    requires m.Start?
  {
    Text("HTTP/1.1 ") + (Ascii(m.status) + [SPACE] + ex.phrase(m.status) + CRLF + TrailerText(Normalise(m.headers)) + CRLF)
  }

  function WriteInterim(w: Writer, text: bytes): Writer {
    if w.head.None? then w.(interim := w.interim + text)
    else w.(octets := w.octets + text, late := w.late + |text|)
  }

  /** What an answer without a body may still say of one. */
  function BodylessHeaders(verb: bytes, status: nat, headers: seq<Field>): seq<Field> {
    if verb == Text("HEAD") || status == 304 then headers else Without(headers, Length)
  }

  function StartBodyless(w: Writer, m: Message, headers: seq<Field>): Writer
    requires m.Start?
  {
    w.(head := Some(FinalHead(m.status, headers)), discard := true, ended := !m.moreBody)
  }

  function StartChunked(w: Writer, m: Message, headers: seq<Field>, encoded: bool): Writer
    requires m.Start?
  {
    w.(head := Some(FinalHead(m.status, headers + [(Text("transfer-encoding"), Text("chunked"))])),
       chunked := true, encoded := encoded, trailersExpected := m.trailers)
  }

  function StartUntilClose(w: Writer, m: Message, headers: seq<Field>, encoded: bool): Writer
    requires m.Start?
  {
    w.(head := Some(FinalHead(m.status, headers)), keepAlive := false, encoded := encoded, trailersExpected := m.trailers)
  }

  /** No length to keep to: chunked, or until the connection closes. */
  function StartUnsized(ex: Exchange, w: Writer, m: Message, headers: seq<Field>, encoded: bool): Writer
    requires m.Start?
  {
    if ex.http11 then StartChunked(w, m, headers, encoded) else StartUntilClose(w, m, headers, encoded)
  }

  function StartSized(w: Writer, m: Message, headers: seq<Field>, length: nat): Writer
    requires m.Start?
  {
    w.(head := Some(FinalHead(m.status, headers)), declared := Some(length), trailersExpected := m.trailers)
  }

  function StartFinal(ex: Exchange, w: Writer, m: Message): (v: Writer)
    requires m.Start?
    ensures v.head.Some? && v.octets == w.octets
  {
    var headers := Normalise(m.headers);
    var coding, length := ex.encoding(m.status, headers), First(headers, Length);
    if !ResponseHasBody(ex.verb, m.status) then StartBodyless(w, m, BodylessHeaders(ex.verb, m.status, headers))
    else if coding.Some? then
      StartUnsized(ex, w, m, Without(headers, Length) + [(Text("content-encoding"), coding.value)], true)
    else if length.None? then StartUnsized(ex, w, m, headers, w.encoded)
    else StartSized(w, m, headers, Decimal(length.value))
  }

  function OnStart(ex: Exchange, w: Writer, m: Message): Writer
    requires m.Start?
  {
    if m.status < 200 then WriteInterim(w, InterimText(ex, m)) else StartFinal(ex, w, m)
  }

  function WriteData(w: Writer, data: bytes): Writer {
    if data == [] then w
    else w.(octets := w.octets + (if w.chunked then WriteChunk(data) else data), pieces := w.pieces + [data])
  }

  function WriteCounted(w: Writer, data: bytes): Writer {
    WriteData(w, data).(bodyBytes := w.bodyBytes + |data|)
  }

  /** A body message that is not to be encoded, cut at the declared length. */
  function WritePlain(w: Writer, data: bytes): Writer {
    if w.declared.Some? && w.bodyBytes + |data| > w.declared.value then
      var allowed := if w.declared.value > w.bodyBytes then w.declared.value - w.bodyBytes else 0;
      WriteCounted(w, data[..allowed]).(keepAlive := false)
    else WriteCounted(w, data)
  }

  /** Data goes to the encoder, and what comes of it is written. */
  function WriteCoded(ex: Exchange, w: Writer, data: bytes): Writer {
    if data == [] then w
    else WriteCounted(w, ex.compress(w.given + [data])).(given := w.given + [data])
  }

  function WriteEncoded(ex: Exchange, w: Writer, data: bytes, more: bool): Writer {
    var v := WriteCoded(ex, w, data);
    if more then v else WriteData(v, ex.flush(v.given))
  }

  function EndBody(w: Writer): Writer {
    if w.chunked && w.trailersExpected then w.(octets := w.octets + [48] + CRLF, awaitingTrailers := true)
    else w.(octets := w.octets + (if w.chunked then [48] + CRLF + CRLF else []), ended := true)
  }

  function OnBody(ex: Exchange, w: Writer, m: Message): Writer
    requires m.Body?
  {
    if w.head.None? then w
    else if w.discard then w.(ended := !m.more)
    else if !m.more && m.aborted then w.(ended := true, aborted := true)
    else
      var v := if w.encoded then WriteEncoded(ex, w, m.data, m.more) else WritePlain(w, m.data);
      if m.more then v else EndBody(v)
  }

  function OnTrailers(w: Writer, m: Message): Writer
    requires m.Trailers?
  {
    if !w.awaitingTrailers then w.(ended := !m.moreTrailers)
    else
      var fields := Normalise(m.fields);
      w.(octets := w.octets + TrailerText(fields) + (if m.moreTrailers then [] else CRLF),
         trailers := w.trailers + fields, ended := !m.moreTrailers)
  }

  /** What is left to do once the last message has been written. */
  function Conclude(w: Writer): Writer {
    if w.head.None? then
      var body := Text("Internal Server Error");
      w.(head := Some(FinalHead(500, [(Text("content-type"), Text("text/plain; charset=utf-8")),
                                      (Text("content-length"), Text("21"))])),
         octets := body, keepAlive := false)
    else if w.aborted || (w.declared.Some? && w.bodyBytes != w.declared.value) then w.(keepAlive := false)
    else w
  }

  /** One turn of the writer's loop. */
  function Taken(ex: Exchange, w: Writer, m: Message): Writer {
    match m
    case Start(_, _, _, _) => OnStart(ex, w, m)
    case Body(_, _, _) => OnBody(ex, w, m)
    case Trailers(_, _) => OnTrailers(w, m)
  }

  /** Messages are taken until one ends the answer. */
  function Run(ex: Exchange, w: Writer, msgs: seq<Message>): Writer
    decreases |msgs|
  {
    if msgs == [] || w.ended then w else Run(ex, Taken(ex, w, msgs[0]), msgs[1..])
  }

  lemma {:induction false} RunConcat(ex: Exchange, w: Writer, a: seq<Message>, b: seq<Message>)
    ensures Run(ex, w, a + b) == Run(ex, Run(ex, w, a), b)
    decreases |a|
  {
    if a == [] {
      assert a + b == b;
    } else if !w.ended {
      assert (a + b)[0] == a[0] && (a + b)[1..] == a[1..] + b;
      RunConcat(ex, Taken(ex, w, a[0]), a[1..], b);
    }
  }

  lemma RunOne(ex: Exchange, w: Writer, m: Message)
    ensures Run(ex, w, [m]) == if w.ended then w else Taken(ex, w, m)
  {
    assert [m][1..] == [];
    if !w.ended {
      assert Run(ex, w, [m]) == Run(ex, Taken(ex, w, m), []);
    }
  }

  lemma RunFirst(ex: Exchange, w: Writer, m: Message, rest: seq<Message>)
    requires !w.ended
    ensures Run(ex, w, [m] + rest) == Run(ex, Taken(ex, w, m), rest)
  {
    assert ([m] + rest)[1..] == rest;
  }
}
