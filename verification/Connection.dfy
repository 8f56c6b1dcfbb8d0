/** One HTTP/1.1 connection: the reader, the writer and the application take turns
    at every point where a task may be suspended, and bytes arrive in between. */
module Connection {
  import opened Wrappers
  import opened Bytes
  import opened Head
  import Chunked

  type Decoder = Chunked.Decoder
  type Fed = Chunked.Fed

  const INITIAL := Chunked.INITIAL
  const QUEUE_SIZE := 16
  const MAX_DRAIN_BYTES := 65536
  const MAX_REQUESTS := 1000

  ghost predicate Sound(parse: bytes -> Outcome) {
    && (forall b {:trigger parse(b)} :: parse(b).Accept? ==>
          parse(b).n <= |b| && parse(b[..parse(b).n]) == parse(b))
    && (forall a, b {:trigger parse(a + b)} :: !parse(a).NeedMore? ==> parse(a + b) == parse(a))
  }

  function NoHead(b: bytes): Outcome {
    NeedMore
  }

  /** A head parser: all that matters here is that it takes what is there, looks at
      nothing else to accept it, and that more input does not change its mind. */
  type Parser = parse: bytes -> Outcome | Sound(parse) witness NoHead

  /** How a body in the chunked coding is read: the decoder, which bytes take it to
      which state, which are a whole body, and what content they carry. */
  datatype TransferCoding = TransferCoding(
    feed: (Decoder, bytes, nat) -> Fed,
    eats: (bytes, Decoder) -> bool,
    whole: bytes -> bool,
    content: bytes -> bytes)

  /** Feeding a decoder that has eaten `body` eats what is taken off the buffer. */
  ghost predicate EatsOn(c: TransferCoding, body: bytes, d: Decoder, buffer: bytes, max: nat) {
    var f := c.feed(d, buffer, max);
    && |f.rest| <= |buffer|
    && (c.eats(body, d) && !d.done && f.error.None? ==>
          var taken := buffer[..|buffer| - |f.rest|];
          c.eats(body + taken, f.next) && c.content(body + taken) == c.content(body) + Flat(f.chunks))
  }

  /** What the bytes taken off a buffer mean to a decoder, however they are cut. */
  ghost predicate Incremental(c: TransferCoding) {
    && c.eats([], INITIAL) && c.content([]) == []
    && (forall body, d {:trigger c.eats(body, d)} :: c.eats(body, d) && d.done ==> c.whole(body))
    && (forall body, d, buffer, max: nat {:trigger EatsOn(c, body, d, buffer, max)} :: EatsOn(c, body, d, buffer, max))
  }

  type BodyCoding = c: TransferCoding | Incremental(c) witness
    TransferCoding((d, b, max) => Chunked.Fed(d, b, [], Some(400)), (body, d) => body == [] && d == INITIAL,
                   body => body == [], body => [])

  /** The parser and decoder, and the largest body that is accepted (0: any). */
  datatype Limits = Limits(parse: Parser, coding: BodyCoding, maxRequestSize: nat)

  /** The limits of a server that parses heads as `cfg` says and reads the chunked
      transfer coding. */
  function ServerLimits(cfg: Config): Limits {
    ParseHeadIsSound(cfg);
    ChunkedIsIncremental();
    Limits(b => ParseHead(cfg, b), CHUNKED, cfg.maxRequestSize)
  }

  const CHUNKED := TransferCoding(
    (d: Decoder, b: bytes, max: nat) => Chunked.Feed(d, b, max),
    (body: bytes, d: Decoder) => Chunked.Eats(INITIAL, body, d),
    (body: bytes) => Chunked.WholeChunked(body),
    (body: bytes) => Chunked.Payload(body))

  lemma ChunkedEatsOn(body: bytes, d: Decoder, buffer: bytes, max: nat)
    ensures EatsOn(CHUNKED, body, d, buffer, max)
  {
    var f := Chunked.Feed(d, buffer, max);
    assert CHUNKED.feed(d, buffer, max) == f;
    if CHUNKED.eats(body, d) && !d.done && f.error.None? {
      Chunked.FeedEats(body, d, buffer, max);
      var eaten := body + buffer[..|buffer| - |f.rest|];
      assert CHUNKED.eats(eaten, f.next) && CHUNKED.content(eaten) == Chunked.Payload(eaten);
      assert CHUNKED.content(body) == Chunked.Payload(body);
    }
  }

  lemma ChunkedIsIncremental()
    ensures Incremental(CHUNKED)
  {
    forall body, d, buffer, max: nat
      ensures EatsOn(CHUNKED, body, d, buffer, max)
    {
      ChunkedEatsOn(body, d, buffer, max);
    }
    assert Chunked.Feed(INITIAL, [], 0) == Chunked.Fed(INITIAL, [], [], None);
  }

  lemma ParseHeadIsSound(cfg: Config)
    ensures Sound(b => ParseHead(cfg, b))
  {
    forall b | ParseHead(cfg, b).Accept?
      ensures ParseHead(cfg, b[..ParseHead(cfg, b).n]) == ParseHead(cfg, b)
    {
      AcceptNeedsHeadOnly(cfg, b);
    }
    forall a, b | !ParseHead(cfg, a).NeedMore?
      ensures ParseHead(cfg, a + b) == ParseHead(cfg, a)
    {
      OutcomeStays(cfg, a, b);
    }
  }

  /** The request in flight: what the head said, whether the connection may be used
      again, the queue of body messages and what has been put into it. */
  datatype Request = Request(
    head: RequestHead,
    headSize: nat,
    keepAlive: bool,
    finished: bool,   // the application is no longer reading
    complete: bool,   // the writer is done
    queued: nat,
    fed: bytes,       // the body put into the queue so far
    ended: bool)      // and whether its end was

  datatype Phase = Idle | Body | ChunkedBody | Waiting

  /** Where the reader is: at the top of its loop, waiting for room to hand over
      chunks or the end of the body, waiting for the response, or refusing. */
  datatype Reader = Top | Emitting(chunks: seq<bytes>) | Finishing | Awaiting | Halted

  /** The handler; `input`, `past` and `current` record the bytes that arrived, the
      messages taken off the buffer, and what was taken for the one in flight. */
  datatype Conn = Conn(
    buffer: bytes,
    phase: Phase,
    remaining: nat,
    decoder: Option<Decoder>,
    bodyBytes: nat,
    request: Option<Request>,
    reader: Reader,
    served: nat,
    closed: bool,
    input: bytes,
    past: seq<bytes>,
    current: bytes)

  const START := Conn([], Idle, 0, None, 0, None, Top, 0, false, [], [], [])

  datatype Event =
    | Arrive(data: bytes)
    | Read(accept: bool)     // the reader runs on; `accept`: the request is dispatched
    | Receive                // the application takes a message off the queue
    | Respond(keep: bool)    // the writer ends the response
    | Spoil                  // somebody decides the connection is not to be reused
    | Close

  function TakeOff(c: Conn, n: nat): Conn
    requires n <= |c.buffer|
  {
    c.(buffer := c.buffer[n..], current := c.current + c.buffer[..n])
  }

  datatype Offered = Accepted(r: Request) | QueueFull | Gone

  /** Put a body message, or the one that ends the body, into the queue. */
  function Offer(r: Request, data: bytes, last: bool): Offered {
    if r.finished then Gone
    else if r.queued >= QUEUE_SIZE then QueueFull
    else Accepted(r.(queued := r.queued + 1, fed := r.fed + data, ended := last))
  }

  // ----- The reader ----------------------------------------------------------------

  function StartRequest(l: Limits, c: Conn, accept: bool): Conn {
    if c.buffer == [] then c
    else
      match l.parse(c.buffer)
      case NeedMore => c
      case Reject(_) => c.(reader := Halted)
      case Accept(head, n) =>
        var d := TakeOff(c, n);
        var r := Request(head, n, head.keepAlive, false, false, 0, [], false);
        if !accept then d.(reader := Halted)
        else if head.chunked then
          d.(request := Some(r), bodyBytes := 0, phase := ChunkedBody, decoder := Some(INITIAL))
        else if head.contentLength.Some? && head.contentLength.value > 0 then
          d.(request := Some(r), bodyBytes := 0, phase := Body, remaining := head.contentLength.value)
        else
          d.(request := Some(r.(queued := 1, ended := true)), bodyBytes := 0, phase := Waiting)
  }

  function Fail(c: Conn, r: Request): Conn {
    c.(request := Some(r.(keepAlive := false, finished := true)), reader := Halted)
  }

  /** Take body bytes off the buffer while there are any to take. */
  function BodyLoop(l: Limits, c: Conn, r: Request): Conn
    decreases |c.buffer|, 0
  {
    var take := if |c.buffer| < c.remaining then |c.buffer| else c.remaining;
    if take > 0 then
      var d := TakeOff(c, take).(remaining := c.remaining - take);
      Emit(l, d, r, [c.buffer[..take]], false)
    else if c.remaining == 0 then Finish(c, r)
    else c.(request := Some(r), reader := Top)
  }

  /** Hand over decoded chunks; the first has been `counted` if this is a retry. */
  function Emit(l: Limits, c: Conn, r: Request, chunks: seq<bytes>, counted: bool): Conn
    decreases |c.buffer|, 1 + |chunks|
  {
    if chunks == [] then
      if c.phase.Body? then BodyLoop(l, c, r)
      else if c.decoder.Some? && c.decoder.value.done then Finish(c, r)
      else c.(request := Some(r), reader := Top)
    else
      var d := if counted then c else c.(bodyBytes := c.bodyBytes + |chunks[0]|);
      if l.maxRequestSize > 0 && d.bodyBytes > l.maxRequestSize then Fail(d, r)
      else
        match Offer(r, chunks[0], false)
        case Accepted(q) => Emit(l, d, q, chunks[1..], false)
        case QueueFull => d.(request := Some(r), reader := Emitting(chunks))
        case Gone => Abandon(l, d, r)
  }

  function Finish(c: Conn, r: Request): Conn {
    match Offer(r, [], true)
    case Accepted(q) => c.(request := Some(q), phase := Waiting, reader := Top)
    case QueueFull => c.(request := Some(r), reader := Finishing)
    case Gone => c.(request := Some(r), phase := Waiting, reader := Top)
  }

  function ReadChunked(l: Limits, c: Conn, r: Request, d: Decoder): Conn {
    if c.buffer == [] && !d.done then c
    else
      assert EatsOn(l.coding, [], d, c.buffer, l.maxRequestSize);
      var f := l.coding.feed(d, c.buffer, l.maxRequestSize);
      var e := TakeOff(c, |c.buffer| - |f.rest|).(decoder := Some(f.next));
      if f.error.Some? then Fail(e, r) else Emit(l, e, r, f.chunks, false)
  }

  /** Discard the rest of a chunked body, as far as it is buffered. */
  function DrainChunked(l: Limits, c: Conn, d: Decoder, budget: nat): (r: (bool, Conn))
    decreases |c.buffer|
  {
    if d.done then (true, c)
    else if c.buffer == [] then (false, c)
    else
      assert EatsOn(l.coding, [], d, c.buffer, 0);
      var f := l.coding.feed(d, c.buffer, 0);
      var n := |c.buffer| - |f.rest|;
      var e := TakeOff(c, n).(decoder := Some(f.next));
      if f.error.Some? || n == 0 || n > budget then (false, e)
      else DrainChunked(l, e, f.next, budget - n)
  }

  /** Discard the rest of the body; whether that completes the message. */
  function TryDrain(l: Limits, c: Conn): (bool, Conn) {
    if c.phase.ChunkedBody? then
      if c.decoder.None? then (false, c) else DrainChunked(l, c, c.decoder.value, MAX_DRAIN_BYTES)
    else if c.remaining == 0 then (true, c)
    else if c.remaining > MAX_DRAIN_BYTES || c.remaining > |c.buffer| then (false, c)
    else (true, TakeOff(c, c.remaining).(remaining := 0))
  }

  function Abandon(l: Limits, c: Conn, r: Request): Conn {
    var (whole, d) := TryDrain(l, c);
    d.(request := Some(if whole then r else r.(keepAlive := false)), phase := Waiting, reader := Top)
  }

  /** The response is out: go back to idle for the next request, or close. */
  function EndRequest(c: Conn, r: Request): Conn {
    var d := c.(decoder := None, remaining := 0, request := None, served := c.served + 1);
    if !r.keepAlive || d.served >= MAX_REQUESTS then d.(closed := true)
    else d.(phase := Idle, reader := Top, past := c.past + [c.current], current := [])
  }

  function RunReader(l: Limits, c: Conn, accept: bool): Conn {
    match c.request
    case None => if c.reader.Top? && c.phase.Idle? then StartRequest(l, c, accept) else c
    case Some(r) =>
      match c.reader
      case Top =>
        (match c.phase
         case Idle => c
         case Body => if c.buffer == [] then c else BodyLoop(l, c, r)
         case ChunkedBody => if c.decoder.None? then c else ReadChunked(l, c, r, c.decoder.value)
         case Waiting => if r.complete then EndRequest(c, r) else c.(reader := Awaiting))
      case Emitting(chunks) => Emit(l, c, r, chunks, true)
      case Finishing => Finish(c, r)
      case Awaiting => if r.complete then EndRequest(c, r) else c
      case Halted => c
  }

  // ----- The writer ----------------------------------------------------------------

  /** The writer has sent the response: the application reads no further, and the
      rest of the body is discarded if it is at hand. */
  function EndResponse(l: Limits, c: Conn, r: Request, keep: bool): Conn {
    var q := r.(keepAlive := r.keepAlive && keep, finished := true, complete := true,
                queued := if !r.finished && r.queued < QUEUE_SIZE then r.queued + 1 else r.queued);
    if c.phase.Body? || c.phase.ChunkedBody? then
      var (whole, d) := TryDrain(l, c);
      if whole then d.(request := Some(q), remaining := 0, decoder := None, phase := Waiting)
      else d.(request := Some(q.(keepAlive := false)), phase := Waiting)
    else c.(request := Some(q))
  }

  function Next(l: Limits, c: Conn, e: Event): Conn {
    if c.closed then c
    else
      match e
      case Arrive(data) => c.(buffer := c.buffer + data, input := c.input + data)
      case Read(accept) => RunReader(l, c, accept)
      case Receive =>
        if c.request.Some? && c.request.value.queued > 0
        then c.(request := Some(c.request.value.(queued := c.request.value.queued - 1))) else c
      case Respond(keep) =>
        if c.request.Some? && !c.request.value.complete then EndResponse(l, c, c.request.value, keep) else c
      case Spoil =>
        if c.request.Some? then c.(request := Some(c.request.value.(keepAlive := false))) else c
      case Close => c.(closed := true)
  }

  function Exec(l: Limits, events: seq<Event>): Conn {
    if events == [] then START
    else Next(l, Exec(l, events[..|events| - 1]), events[|events| - 1])
  }
}
