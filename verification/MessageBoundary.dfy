/** The next request starts exactly where the last message ended. */
module MessageBoundary {
  import opened Wrappers
  import opened Bytes
  import opened Head
  import opened Connection
  import Chunked

  /** A complete body under the framing that its head declares. */
  ghost predicate WholeBody(l: Limits, head: RequestHead, body: bytes) {
    if head.chunked then l.coding.whole(body)
    else |body| == if head.contentLength.Some? then head.contentLength.value else 0
  }

  /** The content that the bytes of a body carry. */
  function Content(l: Limits, head: RequestHead, body: bytes): bytes {
    if head.chunked then l.coding.content(body) else body
  }

  /** A complete message: a head that is accepted, and the whole of its body. */
  ghost predicate WholeMessage(l: Limits, m: bytes) {
    var outcome := l.parse(m);
    outcome.Accept? && WholeBody(l, outcome.head, m[outcome.n..])
  }

  // ----- The invariant -----------------------------------------------------------

  ghost predicate Accounted(l: Limits, c: Conn) {
    && c.input == Flat(c.past) + c.current + c.buffer
    && (forall i :: 0 <= i < |c.past| ==> WholeMessage(l, c.past[i]))
    && (!c.closed ==> |c.past| == c.served)
  }

  /** What was taken for the request in flight is its head, and then body bytes. */
  ghost predicate HeadTaken(l: Limits, c: Conn, r: Request) {
    r.headSize <= |c.current| && l.parse(c.current) == Accept(r.head, r.headSize)
  }

  function BodyTaken(c: Conn, r: Request): bytes
    requires r.headSize <= |c.current|
  {
    c.current[r.headSize..]
  }

  /** Where the handler believes to be in the body is where it is. */
  ghost predicate Tracked(l: Limits, c: Conn, r: Request)
    requires r.headSize <= |c.current|
  {
    var body := BodyTaken(c, r);
    match c.phase
    case Idle => false
    case Body =>
      && !r.head.chunked && r.head.contentLength.Some? && !r.finished && !r.ended
      && |body| + c.remaining == r.head.contentLength.value
    case ChunkedBody =>
      && r.head.chunked && c.decoder.Some? && !r.finished && !r.ended && c.remaining == 0
      && l.coding.eats(body, c.decoder.value)
    case Waiting =>
      && (r.keepAlive ==> WholeBody(l, r.head, body) && c.remaining == 0)
      && (r.head.chunked ==> c.remaining == 0)
      && (!r.finished ==> r.ended)
  }

  /** The application is given the content of the body, in order, and its end only
      after all of it; `pending` has been taken but not been handed over. */
  ghost predicate Delivered(l: Limits, c: Conn, r: Request, pending: bytes)
    requires r.headSize <= |c.current|
  {
    var content := Content(l, r.head, BodyTaken(c, r));
    && (!r.finished ==> r.fed + pending == content)
    && (r.keepAlive ==> r.fed <= content)
    && (r.ended ==> r.fed == content && WholeBody(l, r.head, BodyTaken(c, r)))
  }

  ghost predicate ReaderOk(l: Limits, c: Conn, r: Request)
    requires r.headSize <= |c.current|
  {
    && (r.complete ==> r.finished)
    && match c.reader
       case Top => Delivered(l, c, r, []) && (c.phase.ChunkedBody? && c.decoder.Some? ==> !c.decoder.value.done)
       case Emitting(chunks) => chunks != [] && !r.ended && Delivered(l, c, r, Flat(chunks))
       case Finishing => !r.ended && Delivered(l, c, r, []) && (!r.finished ==> WholeBody(l, r.head, BodyTaken(c, r)))
       case Awaiting => Delivered(l, c, r, []) && c.phase.Waiting?
       case Halted => true
  }

  ghost predicate Inv(l: Limits, c: Conn) {
    && Accounted(l, c)
    && (!c.closed && !c.reader.Halted? ==>
          match c.request
          case None => c.phase.Idle? && c.reader.Top? && c.current == [] && c.remaining == 0
          case Some(r) => HeadTaken(l, c, r) && Tracked(l, c, r) && ReaderOk(l, c, r))
  }

  /** The states that satisfy the invariant. */
  ghost function Good(l: Limits): iset<Conn> {
    iset c: Conn | Inv(l, c)
  }

  // ----- Taking bytes off the buffer --------------------------------------------------

  lemma TakeOffAccounts(l: Limits, c: Conn, n: nat)
    requires Accounted(l, c) && n <= |c.buffer|
    ensures Accounted(l, TakeOff(c, n))
  {
    var d := TakeOff(c, n);
    assert c.buffer == c.buffer[..n] + d.buffer;
    ConcatAssoc(c.current, c.buffer[..n], d.buffer);
    ConcatAssoc(Flat(c.past), c.current, c.buffer);
    ConcatAssoc(Flat(c.past), d.current, d.buffer);
  }

  lemma TakeOffKeepsHead(l: Limits, c: Conn, r: Request, n: nat)
    requires HeadTaken(l, c, r) && n <= |c.buffer|
    ensures HeadTaken(l, TakeOff(c, n), r)
    ensures BodyTaken(TakeOff(c, n), r) == BodyTaken(c, r) + c.buffer[..n]
  {
    assert l.parse(c.current + c.buffer[..n]) == l.parse(c.current);
  }

  /** Feeding the buffer to the decoder, and what it does to the books. */
  lemma FeedTracks(l: Limits, c: Conn, r: Request, max: nat)
    requires HeadTaken(l, c, r) && r.head.chunked && c.decoder.Some? && !c.decoder.value.done
    requires l.coding.eats(BodyTaken(c, r), c.decoder.value)
    requires l.coding.feed(c.decoder.value, c.buffer, max).error.None?
    ensures var f := l.coding.feed(c.decoder.value, c.buffer, max);
            |f.rest| <= |c.buffer| &&
            var d := TakeOff(c, |c.buffer| - |f.rest|);
            && HeadTaken(l, d, r)
            && l.coding.eats(BodyTaken(d, r), f.next)
            && Content(l, r.head, BodyTaken(d, r)) == Content(l, r.head, BodyTaken(c, r)) + Flat(f.chunks)
  {
    assert EatsOn(l.coding, BodyTaken(c, r), c.decoder.value, c.buffer, max);
    var f := l.coding.feed(c.decoder.value, c.buffer, max);
    TakeOffKeepsHead(l, c, r, |c.buffer| - |f.rest|);
  }

  // ----- Draining ---------------------------------------------------------------------

  /** A drain takes body bytes only, and says rightly that the message is complete. */
  ghost predicate Drained(l: Limits, c: Conn, r: Request, whole: bool, d: Conn) {
    && d == c.(buffer := d.buffer, current := d.current, decoder := d.decoder, remaining := d.remaining)
    && Accounted(l, d) && HeadTaken(l, d, r)
    && (whole ==> WholeBody(l, r.head, BodyTaken(d, r)) && d.remaining == 0
                  && HeadTaken(l, c, r) && Content(l, r.head, BodyTaken(c, r)) <= Content(l, r.head, BodyTaken(d, r)))
    && (r.head.chunked ==> d.remaining == 0)
  }

  /** One feed of the drain. */
  lemma DrainStep(l: Limits, c: Conn, r: Request) returns (next: Conn)
    requires DrainReady(l, c, r) && !c.decoder.value.done
    ensures var f := l.coding.feed(c.decoder.value, c.buffer, 0);
            && |f.rest| <= |c.buffer|
            && next == TakeOff(c, |c.buffer| - |f.rest|).(decoder := Some(f.next))
            && Drained(l, c, r, false, next)
            && (f.error.None? ==> DrainReady(l, next, r) && Content(l, r.head, BodyTaken(c, r)) <= Content(l, r.head, BodyTaken(next, r)))
  {
    assert EatsOn(l.coding, [], c.decoder.value, c.buffer, 0);
    hide WholeMessage, WholeBody, Content, EatsOn, Incremental;
    var f := l.coding.feed(c.decoder.value, c.buffer, 0);
    var n := |c.buffer| - |f.rest|;
    next := TakeOff(c, n).(decoder := Some(f.next));
    TakeOffAccounts(l, c, n);
    TakeOffKeepsHead(l, c, r, n);
    NewDecoder(l, TakeOff(c, n), r, f.next);
    assert Drained(l, c, r, false, next);
    if f.error.None? {
      FeedTracks(l, c, r, 0);
      assert BodyTaken(next, r) == BodyTaken(TakeOff(c, n), r);
      PrefixOf(Content(l, r.head, BodyTaken(c, r)), Flat(f.chunks));
    }
  }

  lemma PrefixOf(a: bytes, b: bytes)
    ensures a <= a + b
  {
  }

  ghost predicate DrainReady(l: Limits, c: Conn, r: Request) {
    && Accounted(l, c) && HeadTaken(l, c, r) && r.head.chunked && c.decoder.Some? && c.remaining == 0
    && l.coding.eats(BodyTaken(c, r), c.decoder.value)
  }

  lemma DrainedThrough(l: Limits, c: Conn, next: Conn, r: Request, whole: bool, d: Conn)
    requires Drained(l, c, r, false, next) && HeadTaken(l, c, r) && next.remaining == c.remaining
    requires Content(l, r.head, BodyTaken(c, r)) <= Content(l, r.head, BodyTaken(next, r))
    requires Drained(l, next, r, whole, d)
    ensures Drained(l, c, r, whole, d)
  {
  }

  /** One turn of the drain: where it leads, and whether it goes on from there. */
  lemma DrainUnfolds(l: Limits, c: Conn, d: Decoder, budget: nat) returns (n: nat, e: Conn, more: bool)
    requires !d.done && c.buffer != []
    ensures n == |c.buffer| - |l.coding.feed(d, c.buffer, 0).rest|
    ensures e == TakeOff(c, n).(decoder := Some(l.coding.feed(d, c.buffer, 0).next))
    ensures more <==> 0 < n <= budget && l.coding.feed(d, c.buffer, 0).error.None?
    ensures DrainChunked(l, c, d, budget)
            == if more then DrainChunked(l, e, l.coding.feed(d, c.buffer, 0).next, budget - n) else (false, e)
  {
    assert EatsOn(l.coding, [], d, c.buffer, 0);
    var f := l.coding.feed(d, c.buffer, 0);
    n := |c.buffer| - |f.rest|;
    e, more := TakeOff(c, n).(decoder := Some(f.next)), f.error.None? && 0 < n <= budget;
  }

  lemma DrainStops(l: Limits, c: Conn, r: Request, budget: nat)
    requires DrainReady(l, c, r) && (c.decoder.value.done || c.buffer == [])
    ensures DrainChunked(l, c, c.decoder.value, budget) == (c.decoder.value.done, c)
    ensures Drained(l, c, r, c.decoder.value.done, c)
  {
  }

  lemma {:induction false} DrainChunkedDrains(l: Limits, c: Conn, r: Request, budget: nat)
    returns (whole: bool, d: Conn)
    requires DrainReady(l, c, r)
    ensures (whole, d) == DrainChunked(l, c, c.decoder.value, budget) && Drained(l, c, r, whole, d)
    decreases |c.buffer|
  {
    hide Accounted, Content, EatsOn, Incremental, Drained, DrainChunked, HeadTaken;
    whole, d := c.decoder.value.done, c;
    if whole || c.buffer == [] {
      DrainStops(l, c, r, budget);
    } else {
      var n, next, more := DrainUnfolds(l, c, c.decoder.value, budget);
      var step := DrainStep(l, c, r);
      assert next == step;
      d := next;
      if more {
        whole, d := DrainChunkedDrains(l, next, r, budget - n);
        DrainedThrough(l, c, next, r, whole, d);
      }
    }
  }

  lemma {:induction false} DrainChunkedAccounts(l: Limits, c: Conn, d: Decoder, budget: nat) returns (e: Conn)
    requires Accounted(l, c)
    ensures e == DrainChunked(l, c, d, budget).1 && Accounted(l, e) && e.reader == c.reader
    decreases |c.buffer|
  {
    e := c;
    if !d.done && c.buffer != [] {
      var n, next, more := DrainUnfolds(l, c, d, budget);
      TakeOffAccounts(l, c, n);
      e := next;
      if more {
        e := DrainChunkedAccounts(l, next, l.coding.feed(d, c.buffer, 0).next, budget - n);
      }
    }
  }

  /** Even while the reader is refusing the request, every byte is accounted for. */
  lemma TryDrainAccounts(l: Limits, c: Conn)
    requires Accounted(l, c)
    ensures Accounted(l, TryDrain(l, c).1) && TryDrain(l, c).1.reader == c.reader
  {
    if c.phase.ChunkedBody? && c.decoder.Some? {
      var _ := DrainChunkedAccounts(l, c, c.decoder.value, MAX_DRAIN_BYTES);
    } else if !c.phase.ChunkedBody? && 0 < c.remaining <= |c.buffer| {
      TakeOffAccounts(l, c, c.remaining);
    }
  }

  lemma TryDrainDrains(l: Limits, c: Conn, r: Request)
    requires Accounted(l, c) && HeadTaken(l, c, r) && Tracked(l, c, r)
    requires c.phase.Waiting? ==> r.finished && (r.keepAlive || !r.head.chunked || c.remaining == 0)
    ensures var (whole, d) := TryDrain(l, c);
            && Drained(l, c, r, whole && (c.phase.Waiting? ==> r.keepAlive), d)
            && (whole ==> d.remaining == 0)
  {
    if c.phase.ChunkedBody? {
      var _, _ := DrainChunkedDrains(l, c, r, MAX_DRAIN_BYTES);
    } else if 0 < c.remaining <= |c.buffer| {
      TakeOffAccounts(l, c, c.remaining);
      TakeOffKeepsHead(l, c, r, c.remaining);
    }
  }

  // ----- The reader -----------------------------------------------------------------

  lemma AbandonKeepsInv(l: Limits, c: Conn, r: Request, pending: bytes)
    requires Accounted(l, c) && HeadTaken(l, c, r) && Tracked(l, c, r)
    requires r.finished && !r.ended && Delivered(l, c, r, pending)
    ensures Abandon(l, c, r) in Good(l)
  {
    TryDrainDrains(l, c, r);
  }

  /** The state in which chunks, none of them handed over yet, are given to `Emit`. */
  ghost predicate EmitReady(l: Limits, c: Conn, r: Request, chunks: seq<bytes>) {
    && Accounted(l, c) && HeadTaken(l, c, r) && Tracked(l, c, r)
    && !r.ended && (r.complete ==> r.finished) && Delivered(l, c, r, Flat(chunks))
    && (c.phase.ChunkedBody? || c.phase.Body? || chunks != [])
  }

  lemma FinishKeepsInv(l: Limits, c: Conn, r: Request)
    requires Accounted(l, c) && HeadTaken(l, c, r) && Tracked(l, c, r)
    requires !r.ended && (r.complete ==> r.finished) && Delivered(l, c, r, [])
    requires !r.finished ==> WholeBody(l, r.head, BodyTaken(c, r)) && c.remaining == 0
    ensures Finish(c, r) in Good(l)
  {
    assert r.fed + [] == r.fed;
    match Offer(r, [], true) {
      case Accepted(q) =>
        assert Tracked(l, c.(phase := Waiting), q) && Delivered(l, c.(phase := Waiting), q, []);
      case QueueFull =>
      case Gone =>
        assert Tracked(l, c.(phase := Waiting), r);
    }
  }

  lemma TakeBodyReady(l: Limits, c: Conn, r: Request, take: nat)
    requires EmitReady(l, c, r, []) && c.phase.Body? && 0 < take <= |c.buffer| && take <= c.remaining
    ensures EmitReady(l, TakeOff(c, take).(remaining := c.remaining - take), r, [c.buffer[..take]])
  {
    TakeOffAccounts(l, c, take);
    TakeOffKeepsHead(l, c, r, take);
    FlatOne(c.buffer[..take]);
    assert r.fed + [] == r.fed;
  }

  lemma CountReady(l: Limits, c: Conn, r: Request, chunks: seq<bytes>, bodyBytes: nat)
    requires EmitReady(l, c, r, chunks)
    ensures EmitReady(l, c.(bodyBytes := bodyBytes), r, chunks)
  {
  }

  lemma OfferReady(l: Limits, c: Conn, r: Request, chunks: seq<bytes>)
    requires EmitReady(l, c, r, chunks) && chunks != [] && Offer(r, chunks[0], false).Accepted?
    ensures EmitReady(l, c, Offer(r, chunks[0], false).r, chunks[1..])
  {
    ConcatAssoc(r.fed, chunks[0], Flat(chunks[1..]));
  }

  lemma {:induction false} BodyLoopKeepsInv(l: Limits, c: Conn, r: Request) returns (d: Conn)
    requires EmitReady(l, c, r, []) && c.phase.Body?
    ensures d == BodyLoop(l, c, r) && d in Good(l)
    decreases |c.buffer|, 0, 0
  {
    var take := if |c.buffer| < c.remaining then |c.buffer| else c.remaining;
    if take > 0 {
      TakeBodyReady(l, c, r, take);
      d := EmitKeepsInv(l, TakeOff(c, take).(remaining := c.remaining - take), r, [c.buffer[..take]], false);
    } else if c.remaining == 0 {
      FinishKeepsInv(l, c, r);
      d := Finish(c, r);
    } else {
      d := StopKeepsInv(l, c, r, []);
    }
  }

  /** The reader stops with chunks in hand, or none. */
  lemma StopKeepsInv(l: Limits, c: Conn, r: Request, chunks: seq<bytes>) returns (d: Conn)
    requires EmitReady(l, c, r, chunks)
    requires chunks == [] && c.phase.ChunkedBody? ==> !c.decoder.value.done
    ensures d == c.(request := Some(r), reader := if chunks == [] then Top else Emitting(chunks)) && d in Good(l)
  {
    d := c.(request := Some(r), reader := if chunks == [] then Top else Emitting(chunks));
  }

  /** The first chunk is counted once, when it is first looked at. */
  lemma EmitCounts(l: Limits, c: Conn, r: Request, chunks: seq<bytes>, counted: bool)
    ensures Emit(l, c, r, chunks, counted)
            == Emit(l, if chunks == [] || counted then c else c.(bodyBytes := c.bodyBytes + |chunks[0]|), r, chunks, true)
  {
    if chunks == [] {
    } else if counted {
    } else {
    }
  }

  lemma EmitGoesOn(l: Limits, c: Conn, r: Request, chunks: seq<bytes>)
    requires chunks != [] && !(l.maxRequestSize > 0 && c.bodyBytes > l.maxRequestSize) && Offer(r, chunks[0], false).Accepted?
    ensures Emit(l, c, r, chunks, true) == Emit(l, c, Offer(r, chunks[0], false).r, chunks[1..], false)
  {
  }

  lemma FailKeepsInv(l: Limits, c: Conn, r: Request)
    requires Accounted(l, c)
    ensures Fail(c, r) in Good(l)
  {
  }

  /** Chunks that cannot all be handed over: too many bytes, no room or no reader. */
  lemma EmitStops(l: Limits, c: Conn, r: Request, chunks: seq<bytes>) returns (d: Conn)
    requires EmitReady(l, c, r, chunks) && chunks != []
    requires (l.maxRequestSize > 0 && c.bodyBytes > l.maxRequestSize) || !Offer(r, chunks[0], false).Accepted?
    ensures d == Emit(l, c, r, chunks, true) && d in Good(l)
  {
    if l.maxRequestSize > 0 && c.bodyBytes > l.maxRequestSize {
      FailKeepsInv(l, c, r);
      d := Fail(c, r);
    } else if r.finished {
      AbandonKeepsInv(l, c, r, Flat(chunks));
      d := Abandon(l, c, r);
    } else {
      d := StopKeepsInv(l, c, r, chunks);
    }
  }

  lemma {:induction false} NothingToEmitKeepsInv(l: Limits, c: Conn, r: Request) returns (d: Conn)
    requires EmitReady(l, c, r, [])
    ensures d == Emit(l, c, r, [], true) && d in Good(l)
    decreases |c.buffer|, 1, 0
  {
    if c.phase.Body? {
      d := BodyLoopKeepsInv(l, c, r);
    } else if c.decoder.value.done {
      FinishKeepsInv(l, c, r);
      d := Finish(c, r);
    } else {
      d := StopKeepsInv(l, c, r, []);
    }
  }

  lemma {:induction false} EmitKeepsInv(l: Limits, c: Conn, r: Request, chunks: seq<bytes>, counted: bool)
    returns (d: Conn)
    requires EmitReady(l, c, r, chunks)
    ensures d == Emit(l, c, r, chunks, counted) && d in Good(l)
    decreases |c.buffer|, 1, 1 + |chunks|
  {
    EmitCounts(l, c, r, chunks, counted);
    if chunks == [] {
      d := NothingToEmitKeepsInv(l, c, r);
    } else {
      var e := if counted then c else c.(bodyBytes := c.bodyBytes + |chunks[0]|);
      CountReady(l, c, r, chunks, c.bodyBytes + |chunks[0]|);
      if (l.maxRequestSize > 0 && e.bodyBytes > l.maxRequestSize) || !Offer(r, chunks[0], false).Accepted? {
        d := EmitStops(l, e, r, chunks);
      } else {
        OfferReady(l, e, r, chunks);
        EmitGoesOn(l, e, r, chunks);
        d := EmitKeepsInv(l, e, Offer(r, chunks[0], false).r, chunks[1..], false);
      }
    }
  }

  /** A reader at the top of a chunked body. */
  ghost predicate InChunks(l: Limits, c: Conn, r: Request) {
    Inv(l, c) && !c.closed && c.request == Some(r) && c.reader.Top? && c.phase.ChunkedBody? && c.decoder.Some?
  }

  /** What the invariant says of such a reader. */
  lemma InChunksKnows(l: Limits, c: Conn, r: Request)
    requires InChunks(l, c, r)
    ensures Accounted(l, c) && HeadTaken(l, c, r) && r.head.chunked && !c.decoder.value.done
    ensures !r.finished && !r.ended && !r.complete && c.remaining == 0
    ensures l.coding.eats(BodyTaken(c, r), c.decoder.value)
    ensures Content(l, r.head, BodyTaken(c, r)) == r.fed
  {
    hide WholeMessage, WholeBody, Content, Accounted, HeadTaken;
    assert r.fed + [] == r.fed;
  }

  lemma NewDecoder(l: Limits, c: Conn, r: Request, d: Decoder)
    requires Accounted(l, c) && HeadTaken(l, c, r)
    ensures Accounted(l, c.(decoder := Some(d))) && HeadTaken(l, c.(decoder := Some(d)), r)
  {
    hide WholeMessage;
  }

  /** The state after a feed that was not refused. */
  lemma FedReady(l: Limits, c: Conn, r: Request)
    requires InChunks(l, c, r) && l.coding.feed(c.decoder.value, c.buffer, l.maxRequestSize).error.None?
    ensures var f := l.coding.feed(c.decoder.value, c.buffer, l.maxRequestSize);
            |f.rest| <= |c.buffer| && EmitReady(l, TakeOff(c, |c.buffer| - |f.rest|).(decoder := Some(f.next)), r, f.chunks)
  {
    hide WholeMessage, WholeBody, Content, Accounted, HeadTaken;
    var f := l.coding.feed(c.decoder.value, c.buffer, l.maxRequestSize);
    InChunksKnows(l, c, r);
    FeedTracks(l, c, r, l.maxRequestSize);
    TakeOffAccounts(l, c, |c.buffer| - |f.rest|);
    NewDecoder(l, TakeOff(c, |c.buffer| - |f.rest|), r, f.next);
  }

  lemma ReadChunkedKeepsInv(l: Limits, c: Conn, r: Request)
    requires Inv(l, c) && !c.closed && c.request == Some(r) && c.reader.Top? && c.phase.ChunkedBody? && c.decoder.Some?
    ensures ReadChunked(l, c, r, c.decoder.value) in Good(l)
  {
    if c.buffer != [] {
      assert EatsOn(l.coding, [], c.decoder.value, c.buffer, l.maxRequestSize);
      var f := l.coding.feed(c.decoder.value, c.buffer, l.maxRequestSize);
      var n := |c.buffer| - |f.rest|;
      var e := TakeOff(c, n).(decoder := Some(f.next));
      if f.error.None? {
        FedReady(l, c, r);
        var _ := EmitKeepsInv(l, e, r, f.chunks, false);
        assert ReadChunked(l, c, r, c.decoder.value) == Emit(l, e, r, f.chunks, false);
      } else {
        TakeOffAccounts(l, c, n);
        FailKeepsInv(l, e, r);
        assert ReadChunked(l, c, r, c.decoder.value) == Fail(e, r);
      }
    }
  }

  /** Nothing of the body has been taken when a request is dispatched. */
  ghost predicate Dispatched(l: Limits, c: Conn, r: Request) {
    && Accounted(l, c) && !c.closed && c.reader.Top? && c.remaining == 0
    && HeadTaken(l, c, r) && BodyTaken(c, r) == []
    && r == Request(r.head, r.headSize, r.head.keepAlive, false, false, 0, [], false)
  }

  lemma DispatchChunked(l: Limits, c: Conn, r: Request)
    requires Dispatched(l, c, r) && r.head.chunked
    ensures c.(request := Some(r), bodyBytes := 0, phase := ChunkedBody, decoder := Some(INITIAL)) in Good(l)
  {
  }

  lemma DispatchSized(l: Limits, c: Conn, r: Request)
    requires Dispatched(l, c, r) && !r.head.chunked && r.head.contentLength.Some?
    ensures c.(request := Some(r), bodyBytes := 0, phase := Body, remaining := r.head.contentLength.value) in Good(l)
  {
  }

  lemma DispatchEmpty(l: Limits, c: Conn, r: Request)
    requires Dispatched(l, c, r) && !r.head.chunked && (r.head.contentLength.Some? ==> r.head.contentLength.value == 0)
    ensures c.(request := Some(r.(queued := 1, ended := true)), bodyBytes := 0, phase := Waiting) in Good(l)
  {
  }

  lemma StartRequestKeepsInv(l: Limits, c: Conn, accept: bool)
    requires Inv(l, c) && !c.closed && c.request.None? && c.reader.Top? && c.phase.Idle?
    ensures StartRequest(l, c, accept) in Good(l)
  {
    if c.buffer != [] && l.parse(c.buffer).Accept? {
      var Accept(head, n) := l.parse(c.buffer);
      TakeOffAccounts(l, c, n);
      var d := TakeOff(c, n);
      assert c.buffer == c.buffer[..n] + c.buffer[n..] && [] + c.buffer[..n] == c.buffer[..n];
      var r := Request(head, n, head.keepAlive, false, false, 0, [], false);
      assert d.current == c.buffer[..n] && BodyTaken(d, r) == [];
      if head.chunked {
        DispatchChunked(l, d, r);
      } else if head.contentLength.Some? && head.contentLength.value > 0 {
        DispatchSized(l, d, r);
      } else {
        DispatchEmpty(l, d, r);
      }
    }
  }

  /** The message in flight joins the past ones. */
  lemma MessageAccounts(l: Limits, c: Conn)
    requires Accounted(l, c) && !c.closed && WholeMessage(l, c.current)
    ensures Accounted(l, c.(past := c.past + [c.current], current := [], served := c.served + 1))
  {
    var past := c.past + [c.current];
    FlatOne(c.current);
    FlatConcat(c.past, [c.current]);
    assert Flat(past) + [] == Flat(past);
    forall i | 0 <= i < |past| ensures WholeMessage(l, past[i]) {
      assert past[i] == if i < |c.past| then c.past[i] else c.current;
    }
  }

  /** The end of an exchange: the message is complete, or the connection closes. */
  lemma EndRequestKeepsInv(l: Limits, c: Conn, r: Request)
    requires Inv(l, c) && !c.closed && c.request == Some(r) && c.phase.Waiting?
    requires c.reader.Top? || c.reader.Awaiting?
    ensures EndRequest(c, r) in Good(l)
  {
    if r.keepAlive && c.served + 1 < MAX_REQUESTS {
      assert WholeMessage(l, c.current);
      MessageAccounts(l, c);
      var d := EndRequest(c, r);
      assert d.past == c.past + [c.current] && d.current == [] && d.request.None?;
    } else {
      assert EndRequest(c, r).closed;
    }
  }

  // ----- The writer ---------------------------------------------------------------------

  /** What was handed over is the beginning of the content taken so far. */
  lemma FedIsPrefix(l: Limits, c: Conn, r: Request)
    requires Inv(l, c) && !c.closed && c.request == Some(r) && !c.reader.Halted?
    ensures r.headSize <= |c.current| && (r.keepAlive ==> r.fed <= Content(l, r.head, BodyTaken(c, r)))
  {
    var pending := if c.reader.Emitting? then Flat(c.reader.chunks) else [];
    assert Delivered(l, c, r, pending);
  }

  /** The response ends while body bytes are still to come. */
  lemma EndResponseInBody(l: Limits, c: Conn, r: Request, q: Request)
    requires Inv(l, c) && !c.closed && c.request == Some(r) && !c.reader.Halted? && !c.phase.Waiting?
    requires q.finished && (q.keepAlive ==> r.keepAlive)
    requires q == r.(keepAlive := q.keepAlive, finished := true, complete := true, queued := q.queued)
    ensures c.phase.Body? || c.phase.ChunkedBody?
    ensures var (whole, d) := TryDrain(l, c);
            (if whole then d.(request := Some(q), remaining := 0, decoder := None, phase := Waiting)
             else d.(request := Some(q.(keepAlive := false)), phase := Waiting)) in Good(l)
  {
    FedIsPrefix(l, c, r);
    TryDrainDrains(l, c, r);
    var (whole, d) := TryDrain(l, c);
    var e := if whole then d.(request := Some(q), remaining := 0, decoder := None, phase := Waiting)
             else d.(request := Some(q.(keepAlive := false)), phase := Waiting);
    assert Accounted(l, e) && HeadTaken(l, e, e.request.value) && BodyTaken(e, e.request.value) == BodyTaken(d, r);
    assert Tracked(l, e, e.request.value);
  }

  /** The response ends and nothing of the body is still to come. */
  lemma EndResponseWaiting(l: Limits, c: Conn, r: Request, q: Request)
    requires Inv(l, c) && !c.closed && c.request == Some(r) && !c.reader.Halted? && c.phase.Waiting?
    requires q.finished && (q.keepAlive ==> r.keepAlive)
    requires q == r.(keepAlive := q.keepAlive, finished := true, complete := true, queued := q.queued)
    ensures c.(request := Some(q)) in Good(l)
  {
    FedIsPrefix(l, c, r);
    var d := c.(request := Some(q));
    assert Tracked(l, d, q) && ReaderOk(l, d, q);
  }

  /** The response ends after the reader has stopped. */
  lemma EndResponseHalted(l: Limits, c: Conn, r: Request, keep: bool)
    requires Inv(l, c) && !c.closed && c.request == Some(r) && c.reader.Halted?
    ensures EndResponse(l, c, r, keep) in Good(l)
  {
    hide TryDrain, WholeMessage, Delivered, HeadTaken, Tracked;
    TryDrainAccounts(l, c);
  }

  lemma EndResponseKeepsInv(l: Limits, c: Conn, r: Request, keep: bool)
    requires Inv(l, c) && !c.closed && c.request == Some(r)
    ensures EndResponse(l, c, r, keep) in Good(l)
  {
    hide TryDrain, Inv, Good;
    if c.reader.Halted? {
      EndResponseHalted(l, c, r, keep);
    } else {
      var q := r.(keepAlive := r.keepAlive && keep, finished := true, complete := true,
                  queued := if !r.finished && r.queued < QUEUE_SIZE then r.queued + 1 else r.queued);
      if c.phase.Waiting? {
        EndResponseWaiting(l, c, r, q);
      } else {
        EndResponseInBody(l, c, r, q);
      }
    }
  }

  lemma RunReaderKeepsInv(l: Limits, c: Conn, accept: bool)
    requires Inv(l, c) && !c.closed
    ensures RunReader(l, c, accept) in Good(l)
  {
    match c.request {
      case None =>
        if c.reader.Top? && c.phase.Idle? {
          StartRequestKeepsInv(l, c, accept);
        }
      case Some(r) =>
        if !c.reader.Halted? {
          assert r.fed + [] == r.fed;
          match c.reader {
            case Top =>
              if c.phase.Body? && c.buffer != [] {
                var _ := BodyLoopKeepsInv(l, c, r);
              } else if c.phase.ChunkedBody? {
                ReadChunkedKeepsInv(l, c, r);
              } else if c.phase.Waiting? && r.complete {
                EndRequestKeepsInv(l, c, r);
              }
            case Emitting(chunks) => var _ := EmitKeepsInv(l, c, r, chunks, true);
            case Finishing => FinishKeepsInv(l, c, r);
            case Awaiting =>
              if r.complete {
                EndRequestKeepsInv(l, c, r);
              }
            case Halted =>
          }
        }
    }
  }

  lemma ArriveKeepsInv(l: Limits, c: Conn, data: bytes)
    requires Inv(l, c)
    ensures c.(buffer := c.buffer + data, input := c.input + data) in Good(l)
  {
    ConcatAssoc(Flat(c.past) + c.current, c.buffer, data);
  }

  /** The application takes a message, or the connection is not to be used again. */
  lemma TouchKeepsInv(l: Limits, c: Conn, r: Request, queued: nat, keepAlive: bool)
    requires Inv(l, c) && c.request == Some(r) && (keepAlive ==> r.keepAlive)
    ensures c.(request := Some(r.(queued := queued, keepAlive := keepAlive))) in Good(l)
  {
  }

  lemma NextKeepsInv(l: Limits, c: Conn, e: Event)
    requires Inv(l, c)
    ensures Next(l, c, e) in Good(l)
  {
    hide RunReader, EndResponse;
    if !c.closed {
      match e {
        case Arrive(data) => ArriveKeepsInv(l, c, data);
        case Read(accept) => RunReaderKeepsInv(l, c, accept);
        case Respond(keep) =>
          if c.request.Some? && !c.request.value.complete {
            EndResponseKeepsInv(l, c, c.request.value, keep);
          }
        case Receive =>
          if c.request.Some? && c.request.value.queued > 0 {
            TouchKeepsInv(l, c, c.request.value, c.request.value.queued - 1, c.request.value.keepAlive);
          }
        case Spoil =>
          if c.request.Some? {
            TouchKeepsInv(l, c, c.request.value, c.request.value.queued, false);
          }
        case Close =>
      }
    }
  }

  lemma {:induction false} RunsKeepInv(l: Limits, events: seq<Event>)
    ensures Inv(l, Exec(l, events))
  {
    if events == [] {
      assert Flat([]) + [] + [] == [];
    } else {
      RunsKeepInv(l, events[..|events| - 1]);
      NextKeepsInv(l, Exec(l, events[..|events| - 1]), events[|events| - 1]);
    }
  }

  // ----- What has arrived ------------------------------------------------------------------

  /** The bytes that arrive in a run. */
  function Arrived(events: seq<Event>): bytes {
    if events == [] then []
    else
      var e := events[|events| - 1];
      Arrived(events[..|events| - 1]) + if e.Arrive? then e.data else []
  }

  lemma {:induction false} DrainLeavesInput(l: Limits, c: Conn, d: Decoder, budget: nat)
    ensures DrainChunked(l, c, d, budget).1.input == c.input
    decreases |c.buffer|
  {
    if !d.done && c.buffer != [] {
      var n, e, more := DrainUnfolds(l, c, d, budget);
      if more {
        DrainLeavesInput(l, e, l.coding.feed(d, c.buffer, 0).next, budget - n);
      }
    }
  }

  lemma TryDrainLeavesInput(l: Limits, c: Conn)
    ensures TryDrain(l, c).1.input == c.input
  {
    if c.phase.ChunkedBody? && c.decoder.Some? {
      DrainLeavesInput(l, c, c.decoder.value, MAX_DRAIN_BYTES);
    }
  }

  lemma {:induction false} EmitLeavesInput(l: Limits, c: Conn, r: Request, chunks: seq<bytes>, counted: bool)
    ensures Emit(l, c, r, chunks, counted).input == c.input
    decreases |c.buffer|, 1 + |chunks|
  {
    hide TryDrain;
    TryDrainLeavesInput(l, if chunks == [] || counted then c else c.(bodyBytes := c.bodyBytes + |chunks[0]|));
    if chunks == [] {
      if c.phase.Body? {
        BodyLoopLeavesInput(l, c, r);
      }
    } else if Offer(r, chunks[0], false).Accepted? {
      var d := if counted then c else c.(bodyBytes := c.bodyBytes + |chunks[0]|);
      EmitLeavesInput(l, d, Offer(r, chunks[0], false).r, chunks[1..], false);
    }
  }

  lemma {:induction false} BodyLoopLeavesInput(l: Limits, c: Conn, r: Request)
    ensures BodyLoop(l, c, r).input == c.input
    decreases |c.buffer|, 0
  {
    var take := if |c.buffer| < c.remaining then |c.buffer| else c.remaining;
    if take > 0 {
      EmitLeavesInput(l, TakeOff(c, take).(remaining := c.remaining - take), r, [c.buffer[..take]], false);
    }
  }

  lemma ReadLeavesInput(l: Limits, c: Conn, accept: bool)
    ensures RunReader(l, c, accept).input == c.input
  {
    hide Emit, BodyLoop;
    if c.request.Some? {
      var r := c.request.value;
      match c.reader {
        case Top =>
          if c.phase.Body? {
            BodyLoopLeavesInput(l, c, r);
          } else if c.phase.ChunkedBody? && c.decoder.Some? {
            var d := c.decoder.value;
            assert EatsOn(l.coding, [], d, c.buffer, l.maxRequestSize);
            var f := l.coding.feed(d, c.buffer, l.maxRequestSize);
            EmitLeavesInput(l, TakeOff(c, |c.buffer| - |f.rest|).(decoder := Some(f.next)), r, f.chunks, false);
          }
        case Emitting(chunks) => EmitLeavesInput(l, c, r, chunks, true);
        case _ =>
      }
    }
  }

  /** The handler forgets nothing that arrives while it is open. */
  lemma {:induction false} InputIsArrived(l: Limits, events: seq<Event>)
    ensures Exec(l, events).input <= Arrived(events)
    ensures !Exec(l, events).closed ==> Exec(l, events).input == Arrived(events)
  {
    if events != [] {
      var c, e := Exec(l, events[..|events| - 1]), events[|events| - 1];
      InputIsArrived(l, events[..|events| - 1]);
      if !c.closed {
        match e {
          case Read(accept) => ReadLeavesInput(l, c, accept);
          case Respond(_) => TryDrainLeavesInput(l, c);
          case _ =>
        }
      }
      assert c.input + [] == c.input;
    }
  }

  // ----- Main results --------------------------------------------------------------------

  /** For every interleaving of arriving bytes, reader, writer and application:
      every byte that arrived while the connection was open is in the buffer, in the
      request in flight, or in one of the complete messages, one for each exchange; and
      when the connection is idle, nothing but complete messages has been taken. */
  lemma MessageBoundaries(cfg: Config, events: seq<Event>)
    ensures var l := ServerLimits(cfg);
            var c := Exec(l, events);
            && c.input == Flat(c.past) + c.current + c.buffer
            && c.input <= Arrived(events) && (!c.closed ==> c.input == Arrived(events))
            && (forall i :: 0 <= i < |c.past| ==> WholeMessage(l, c.past[i]))
            && (!c.closed ==> |c.past| == c.served)
            && (!c.closed && !c.reader.Halted? && c.phase.Idle? ==> c.request.None? && c.input == Flat(c.past) + c.buffer)
  {
    var l := ServerLimits(cfg);
    RunsKeepInv(l, events);
    InputIsArrived(l, events);
    var c := Exec(l, events);
    assert c.current == [] ==> Flat(c.past) + c.current == Flat(c.past);
  }

  /** While it reads, the application is given exactly the content of its request's
      body: what it has been given and what the reader holds is all that was taken,
      and it is told of the end only when the body is complete. */
  lemma BodyIsDelivered(cfg: Config, events: seq<Event>)
    ensures var l := ServerLimits(cfg);
            var c := Exec(l, events);
            !c.closed && !c.reader.Halted? && c.request.Some? ==>
              var r := c.request.value;
              && HeadTaken(l, c, r)
              && (!r.finished ==>
                    r.fed + (if c.reader.Emitting? then Flat(c.reader.chunks) else [])
                    == Content(l, r.head, BodyTaken(c, r)))
              && (r.keepAlive ==> r.fed <= Content(l, r.head, BodyTaken(c, r)))
              && (r.ended && !c.reader.Emitting? ==>
                    WholeBody(l, r.head, BodyTaken(c, r)) && r.fed == Content(l, r.head, BodyTaken(c, r)))
  {
    var l := ServerLimits(cfg);
    RunsKeepInv(l, events);
  }

  /** No complete message is the beginning of a longer one. */
  ghost predicate PrefixFree(l: Limits) {
    forall a, b {:trigger WholeMessage(l, a + b)} :: WholeMessage(l, a) && WholeMessage(l, a + b) ==> b == []
  }

  lemma LongerMessage(l: Limits, a: bytes, b: bytes)
    requires WholeMessage(l, a) && WholeMessage(l, a + b)
    requires var body := a[l.parse(a).n..]; l.coding.whole(body) && l.coding.whole(body + b) ==> b == []
    ensures b == []
  {
    var outcome := l.parse(a);
    assert l.parse(a + b) == outcome;
    DropStays(a, b, outcome.n);
    if !outcome.head.chunked {
      assert |a[outcome.n..] + b| == |a[outcome.n..]| + |b|;
    }
  }

  lemma ChunkedPrefixFree(cfg: Config, a: bytes, b: bytes)
    requires ServerLimits(cfg).coding.whole(a) && ServerLimits(cfg).coding.whole(a + b)
    ensures b == []
  {
    Chunked.WholeChunkedIsPrefixFree(a, b);
  }

  lemma MessagesArePrefixFree(cfg: Config)
    ensures PrefixFree(ServerLimits(cfg))
  {
    var l := ServerLimits(cfg);
    forall a, b | WholeMessage(l, a) && WholeMessage(l, a + b)
      ensures b == []
    {
      var body := a[l.parse(a).n..];
      if l.coding.whole(body) && l.coding.whole(body + b) {
        ChunkedPrefixFree(cfg, body, b);
      }
      LongerMessage(l, a, b);
    }
  }

  /** So the cuts are forced: two readings of the same bytes as complete messages
      agree, message by message, on where each one ends. */
  lemma {:induction false} CutsAreForced(l: Limits, ms: seq<bytes>, x: bytes, ns: seq<bytes>, y: bytes)
    requires PrefixFree(l) && |ms| == |ns| && Flat(ms) + x == Flat(ns) + y
    requires forall i :: 0 <= i < |ms| ==> WholeMessage(l, ms[i]) && WholeMessage(l, ns[i])
    ensures ms == ns && x == y
  {
    if ms == [] {
      assert Flat(ms) + x == x && Flat(ns) + y == y;
    } else {
      var m, n := ms[0], ns[0];
      ConcatAssoc(m, Flat(ms[1..]), x);
      ConcatAssoc(n, Flat(ns[1..]), y);
      SameStart(l, m, Flat(ms[1..]) + x, n, Flat(ns[1..]) + y);
      assert (m + (Flat(ms[1..]) + x))[|m|..] == Flat(ms[1..]) + x;
      assert (n + (Flat(ns[1..]) + y))[|n|..] == Flat(ns[1..]) + y;
      CutsAreForced(l, ms[1..], x, ns[1..], y);
    }
  }

  lemma SameStart(l: Limits, m: bytes, u: bytes, n: bytes, v: bytes)
    requires PrefixFree(l) && WholeMessage(l, m) && WholeMessage(l, n) && m + u == n + v
    ensures m == n
  {
    if |m| <= |n| {
      NoLongerStart(l, m, u, n, v);
    } else {
      NoLongerStart(l, n, v, m, u);
    }
  }

  lemma NoLongerStart(l: Limits, m: bytes, u: bytes, n: bytes, v: bytes)
    requires PrefixFree(l) && WholeMessage(l, m) && WholeMessage(l, n) && m + u == n + v && |m| <= |n|
    ensures m == n
  {
    hide WholeMessage;
    StartOfLonger(m, u, n, v);
    assert WholeMessage(l, m + n[|m|..]);
    assert m + [] == m;
  }

  lemma StartOfLonger(m: bytes, u: bytes, n: bytes, v: bytes)
    requires m + u == n + v && |m| <= |n|
    ensures n == m + n[|m|..]
  {
    assert m == (m + u)[..|m|] == (n + v)[..|m|] == n[..|m|];
  }
}
