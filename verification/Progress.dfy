/** A connection that is kept goes on: messages whose heads allow it are all read, one after
    the other, as long as everybody does their part. */
module Progress {
  import opened Wrappers
  import opened Bytes
  import opened Head
  import opened Connection
  import opened MessageBoundary
  import Chunked

  // ----- Messages that can be read however they arrive --------------------------------------

  /** Fed with a buffer that begins what is left of `body`, or goes beyond it, the decoder
      goes on, takes nothing behind the body, and is done exactly when it has all of it. */
  ghost predicate FeedsThrough(l: Limits, body: bytes, a: bytes, d: Decoder, buffer: bytes) {
    a <= body && l.coding.eats(a, d) && !d.done && (buffer <= body[|a|..] || body[|a|..] <= buffer) ==>
      var f := l.coding.feed(d, buffer, l.maxRequestSize);
      var left := |body| - |a|;
      && f.error.None? && |f.rest| <= |buffer|
      && var taken := |buffer| - |f.rest|;
         && taken <= left && (left <= |buffer| ==> f.next.done) && (f.next.done ==> taken == left)
         && |f.chunks| <= taken && (taken == 0 ==> f.next == d)
  }

  /** A chunked body that the decoder reads however it is cut. */
  ghost predicate Steady(l: Limits, body: bytes) {
    && l.coding.whole(body)
    && (forall a, d, buffer {:trigger FeedsThrough(l, body, a, d, buffer)} :: FeedsThrough(l, body, a, d, buffer))
    && (forall a {:trigger l.coding.whole(a)} :: l.coding.whole(a) && a <= body ==> a == body)
  }

  /** A whole message after which the connection may be kept, with a body that is read
      however it is cut, and that is not too large. */
  ghost predicate Keepable(l: Limits, m: bytes) {
    var o := l.parse(m);
    && o.Accept? && o.n >= 3 && o.head.keepAlive && WholeBody(l, o.head, m[o.n..])
    && (o.head.chunked ==> Steady(l, m[o.n..]))
    && (l.maxRequestSize > 0 ==> |Content(l, o.head, m[o.n..])| <= l.maxRequestSize)
  }

  /** The head of the message in flight is the head of `m`. */
  lemma SameHead(l: Limits, c: Conn, r: Request, m: bytes)
    requires HeadTaken(l, c, r) && c.current <= m
    ensures l.parse(m) == Accept(r.head, r.headSize) && r.headSize <= |m| && BodyTaken(c, r) <= m[r.headSize..]
  {
    assert m == c.current + m[|c.current|..];
    assert l.parse(c.current + m[|c.current|..]) == l.parse(c.current);
  }

  // ----- The message in flight --------------------------------------------------------------

  /** The message in flight is `m`, what follows it in the buffer is of `t`, and nothing
      speaks against keeping the connection. */
  ghost predicate OnWay(l: Limits, c: Conn, r: Request, m: bytes, t: bytes) {
    && Keepable(l, m) && m <= t && !c.closed && r.keepAlive
    && c.current <= m && c.current + c.buffer <= t
  }

  /** The bytes counted against the limit are those handed over, and those in hand. */
  ghost predicate Reckoned(c: Conn, r: Request) {
    c.bodyBytes == |r.fed| + if c.reader.Emitting? && c.reader.chunks != [] then |c.reader.chunks[0]| else 0
  }

  /** What there is still to do: bytes to take, chunks to hand over, messages to receive, and
      the end of the body and of the answer. */
  function Work(c: Conn): nat {
    3 * |c.buffer|
    + match c.request
      case None => 0
      case Some(r) =>
        r.queued + (if c.reader.Emitting? then 2 * |c.reader.chunks| else 0) + (if r.ended then 0 else 2)
        + (if r.complete then 0 else 2) + (if c.reader.Awaiting? then 0 else 1) + 1
  }

  /** The reader, on its way through the body of `m`, has come from `c` to `e`. */
  ghost predicate Went(l: Limits, c: Conn, e: Conn, m: bytes, t: bytes, work: nat) {
    && e.past == c.past && e.served == c.served && e.input == c.input
    && !e.reader.Halted? && !e.reader.Awaiting? && e.request.Some?
    && var q := e.request.value;
       && OnWay(l, e, q, m, t) && Reckoned(e, q) && !q.finished && !q.complete
       && (e.phase.Body? && e.reader.Top? ==> e.remaining > 0)
       && Work(e) <= work
  }

  /** Content that has been taken is no more than there is. */
  lemma ContentWithin(l: Limits, c: Conn, r: Request, m: bytes)
    requires HeadTaken(l, c, r) && c.current <= m && Keepable(l, m) && Tracked(l, c, r)
    requires !c.phase.Waiting?
    ensures l.maxRequestSize > 0 ==> |Content(l, r.head, BodyTaken(c, r))| <= l.maxRequestSize
  {
    SameHead(l, c, r, m);
    var body := m[r.headSize..];
    if r.head.chunked {
      var a, d := BodyTaken(c, r), c.decoder.value;
      if d.done {
        assert l.coding.whole(a);
      } else {
        var x := body[|a|..];
        assert FeedsThrough(l, body, a, d, x);
        assert EatsOn(l.coding, a, d, x, l.maxRequestSize);
        var f := l.coding.feed(d, x, l.maxRequestSize);
        assert x[..|x| - |f.rest|] == x && a + x == body;
      }
    }
  }

  /** What is to be handed over stays within the limit. */
  lemma EmitWithin(l: Limits, c: Conn, r: Request, chunks: seq<bytes>, m: bytes)
    requires EmitReady(l, c, r, chunks) && c.current <= m && Keepable(l, m) && !r.finished && !c.phase.Waiting?
    ensures !r.ended && !r.complete && (c.phase.Body? || (c.phase.ChunkedBody? && c.decoder.Some?))
    ensures l.maxRequestSize > 0 ==> |r.fed| + |Flat(chunks)| <= l.maxRequestSize
  {
    ContentWithin(l, c, r, m);
    hide Content, Keepable, Accounted, HeadTaken;
  }

  /** The reader stops with chunks in hand. */
  lemma FullGoes(l: Limits, c: Conn, r: Request, chunks: seq<bytes>, m: bytes, t: bytes)
    requires OnWay(l, c, r, m, t) && !r.finished && !r.complete && !r.ended && chunks != []
    requires c.bodyBytes == |r.fed| + |chunks[0]|
    ensures Went(l, c, c.(request := Some(r), reader := Emitting(chunks)), m, t, 3 * |c.buffer| + r.queued + 2 * |chunks| + 6)
  {
    hide Keepable;
  }

  lemma TopGoes(l: Limits, c: Conn, r: Request, m: bytes, t: bytes)
    requires OnWay(l, c, r, m, t) && !r.finished && !r.complete && !r.ended && c.bodyBytes == |r.fed|
    requires c.phase.Body? ==> c.remaining > 0
    ensures Went(l, c, c.(request := Some(r), reader := Top), m, t, 3 * |c.buffer| + r.queued + 6)
  {
    hide Keepable;
  }

  /** Handing over goes on through the message. */
  lemma {:induction false} EmitGoes(l: Limits, c: Conn, r: Request, chunks: seq<bytes>, counted: bool, m: bytes, t: bytes)
    requires EmitReady(l, c, r, chunks) && OnWay(l, c, r, m, t) && !r.finished && !c.phase.Waiting?
    requires counted ==> chunks != []
    requires c.bodyBytes == |r.fed| + if counted then |chunks[0]| else 0
    ensures Went(l, c, Emit(l, c, r, chunks, counted), m, t, 3 * |c.buffer| + r.queued + 2 * |chunks| + 6)
    decreases |c.buffer|, 1 + |chunks|
  {
    hide EmitReady, Went, Keepable;
    EmitWithin(l, c, r, chunks, m);
    if chunks == [] {
      if c.phase.Body? {
        BodyLoopGoes(l, c, r, m, t);
      } else if c.decoder.value.done {
        FinishGoes(l, c, r, m, t);
      } else {
        TopGoes(l, c, r, m, t);
      }
    } else {
      var d := if counted then c else c.(bodyBytes := c.bodyBytes + |chunks[0]|);
      CountReady(l, c, r, chunks, d.bodyBytes);
      assert |Flat(chunks)| >= |chunks[0]|;
      if Offer(r, chunks[0], false).Accepted? {
        var q := Offer(r, chunks[0], false).r;
        OfferReady(l, d, r, chunks);
        EmitGoes(l, d, q, chunks[1..], false, m, t);
        WentSooner(l, c, d, Emit(l, d, q, chunks[1..], false), m, t, 3 * |c.buffer| + q.queued + 2 * |chunks[1..]| + 6,
                   3 * |c.buffer| + r.queued + 2 * |chunks| + 6);
      } else {
        FullGoes(l, d, r, chunks, m, t);
        WentSooner(l, c, d, d.(request := Some(r), reader := Emitting(chunks)), m, t,
                   3 * |c.buffer| + r.queued + 2 * |chunks| + 6, 3 * |c.buffer| + r.queued + 2 * |chunks| + 6);
      }
    }
  }

  lemma WentSooner(l: Limits, c: Conn, d: Conn, e: Conn, m: bytes, t: bytes, less: nat, work: nat)
    requires Went(l, d, e, m, t, less) && less <= work && d.past == c.past && d.served == c.served && d.input == c.input
    ensures Went(l, c, e, m, t, work) && Work(e) <= less
  {
    hide OnWay, Reckoned, Work;
  }

  lemma FinishGoes(l: Limits, c: Conn, r: Request, m: bytes, t: bytes)
    requires OnWay(l, c, r, m, t) && !r.finished && !r.complete && !r.ended && c.bodyBytes == |r.fed|
    ensures Went(l, c, Finish(c, r), m, t, 3 * |c.buffer| + r.queued + 6)
  {
    assert r.fed + [] == r.fed;
  }

  lemma TakeStaysOnWay(l: Limits, c: Conn, r: Request, m: bytes, t: bytes, n: nat)
    requires OnWay(l, c, r, m, t) && n <= |c.buffer| && |c.current| + n <= |m|
    ensures OnWay(l, TakeOff(c, n), r, m, t)
  {
    var d := TakeOff(c, n);
    assert d.current + d.buffer == c.current + c.buffer;
    assert d.current == t[..|d.current|] == m[..|d.current|];
  }

  lemma {:induction false} BodyLoopGoes(l: Limits, c: Conn, r: Request, m: bytes, t: bytes)
    requires EmitReady(l, c, r, []) && OnWay(l, c, r, m, t) && !r.finished && c.phase.Body? && c.bodyBytes == |r.fed|
    ensures Went(l, c, BodyLoop(l, c, r), m, t, 3 * |c.buffer| + r.queued + 6)
    ensures c.buffer != [] && c.remaining > 0 ==> Work(BodyLoop(l, c, r)) < 3 * |c.buffer| + r.queued + 6
    decreases |c.buffer|, 0
  {
    hide EmitReady, Went, Keepable, Work;
    EmitWithin(l, c, r, [], m);
    var take := if |c.buffer| < c.remaining then |c.buffer| else c.remaining;
    if take > 0 {
      var d := TakeOff(c, take).(remaining := c.remaining - take);
      var piece := [c.buffer[..take]];
      TakeBodyReady(l, c, r, take);
      assert HeadTaken(l, c, r) && Tracked(l, c, r) by {
        ReadyKnows(l, c, r, []);
      }
      BodyHasRoom(l, c, r, m);
      TakeStaysOnWay(l, c, r, m, t, take);
      EmitGoes(l, d, r, piece, false, m, t);
      WentSooner(l, c, d, Emit(l, d, r, piece, false), m, t, 3 * |d.buffer| + r.queued + 8, 3 * |c.buffer| + r.queued + 6);
    } else if c.remaining == 0 {
      FinishGoes(l, c, r, m, t);
    } else {
      TopGoes(l, c, r, m, t);
    }
  }

  lemma ReadyKnows(l: Limits, c: Conn, r: Request, chunks: seq<bytes>)
    requires EmitReady(l, c, r, chunks)
    ensures HeadTaken(l, c, r) && Tracked(l, c, r)
  {
  }

  /** The rest of a body of known length is the rest of the message. */
  lemma BodyHasRoom(l: Limits, c: Conn, r: Request, m: bytes)
    requires HeadTaken(l, c, r) && Tracked(l, c, r) && c.phase.Body? && c.current <= m && Keepable(l, m)
    ensures |c.current| + c.remaining == |m|
  {
    SameHead(l, c, r, m);
  }

  // ----- One turn of the reader -------------------------------------------------------------

  /** The buffer and what is left of the message begin alike. */
  lemma BeginAlike(l: Limits, c: Conn, r: Request, m: bytes, t: bytes)
    requires OnWay(l, c, r, m, t)
    ensures var left := m[|c.current|..]; c.buffer <= left || left <= c.buffer
  {
    var left := m[|c.current|..];
    assert c.buffer == (c.current + c.buffer)[|c.current|..] == t[|c.current|..][..|c.buffer|];
    assert left == t[|c.current|..][..|left|];
  }

  /** What one feed of the decoder does on the way through the message. */
  lemma FeedGoes(l: Limits, c: Conn, r: Request, m: bytes, t: bytes)
    requires InChunks(l, c, r) && OnWay(l, c, r, m, t)
    ensures var f := l.coding.feed(c.decoder.value, c.buffer, l.maxRequestSize);
            && f.error.None? && |f.rest| <= |c.buffer|
            && var n := |c.buffer| - |f.rest|;
               && |c.current| + n <= |m| && |f.chunks| <= n && (n == 0 ==> f.next == c.decoder.value)
               && (|m| - |c.current| <= |c.buffer| ==> |c.current| + n == |m|)
  {
    InChunksKnows(l, c, r);
    SameHead(l, c, r, m);
    BeginAlike(l, c, r, m, t);
    hide Accounted, Content, Tracked, ReaderOk, Delivered;
    var a, body := BodyTaken(c, r), m[r.headSize..];
    assert body[|a|..] == m[|c.current|..];
    assert FeedsThrough(l, body, a, c.decoder.value, c.buffer);
  }

  lemma FedOnWay(l: Limits, c: Conn, r: Request, m: bytes, t: bytes, n: nat, d: Decoder)
    requires OnWay(l, c, r, m, t) && n <= |c.buffer| && |c.current| + n <= |m|
    ensures OnWay(l, TakeOff(c, n).(decoder := Some(d)), r, m, t)
  {
    hide Keepable;
    TakeStaysOnWay(l, c, r, m, t, n);
  }

  lemma TakeNothing(c: Conn)
    requires c.decoder.Some?
    ensures TakeOff(c, 0).(decoder := Some(c.decoder.value)) == c
  {
    assert c.current + [] == c.current && c.buffer[0..] == c.buffer;
  }

  /** A chunked body is read on. */
  lemma ChunkedGoes(l: Limits, c: Conn, r: Request, m: bytes, t: bytes)
    requires InChunks(l, c, r) && OnWay(l, c, r, m, t) && c.bodyBytes == |r.fed| && c.buffer != []
    ensures var e := ReadChunked(l, c, r, c.decoder.value);
            e == c || (Went(l, c, e, m, t, 3 * |c.buffer| + r.queued + 5) && Work(e) < Work(c))
    ensures 0 < |m| - |c.current| <= |c.buffer| ==> ReadChunked(l, c, r, c.decoder.value) != c
  {
    hide Inv, Accounted, Went, EmitReady, Content, HeadTaken, Work, Emit, OnWay, ReadChunked, Incremental, EatsOn;
    var f := l.coding.feed(c.decoder.value, c.buffer, l.maxRequestSize);
    FeedGoes(l, c, r, m, t);
    FedReady(l, c, r);
    InChunksKnows(l, c, r);
    ReadChunkedEmits(l, c, r);
    var n := |c.buffer| - |f.rest|;
    var e := TakeOff(c, n).(decoder := Some(f.next));
    if n == 0 {
      TakeNothing(c);
      EmitNothing(l, c, r);
    } else {
      FedOnWay(l, c, r, m, t, n, f.next);
      EmitGoes(l, e, r, f.chunks, false, m, t);
      WentSooner(l, c, e, Emit(l, e, r, f.chunks, false), m, t, 3 * |e.buffer| + r.queued + 2 * |f.chunks| + 6,
                 3 * |c.buffer| + r.queued + 5);
      WorkShows(l, c, Emit(l, e, r, f.chunks, false), m, t, 3 * |c.buffer| + r.queued + 5, r);
    }
  }

  lemma ReadChunkedEmits(l: Limits, c: Conn, r: Request)
    requires c.decoder.Some? && c.buffer != []
    requires var f := l.coding.feed(c.decoder.value, c.buffer, l.maxRequestSize); f.error.None? && |f.rest| <= |c.buffer|
    ensures var f := l.coding.feed(c.decoder.value, c.buffer, l.maxRequestSize);
            ReadChunked(l, c, r, c.decoder.value)
            == Emit(l, TakeOff(c, |c.buffer| - |f.rest|).(decoder := Some(f.next)), r, f.chunks, false)
  {
    hide Emit;
  }

  lemma EmitNothing(l: Limits, c: Conn, r: Request)
    requires c.phase.ChunkedBody? && c.decoder.Some? && !c.decoder.value.done && c.request == Some(r) && c.reader.Top?
    ensures Emit(l, c, r, [], false) == c
  {
  }

  /** Less work is another state. */
  lemma WorkShows(l: Limits, c: Conn, e: Conn, m: bytes, t: bytes, work: nat, r: Request)
    requires Went(l, c, e, m, t, work) && c.request == Some(r) && !r.ended && !r.complete && c.reader.Top?
    requires work < 3 * |c.buffer| + r.queued + 6
    ensures e != c && Work(e) < Work(c)
  {
  }

  // ----- Everybody does their part -------------------------------------------------------------

  /** The messages that come, and what comes after them: not yet another head. */
  ghost predicate Coming(l: Limits, ms: seq<bytes>, rest: bytes) {
    && |ms| < MAX_REQUESTS && (forall i :: 0 <= i < |ms| ==> Keepable(l, ms[i]))
    && (rest != [] ==> l.parse(rest).NeedMore?)
  }

  /** What is still to come after the first `n` messages. */
  function After(ms: seq<bytes>, n: nat, rest: bytes): bytes
    requires n <= |ms|
  {
    Flat(ms[n..]) + rest
  }

  /** A request in flight that is going well. */
  ghost predicate GoesWell(l: Limits, c: Conn, r: Request, ms: seq<bytes>, rest: bytes) {
    && c.served < |ms| && OnWay(l, c, r, ms[c.served], After(ms, c.served, rest))
    && (if r.finished then r.complete else !r.complete && Reckoned(c, r))
    && (c.phase.Waiting? ==> r.ended && !c.reader.Emitting? && !c.reader.Finishing?)
    && (r.finished ==> c.phase.Waiting?)
    && (c.phase.Body? && c.reader.Top? ==> c.remaining > 0)
  }

  /** All messages so far have been read and answered, and the connection goes on. */
  ghost predicate Going(l: Limits, c: Conn, ms: seq<bytes>, rest: bytes) {
    && Inv(l, c) && !c.closed && !c.reader.Halted? && c.served <= |ms| && c.past == ms[..c.served]
    && match c.request
       case None => c.buffer <= After(ms, c.served, rest)
       case Some(r) => GoesWell(l, c, r, ms, rest)
  }

  /** The steps of a reader that runs, and of an application that receives what there is and
      responds, to keep the connection, once it has received the end. */
  ghost predicate Fits(c: Conn, e: Event) {
    match e
    case Arrive(_) => true
    case Read(accept) => accept
    case Receive => true
    case Respond(keep) => keep && c.request.Some? && c.request.value.ended && c.request.value.queued == 0
    case _ => false
  }

  /** A step that goes well, and leaves less to do unless it changes nothing. */
  ghost predicate StepsOn(l: Limits, c: Conn, d: Conn, ms: seq<bytes>, rest: bytes) {
    Going(l, d, ms, rest) && (d == c || Work(d) < Work(c))
  }

  lemma AfterNext(ms: seq<bytes>, n: nat, rest: bytes)
    requires n < |ms|
    ensures After(ms, n, rest) == ms[n] + After(ms, n + 1, rest) && ms[n] <= After(ms, n, rest)
  {
    assert ms[n..][1..] == ms[n + 1..];
    ConcatAssoc(ms[n], Flat(ms[n + 1..]), rest);
  }

  /** The head parser on what has arrived of the messages to come. */
  lemma ParsesNext(l: Limits, buffer: bytes, ms: seq<bytes>, n: nat, rest: bytes)
    requires Coming(l, ms, rest) && n <= |ms| && buffer <= After(ms, n, rest) && buffer != []
    ensures n == |ms| ==> l.parse(buffer).NeedMore?
    ensures n < |ms| && !l.parse(buffer).NeedMore? ==> l.parse(buffer) == l.parse(ms[n]) && l.parse(buffer).n <= |buffer|
    ensures n < |ms| && ms[n] <= buffer ==> !l.parse(buffer).NeedMore?
  {
    var t := After(ms, n, rest);
    if n == |ms| {
      assert Flat([]) + rest == rest && t == rest;
      assert rest == buffer + rest[|buffer|..];
    } else {
      AfterNext(ms, n, rest);
      var m := ms[n];
      if |m| <= |buffer| {
        assert buffer[..|m|] == t[..|m|] == m && buffer == m + buffer[|m|..];
        assert l.parse(m + buffer[|m|..]) == l.parse(m);
      } else if !l.parse(buffer).NeedMore? {
        assert m[..|buffer|] == t[..|buffer|] == buffer && m == buffer + m[|buffer|..];
        assert l.parse(buffer + m[|buffer|..]) == l.parse(buffer);
      }
    }
  }

  /** A head is taken. */
  lemma StartGoes(l: Limits, c: Conn, ms: seq<bytes>, rest: bytes)
    requires Coming(l, ms, rest) && Going(l, c, ms, rest) && c.request.None?
    ensures StepsOn(l, c, StartRequest(l, c, true), ms, rest)
    ensures c.served < |ms| && ms[c.served] <= c.buffer && c.buffer != [] ==> StartRequest(l, c, true) != c
  {
    if c.buffer != [] {
      ParsesNext(l, c.buffer, ms, c.served, rest);
      if !l.parse(c.buffer).NeedMore? {
        StartRequestKeepsInv(l, c, true);
        HeadGoes(l, c, ms, rest);
      }
    }
  }

  lemma HeadGoes(l: Limits, c: Conn, ms: seq<bytes>, rest: bytes)
    requires Coming(l, ms, rest) && Going(l, c, ms, rest) && c.request.None? && c.buffer != [] && c.served < |ms|
    requires l.parse(c.buffer).Accept? && l.parse(c.buffer) == l.parse(ms[c.served]) && l.parse(c.buffer).n <= |c.buffer|
    requires Inv(l, StartRequest(l, c, true))
    ensures Going(l, StartRequest(l, c, true), ms, rest) && Work(StartRequest(l, c, true)) < Work(c)
  {
    hide Inv, Coming, Keepable;
    var m, t := ms[c.served], After(ms, c.served, rest);
    var Accept(head, n) := l.parse(c.buffer);
    AfterNext(ms, c.served, rest);
    IdleHasNothing(l, c);
    NextIsKeepable(l, ms, c.served, rest);
    KeepableHead(l, m);
    hide After;
    var d := TakeOff(c, n);
    assert d.current == c.buffer[..n] && d.current + d.buffer == c.buffer;
    assert c.buffer[..n] == t[..n] == m[..n];
  }

  lemma NextIsKeepable(l: Limits, ms: seq<bytes>, n: nat, rest: bytes)
    requires Coming(l, ms, rest) && n < |ms|
    ensures Keepable(l, ms[n])
  {
    hide Keepable;
  }

  lemma KeepableHead(l: Limits, m: bytes)
    requires Keepable(l, m)
    ensures l.parse(m).Accept? && 3 <= l.parse(m).n <= |m| && l.parse(m).head.keepAlive
  {
  }

  lemma IdleHasNothing(l: Limits, c: Conn)
    requires Inv(l, c) && !c.closed && !c.reader.Halted? && c.request.None?
    ensures c.current == [] && c.reader.Top? && c.phase.Idle? && c.remaining == 0
  {
  }

  /** What the invariant says of a request that is going well. */
  lemma WellKnows(l: Limits, c: Conn, r: Request, ms: seq<bytes>, rest: bytes)
    requires Going(l, c, ms, rest) && c.request == Some(r)
    ensures GoesWell(l, c, r, ms, rest) && HeadTaken(l, c, r) && Tracked(l, c, r) && ReaderOk(l, c, r)
    ensures !c.phase.Idle? && (c.phase.Waiting? <==> r.ended) && (r.complete ==> r.finished)
    ensures c.reader.Emitting? ==> c.reader.chunks != [] && EmitReady(l, c, r, c.reader.chunks)
    ensures c.reader.Top? && c.phase.Body? ==> EmitReady(l, c, r, [])
    ensures c.reader.Top? && c.phase.ChunkedBody? ==> InChunks(l, c, r)
    ensures c.reader.Awaiting? ==> c.phase.Waiting?
  {
    assert r.fed + [] == r.fed;
    hide WholeBody, Content, Keepable;
  }

  /** Having gone on through the message, the request is still going well. */
  lemma WentWell(l: Limits, c: Conn, e: Conn, ms: seq<bytes>, rest: bytes, work: nat)
    requires Going(l, c, ms, rest) && c.request.Some? && Inv(l, e)
    requires Went(l, c, e, ms[c.served], After(ms, c.served, rest), work)
    ensures Going(l, e, ms, rest)
  {
    hide Keepable, Accounted, HeadTaken, Content, WholeBody, Work, After;
    var q := e.request.value;
    assert e.served == c.served;
    assert e.phase.Waiting? ==> q.ended;
    assert e.phase.Waiting? ==> !e.reader.Emitting? && !e.reader.Finishing?;
  }

  /** The reader takes what it can of a body of known length. */
  lemma BodyGoes(l: Limits, c: Conn, r: Request, ms: seq<bytes>, rest: bytes)
    requires Going(l, c, ms, rest) && c.request == Some(r) && c.reader.Top? && c.phase.Body? && c.buffer != []
    ensures StepsOn(l, c, BodyLoop(l, c, r), ms, rest) && BodyLoop(l, c, r) != c
  {
    WellKnows(l, c, r, ms, rest);
    hide Keepable, Accounted, HeadTaken, Content, WholeBody, Went, EmitReady, Delivered;
    var e := BodyLoopKeepsInv(l, c, r);
    BodyLoopGoes(l, c, r, ms[c.served], After(ms, c.served, rest));
    WentWell(l, c, e, ms, rest, 3 * |c.buffer| + r.queued + 6);
  }

  /** Or of a chunked one. */
  lemma ChunksGo(l: Limits, c: Conn, r: Request, ms: seq<bytes>, rest: bytes)
    requires Going(l, c, ms, rest) && c.request == Some(r) && c.reader.Top? && c.phase.ChunkedBody?
    ensures StepsOn(l, c, ReadChunked(l, c, r, c.decoder.value), ms, rest)
    ensures 0 < |ms[c.served]| - |c.current| <= |c.buffer| ==> ReadChunked(l, c, r, c.decoder.value) != c
  {
    WellKnows(l, c, r, ms, rest);
    if c.buffer != [] {
      hide Keepable, Accounted, HeadTaken, Content, WholeBody, Went, EmitReady, Delivered, ReadChunked;
      ReadChunkedKeepsInv(l, c, r);
      ChunkedGoes(l, c, r, ms[c.served], After(ms, c.served, rest));
      var e := ReadChunked(l, c, r, c.decoder.value);
      if e != c {
        WentWell(l, c, e, ms, rest, 3 * |c.buffer| + r.queued + 5);
      }
    }
  }

  /** Chunks in hand go into the queue as far as there is room. */
  lemma HandingGoes(l: Limits, c: Conn, r: Request, ms: seq<bytes>, rest: bytes)
    requires Going(l, c, ms, rest) && c.request == Some(r) && c.reader.Emitting?
    ensures StepsOn(l, c, Emit(l, c, r, c.reader.chunks, true), ms, rest)
    ensures r.queued < QUEUE_SIZE ==> Emit(l, c, r, c.reader.chunks, true) != c
  {
    WellKnows(l, c, r, ms, rest);
    var chunks := c.reader.chunks;
    var m, t := ms[c.served], After(ms, c.served, rest);
    hide Keepable, Accounted, HeadTaken, Content, WholeBody, Went, Delivered;
    EmitWithin(l, c, r, chunks, m);
    var e := EmitKeepsInv(l, c, r, chunks, true);
    if r.queued < QUEUE_SIZE {
      var q := Offer(r, chunks[0], false).r;
      OfferReady(l, c, r, chunks);
      EmitGoes(l, c, q, chunks[1..], false, m, t);
      WentWell(l, c, e, ms, rest, 3 * |c.buffer| + q.queued + 2 * |chunks[1..]| + 6);
      LessInHand(l, c, r, e, m, t, q);
    } else {
      assert e == c;
    }
  }

  lemma LessInHand(l: Limits, c: Conn, r: Request, e: Conn, m: bytes, t: bytes, q: Request)
    requires c.request == Some(r) && c.reader.Emitting? && c.reader.chunks != [] && !r.ended && !r.complete
    requires Went(l, c, e, m, t, 3 * |c.buffer| + q.queued + 2 * |c.reader.chunks[1..]| + 6) && q.queued == r.queued + 1
    ensures Work(e) < Work(c) && e != c
  {
    hide OnWay, Reckoned;
  }

  /** The end of the body goes into the queue when there is room. */
  lemma EndGoes(l: Limits, c: Conn, r: Request, ms: seq<bytes>, rest: bytes)
    requires Going(l, c, ms, rest) && c.request == Some(r) && c.reader.Finishing?
    ensures StepsOn(l, c, Finish(c, r), ms, rest)
    ensures r.queued < QUEUE_SIZE ==> Finish(c, r) != c
  {
    WellKnows(l, c, r, ms, rest);
    hide Keepable, Accounted, HeadTaken, Content, After;
    RunReaderKeepsInv(l, c, true);
    assert RunReader(l, c, true) == Finish(c, r);
    assert r.fed + [] == r.fed;
  }

  // ----- The end of an exchange ---------------------------------------------------------------

  /** Whoever waits for the answer has read the whole message. */
  lemma WaitingHasAll(l: Limits, c: Conn, r: Request, ms: seq<bytes>, rest: bytes)
    requires Going(l, c, ms, rest) && c.request == Some(r) && c.phase.Waiting?
    ensures r.keepAlive && c.current == ms[c.served] && c.buffer <= After(ms, c.served + 1, rest)
  {
    WellKnows(l, c, r, ms, rest);
    var m, t, u := ms[c.served], After(ms, c.served, rest), After(ms, c.served + 1, rest);
    SameHead(l, c, r, m);
    AfterNext(ms, c.served, rest);
    var a := BodyTaken(c, r);
    assert c.current == c.current[..r.headSize] + a;
    assert m == m[..r.headSize] + m[r.headSize..];
    assert a == m[r.headSize..];
    assert |c.current| == |m|;
    assert c.buffer == (c.current + c.buffer)[|m|..] && t[|m|..] == u;
    assert c.current + c.buffer == t[..|m| + |c.buffer|];
  }

  /** The exchange is over, and the connection is ready for the next message. */
  lemma ExchangeEnds(l: Limits, c: Conn, r: Request, ms: seq<bytes>, rest: bytes)
    requires Coming(l, ms, rest) && Going(l, c, ms, rest) && c.request == Some(r) && c.phase.Waiting? && r.complete
    ensures StepsOn(l, c, EndRequest(c, r), ms, rest) && EndRequest(c, r) != c
  {
    WaitingHasAll(l, c, r, ms, rest);
    WellKnows(l, c, r, ms, rest);
    hide Inv, Keepable, Coming, HeadTaken, Tracked, ReaderOk, EmitReady, InChunks, After, OnWay;
    FewEnough(l, ms, rest);
    EndRequestKeepsInv(l, c, r);
    NextTurn(l, c, r, ms, rest);
    assert Work(EndRequest(c, r)) < Work(c);
  }

  lemma NextTurn(l: Limits, c: Conn, r: Request, ms: seq<bytes>, rest: bytes)
    requires c.served < |ms| < MAX_REQUESTS && c.past == ms[..c.served] && c.current == ms[c.served] && r.keepAlive
    requires !c.closed && !c.reader.Halted? && c.buffer <= After(ms, c.served + 1, rest) && Inv(l, EndRequest(c, r))
    ensures Going(l, EndRequest(c, r), ms, rest)
  {
    hide Inv, After;
    assert c.past + [c.current] == ms[..c.served + 1];
  }

  lemma FewEnough(l: Limits, ms: seq<bytes>, rest: bytes)
    requires Coming(l, ms, rest)
    ensures |ms| < MAX_REQUESTS
  {
  }

  lemma WaitingGoes(l: Limits, c: Conn, r: Request, ms: seq<bytes>, rest: bytes)
    requires Coming(l, ms, rest) && Going(l, c, ms, rest) && c.request == Some(r) && c.phase.Waiting?
    ensures StepsOn(l, c, RunReader(l, c, true), ms, rest)
    ensures r.complete ==> RunReader(l, c, true) != c
  {
    WellKnows(l, c, r, ms, rest);
    if r.complete {
      ExchangeEnds(l, c, r, ms, rest);
    } else if c.reader.Top? {
      RunReaderKeepsInv(l, c, true);
      hide Inv, Keepable, Coming, HeadTaken, Tracked, ReaderOk, After;
    }
  }

  // ----- Every step -------------------------------------------------------------------------------

  lemma ReadGoes(l: Limits, c: Conn, ms: seq<bytes>, rest: bytes)
    requires Coming(l, ms, rest) && Going(l, c, ms, rest)
    ensures StepsOn(l, c, RunReader(l, c, true), ms, rest)
  {
    hide StepsOn, Keepable, Coming, Emit, BodyLoop, ReadChunked, StartRequest, EndRequest;
    if c.request.None? {
      IdleHasNothing(l, c);
      StartGoes(l, c, ms, rest);
    } else {
      var r := c.request.value;
      WellKnows(l, c, r, ms, rest);
      hide Inv, HeadTaken, Tracked, ReaderOk, EmitReady, InChunks;
      if c.phase.Waiting? {
        WaitingGoes(l, c, r, ms, rest);
      } else if c.reader.Emitting? {
        HandingGoes(l, c, r, ms, rest);
      } else if c.reader.Finishing? {
        EndGoes(l, c, r, ms, rest);
      } else if c.phase.ChunkedBody? {
        ChunksGo(l, c, r, ms, rest);
      } else if c.buffer != [] {
        BodyGoes(l, c, r, ms, rest);
      } else {
        NothingGoes(l, c, ms, rest);
      }
    }
  }

  lemma NothingGoes(l: Limits, c: Conn, ms: seq<bytes>, rest: bytes)
    requires Going(l, c, ms, rest)
    ensures StepsOn(l, c, c, ms, rest)
  {
  }

  lemma ReceiveGoes(l: Limits, c: Conn, ms: seq<bytes>, rest: bytes)
    requires Going(l, c, ms, rest)
    ensures StepsOn(l, c, Next(l, c, Receive), ms, rest)
  {
    NextKeepsInv(l, c, Receive);
    hide Inv, Keepable, After;
  }

  lemma RespondGoes(l: Limits, c: Conn, ms: seq<bytes>, rest: bytes)
    requires Going(l, c, ms, rest) && Fits(c, Respond(true))
    ensures StepsOn(l, c, Next(l, c, Respond(true)), ms, rest)
    ensures !c.request.value.complete ==> Next(l, c, Respond(true)) != c
  {
    NextKeepsInv(l, c, Respond(true));
    WellKnows(l, c, c.request.value, ms, rest);
    hide Inv, Keepable, After, HeadTaken, Tracked, ReaderOk, EmitReady, InChunks;
  }

  /** Every step of those who do their part goes well. */
  lemma StepGoes(l: Limits, c: Conn, e: Event, ms: seq<bytes>, rest: bytes)
    requires Coming(l, ms, rest) && Going(l, c, ms, rest) && Fits(c, e) && !e.Arrive?
    ensures StepsOn(l, c, Next(l, c, e), ms, rest)
  {
    match e {
      case Read(_) => ReadGoes(l, c, ms, rest);
      case Receive => ReceiveGoes(l, c, ms, rest);
      case Respond(_) => RespondGoes(l, c, ms, rest);
    }
  }

  /** What has arrived and not been taken belongs to what is still to come. */
  lemma ArrivalGoes(l: Limits, c: Conn, data: bytes, ms: seq<bytes>, rest: bytes)
    requires Going(l, c, ms, rest) && c.input + data <= Flat(ms) + rest
    ensures Going(l, Next(l, c, Arrive(data)), ms, rest)
  {
    hide Inv, Keepable, After;
    NextKeepsInv(l, c, Arrive(data));
    ArrivalFollows(l, c, data, ms, rest);
    if c.request.None? {
      IdleHasNothing(l, c);
      assert [] + (c.buffer + data) == c.buffer + data;
    }
  }

  lemma ArrivalFollows(l: Limits, c: Conn, data: bytes, ms: seq<bytes>, rest: bytes)
    requires Inv(l, c) && c.served <= |ms| && c.past == ms[..c.served] && c.input + data <= Flat(ms) + rest
    ensures c.current + (c.buffer + data) <= After(ms, c.served, rest)
  {
    hide After, Tracked, HeadTaken, ReaderOk, Flat;
    AfterAll(ms, c.served, rest);
    StartsAlike(Flat(c.past), c.current, c.buffer, data, After(ms, c.served, rest));
  }

  /** Everything that is sent, from the messages already read on. */
  lemma AfterAll(ms: seq<bytes>, n: nat, rest: bytes)
    requires n <= |ms|
    ensures Flat(ms) + rest == Flat(ms[..n]) + After(ms, n, rest)
  {
    hide Flat;
    FlatConcat(ms[..n], ms[n..]);
    assert ms[..n] + ms[n..] == ms;
    ConcatAssoc(Flat(ms[..n]), Flat(ms[n..]), rest);
  }

  lemma StartsAlike(p: bytes, x: bytes, y: bytes, z: bytes, t: bytes)
    requires p + x + y + z <= p + t
    ensures x + (y + z) <= t
  {
    assert p + x + y + z == p + (x + (y + z));
    assert x + (y + z) == (p + (x + (y + z)))[|p|..] && t == (p + t)[|p|..];
  }
}
