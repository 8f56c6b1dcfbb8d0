/** When a connection is not used again. */
module Reuse {
  import opened Wrappers
  import opened Bytes
  import opened Head
  import opened Connection
  import opened MessageBoundary

  /** Steps taken from some state on. */
  function ExecFrom(l: Limits, c: Conn, events: seq<Event>): Conn {
    if events == [] then c else Next(l, ExecFrom(l, c, events[..|events| - 1]), events[|events| - 1])
  }

  // ----- What one step does -------------------------------------------------------------------

  /** The exchange in flight is still the same one, and no more willing to keep the
      connection than it was. */
  ghost predicate SameExchange(c: Conn, d: Conn) {
    && d.past == c.past && d.served == c.served && d.closed == c.closed && c.current <= d.current
    && c.request.Some? && d.request.Some?
    && d.request.value.head == c.request.value.head && d.request.value.headSize == c.request.value.headSize
    && (d.request.value.keepAlive ==> c.request.value.keepAlive)
  }

  /** Likewise for a request that the reader carries along. */
  ghost predicate CarriesOn(c: Conn, r: Request, d: Conn) {
    SameExchange(c.(request := Some(r)), d)
  }

  lemma {:induction false} DrainCarriesOn(l: Limits, c: Conn, d: Decoder, budget: nat)
    ensures var e := DrainChunked(l, c, d, budget).1;
            && e.past == c.past && e.served == c.served && e.closed == c.closed && c.current <= e.current
            && e.request == c.request && e.reader == c.reader
    decreases |c.buffer|
  {
    if !d.done && c.buffer != [] {
      var n, e, more := DrainUnfolds(l, c, d, budget);
      if more {
        DrainCarriesOn(l, e, l.coding.feed(d, c.buffer, 0).next, budget - n);
      }
    }
  }

  lemma TryDrainCarriesOn(l: Limits, c: Conn)
    ensures var e := TryDrain(l, c).1;
            && e.past == c.past && e.served == c.served && e.closed == c.closed && c.current <= e.current
            && e.request == c.request && e.reader == c.reader
  {
    if c.phase.ChunkedBody? && c.decoder.Some? {
      DrainCarriesOn(l, c, c.decoder.value, MAX_DRAIN_BYTES);
    }
  }

  lemma CarriesOnLater(c: Conn, r: Request, d: Conn, q: Request, e: Conn)
    requires CarriesOn(d, q, e) && d.past == c.past && d.served == c.served && d.closed == c.closed && c.current <= d.current
    requires q.head == r.head && q.headSize == r.headSize && q.keepAlive == r.keepAlive
    ensures CarriesOn(c, r, e)
  {
  }

  lemma StopCarriesOn(l: Limits, c: Conn, r: Request, chunks: seq<bytes>)
    ensures CarriesOn(c, r, Fail(c, r)) && CarriesOn(c, r, Abandon(l, c, r)) && CarriesOn(c, r, Finish(c, r))
    ensures CarriesOn(c, r, c.(request := Some(r), reader := Top))
    ensures CarriesOn(c, r, c.(request := Some(r), reader := Emitting(chunks)))
  {
    hide TryDrain;
    TryDrainCarriesOn(l, c);
  }

  lemma {:induction false} EmitCarriesOn(l: Limits, c: Conn, r: Request, chunks: seq<bytes>, counted: bool)
    ensures CarriesOn(c, r, Emit(l, c, r, chunks, counted))
    decreases |c.buffer|, 1 + |chunks|
  {
    hide CarriesOn, Fail, Abandon, Finish;
    StopCarriesOn(l, c, r, chunks);
    if chunks == [] {
      if c.phase.Body? {
        BodyLoopCarriesOn(l, c, r);
      }
    } else {
      var d := if counted then c else c.(bodyBytes := c.bodyBytes + |chunks[0]|);
      StopCarriesOn(l, d, r, chunks);
      if !(l.maxRequestSize > 0 && d.bodyBytes > l.maxRequestSize) && Offer(r, chunks[0], false).Accepted? {
        var q := Offer(r, chunks[0], false).r;
        EmitCarriesOn(l, d, q, chunks[1..], false);
        CarriesOnLater(c, r, d, q, Emit(l, d, q, chunks[1..], false));
      } else {
        CarriesOnLater(c, r, d, r, Emit(l, c, r, chunks, counted));
      }
    }
  }

  lemma {:induction false} BodyLoopCarriesOn(l: Limits, c: Conn, r: Request)
    ensures CarriesOn(c, r, BodyLoop(l, c, r))
    decreases |c.buffer|, 0
  {
    var take := if |c.buffer| < c.remaining then |c.buffer| else c.remaining;
    if take > 0 {
      EmitCarriesOn(l, TakeOff(c, take).(remaining := c.remaining - take), r, [c.buffer[..take]], false);
    }
  }

  /** Whether the reader is about to end the exchange. */
  predicate Ending(c: Conn) {
    c.request.Some? && c.request.value.complete
    && (c.reader.Awaiting? || (c.reader.Top? && c.phase.Waiting?))
  }

  /** While an exchange is in flight and not ending, every step leaves it in flight. */
  lemma StepCarriesOn(l: Limits, c: Conn, e: Event)
    requires c.request.Some? && !c.closed && !(e.Read? && Ending(c)) && !e.Close?
    ensures SameExchange(c, Next(l, c, e))
  {
    hide Emit, BodyLoop, TryDrain;
    var r := c.request.value;
    match e {
      case Read(_) =>
        match c.reader {
          case Top =>
            if c.phase.Body? {
              BodyLoopCarriesOn(l, c, r);
            } else if c.phase.ChunkedBody? && c.decoder.Some? {
              var d := c.decoder.value;
              assert EatsOn(l.coding, [], d, c.buffer, l.maxRequestSize);
              var f := l.coding.feed(d, c.buffer, l.maxRequestSize);
              EmitCarriesOn(l, TakeOff(c, |c.buffer| - |f.rest|).(decoder := Some(f.next)), r, f.chunks, false);
            }
          case Emitting(chunks) => EmitCarriesOn(l, c, r, chunks, true);
          case _ =>
        }
      case Respond(_) => TryDrainCarriesOn(l, c);
      case _ =>
    }
  }

  // ----- Which messages may be followed by another ---------------------------------------------

  /** Only messages that allow it are followed by another exchange, and not too many. */
  ghost predicate Allowed(l: Limits, c: Conn) {
    && (forall i :: 0 <= i < |c.past| ==> l.parse(c.past[i]).Accept? && l.parse(c.past[i]).head.keepAlive)
    && |c.past| < MAX_REQUESTS && (!c.closed ==> c.served == |c.past|)
    && (!c.closed && c.request.Some? ==>
          var r := c.request.value;
          && r.headSize <= |c.current| && l.parse(c.current) == Accept(r.head, r.headSize)
          && (r.keepAlive ==> r.head.keepAlive))
  }

  lemma SameHeadLater(l: Limits, a: bytes, b: bytes)
    requires a <= b && l.parse(a).Accept?
    ensures l.parse(b) == l.parse(a)
  {
    assert b == a + b[|a|..];
    assert l.parse(a + b[|a|..]) == l.parse(a);
  }

  lemma StartIsAllowed(l: Limits, c: Conn)
    requires Allowed(l, c) && !c.closed && c.request.None? && c.current == [] && c.buffer != [] && l.parse(c.buffer).Accept?
    ensures var Accept(head, n) := l.parse(c.buffer);
            n <= |c.buffer| && TakeOff(c, n).current == c.buffer[..n] && l.parse(c.buffer[..n]) == Accept(head, n)
  {
  }

  lemma StepIsAllowed(l: Limits, c: Conn, e: Event)
    requires Inv(l, c) && Allowed(l, c)
    ensures Allowed(l, Next(l, c, e))
  {
    if c.closed || e.Close? {
    } else if c.request.None? {
      IdleIsAllowed(l, c, e);
    } else if e.Read? && Ending(c) {
      EndIsAllowed(l, c);
    } else {
      StepCarriesOn(l, c, e);
      hide Next, Inv;
      var d := Next(l, c, e);
      SameHeadLater(l, c.current, d.current);
    }
  }

  lemma IdleIsAllowed(l: Limits, c: Conn, e: Event)
    requires Inv(l, c) && Allowed(l, c) && !c.closed && c.request.None? && !e.Close?
    ensures Allowed(l, Next(l, c, e))
  {
    if e.Read? && c.reader.Top? && c.phase.Idle? && c.buffer != [] && l.parse(c.buffer).Accept? {
      StartIsAllowed(l, c);
    }
  }

  lemma EndIsAllowed(l: Limits, c: Conn)
    requires Allowed(l, c) && !c.closed && Ending(c)
    ensures Allowed(l, Next(l, c, Read(true)))
    ensures Next(l, c, Read(false)) == Next(l, c, Read(true))
  {
    hide Emit, BodyLoop;
    var d := RunReader(l, c, true);
    assert d == EndRequest(c, c.request.value);
  }

  /** In every run, only messages whose heads allow it are followed by another exchange on
      the connection, and fewer of them than a connection takes. */
  lemma {:induction false} OnlyReusableAreFollowed(l: Limits, events: seq<Event>)
    ensures var c := Exec(l, events);
            && (forall i :: 0 <= i < |c.past| ==> l.parse(c.past[i]).Accept? && l.parse(c.past[i]).head.keepAlive)
            && |c.past| < MAX_REQUESTS
    ensures Allowed(l, Exec(l, events))
  {
    if events != [] {
      var before := events[..|events| - 1];
      OnlyReusableAreFollowed(l, before);
      RunsKeepInv(l, before);
      hide Next, Inv;
      StepIsAllowed(l, Exec(l, before), events[|events| - 1]);
    }
  }

  // ----- Connections that are not to be used again ----------------------------------------------

  /** The connection is closed, or its last exchange is in flight. */
  predicate LastExchange(c: Conn) {
    c.closed || (c.request.Some? && !c.request.value.keepAlive)
  }

  /** From there on no message is past, and no other request is begun. */
  lemma {:induction false} NothingFollows(l: Limits, c: Conn, events: seq<Event>)
    requires LastExchange(c)
    ensures var d := ExecFrom(l, c, events);
            && LastExchange(d) && d.past == c.past
            && (!d.closed ==> !c.closed && d.request.value.head == c.request.value.head)
  {
    hide Next;
    if events != [] {
      var before, e := events[..|events| - 1], events[|events| - 1];
      NothingFollows(l, c, before);
      StepEndsOrCarriesOn(l, ExecFrom(l, c, before), e);
    }
  }

  lemma StepEndsOrCarriesOn(l: Limits, c: Conn, e: Event)
    requires LastExchange(c)
    ensures var d := Next(l, c, e);
            && LastExchange(d) && d.past == c.past
            && (!d.closed ==> !c.closed && d.request.value.head == c.request.value.head)
  {
    if !c.closed && !e.Close? && !(e.Read? && Ending(c)) {
      StepCarriesOn(l, c, e);
    }
  }

  /** It is the last exchange when its head does not allow another, when somebody says so, and
      when the answer is not to keep the connection. */
  lemma LastWhenToldSo(l: Limits, c: Conn)
    requires !c.closed
    ensures c.request.Some? ==> LastExchange(Next(l, c, Spoil))
    ensures c.request.Some? && !c.request.value.complete ==> LastExchange(Next(l, c, Respond(false)))
    ensures LastExchange(Next(l, c, Close))
    ensures c.request.None? && Next(l, c, Read(true)).request.Some? && !Next(l, c, Read(true)).request.value.head.keepAlive
            ==> LastExchange(Next(l, c, Read(true)))
  {
    hide TryDrain, Emit, BodyLoop;
  }

  /** And when it has been answered and the reader comes back, the connection closes. */
  lemma ClosesAfterLast(l: Limits, c: Conn, accept: bool)
    requires LastExchange(c) && Ending(c)
    ensures Next(l, c, Read(accept)).closed
  {
    hide Emit, BodyLoop;
  }

  // ----- Refusals ---------------------------------------------------------------------------------

  /** The reader has stopped without a request in flight, or the connection is closed. */
  predicate Stopped(c: Conn) {
    c.closed || (c.reader.Halted? && c.request.None?)
  }

  lemma {:induction false} StaysStopped(l: Limits, c: Conn, events: seq<Event>)
    requires Stopped(c) && !c.closed
    ensures var d := ExecFrom(l, c, events);
            Stopped(d) && d.request.None? && d.past == c.past && d.current == c.current && d.served == c.served
  {
    if events != [] {
      StaysStopped(l, c, events[..|events| - 1]);
    }
  }

  /** A head that is refused is the last that is read: in no continuation is anything taken, or
      a request begun. */
  lemma RefusalIsFinal(l: Limits, c: Conn, accept: bool, events: seq<Event>)
    requires Inv(l, c) && !c.closed && c.request.None? && c.buffer != [] && !c.reader.Halted?
    requires l.parse(c.buffer).Reject? || (l.parse(c.buffer).Accept? && !accept)
    ensures var d := Next(l, c, Read(accept));
            var e := ExecFrom(l, d, events);
            && !d.closed && Stopped(e) && e.request.None? && e.past == c.past && e.current == d.current && e.served == c.served
            && d.current == if l.parse(c.buffer).Accept? then c.buffer[..l.parse(c.buffer).n] else []
  {
    assert forall n :: 0 <= n <= |c.buffer| ==> [] + c.buffer[..n] == c.buffer[..n];
    var d := Next(l, c, Read(accept));
    assert Stopped(d);
    StaysStopped(l, d, events);
  }
}
