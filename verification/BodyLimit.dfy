/** No application is given more of a body than the configured size, and no more messages at
    once than its queue takes. */
module BodyLimit {
  import opened Wrappers
  import opened Bytes
  import opened Head
  import opened Connection
  import opened MessageBoundary

  /** What has been counted covers what has been handed over, and the chunk that comes next. */
  ghost predicate Covered(l: Limits, c: Conn, r: Request, next: nat) {
    r.queued <= QUEUE_SIZE && (l.maxRequestSize > 0 ==> |r.fed| + next <= c.bodyBytes <= l.maxRequestSize)
  }

  ghost predicate Bounded(l: Limits, c: Conn) {
    c.request.Some? ==>
      var r := c.request.value;
      && r.queued <= QUEUE_SIZE && (l.maxRequestSize > 0 ==> |r.fed| <= l.maxRequestSize)
      && match c.reader
         case Emitting(chunks) => chunks != [] && Covered(l, c, r, |chunks[0]|)
         case Halted => r.finished && !r.keepAlive
         case _ => Covered(l, c, r, 0)
  }

  lemma {:induction false} DrainCountsNothing(l: Limits, c: Conn, d: Decoder, budget: nat)
    ensures var e := DrainChunked(l, c, d, budget).1;
            e.bodyBytes == c.bodyBytes && e.reader == c.reader && e.request == c.request
    decreases |c.buffer|
  {
    if !d.done && c.buffer != [] {
      var n, e, more := DrainUnfolds(l, c, d, budget);
      if more {
        DrainCountsNothing(l, e, l.coding.feed(d, c.buffer, 0).next, budget - n);
      }
    }
  }

  lemma TryDrainCountsNothing(l: Limits, c: Conn)
    ensures var e := TryDrain(l, c).1;
            e.bodyBytes == c.bodyBytes && e.reader == c.reader && e.request == c.request
  {
    if c.phase.ChunkedBody? && c.decoder.Some? {
      DrainCountsNothing(l, c, c.decoder.value, MAX_DRAIN_BYTES);
    }
  }

  lemma AbandonStaysBounded(l: Limits, c: Conn, r: Request)
    requires Covered(l, c, r, 0)
    ensures Bounded(l, Abandon(l, c, r))
  {
    TryDrainCountsNothing(l, c);
    hide TryDrain;
  }

  lemma {:induction false} EmitStaysBounded(l: Limits, c: Conn, r: Request, chunks: seq<bytes>, counted: bool)
    requires counted ==> chunks != []
    requires Covered(l, c, r, if counted then |chunks[0]| else 0)
    ensures Bounded(l, Emit(l, c, r, chunks, counted))
    decreases |c.buffer|, 1 + |chunks|
  {
    hide Abandon;
    if chunks == [] {
      if c.phase.Body? {
        BodyLoopStaysBounded(l, c, r);
      }
    } else {
      var d := if counted then c else c.(bodyBytes := c.bodyBytes + |chunks[0]|);
      if l.maxRequestSize == 0 || d.bodyBytes <= l.maxRequestSize {
        match Offer(r, chunks[0], false) {
          case Accepted(q) => EmitStaysBounded(l, d, q, chunks[1..], false);
          case QueueFull =>
          case Gone => AbandonStaysBounded(l, d, r);
        }
      }
    }
  }

  lemma {:induction false} BodyLoopStaysBounded(l: Limits, c: Conn, r: Request)
    requires Covered(l, c, r, 0)
    ensures Bounded(l, BodyLoop(l, c, r))
    decreases |c.buffer|, 0
  {
    var take := if |c.buffer| < c.remaining then |c.buffer| else c.remaining;
    if take > 0 {
      EmitStaysBounded(l, TakeOff(c, take).(remaining := c.remaining - take), r, [c.buffer[..take]], false);
    }
  }

  lemma ReadStaysBounded(l: Limits, c: Conn, accept: bool)
    requires Bounded(l, c)
    ensures Bounded(l, RunReader(l, c, accept))
  {
    hide Emit, BodyLoop;
    if c.request.Some? {
      var r := c.request.value;
      match c.reader {
        case Top =>
          if c.phase.Body? {
            BodyLoopStaysBounded(l, c, r);
          } else if c.phase.ChunkedBody? && c.decoder.Some? {
            var d := c.decoder.value;
            assert EatsOn(l.coding, [], d, c.buffer, l.maxRequestSize);
            var f := l.coding.feed(d, c.buffer, l.maxRequestSize);
            EmitStaysBounded(l, TakeOff(c, |c.buffer| - |f.rest|).(decoder := Some(f.next)), r, f.chunks, false);
          }
        case Emitting(chunks) => EmitStaysBounded(l, c, r, chunks, true);
        case _ =>
      }
    }
  }

  lemma StepStaysBounded(l: Limits, c: Conn, e: Event)
    requires Bounded(l, c)
    ensures Bounded(l, Next(l, c, e))
  {
    hide RunReader, TryDrain;
    if !c.closed {
      match e {
        case Read(accept) => ReadStaysBounded(l, c, accept);
        case Respond(_) => TryDrainCountsNothing(l, c);
        case _ =>
      }
    }
  }

  /** In every run, the application has been given no more than the configured size, whatever
      the framing of the body and however it arrives, and its queue is never too long; a request
      that is refused in its body gets nothing more, and is the last one. */
  lemma {:induction false} NeverGivenTooMuch(l: Limits, events: seq<Event>)
    ensures Bounded(l, Exec(l, events))
    ensures var c := Exec(l, events);
            c.request.Some? ==>
              && c.request.value.queued <= QUEUE_SIZE
              && (c.reader.Halted? ==> c.request.value.finished && !c.request.value.keepAlive)
              && (l.maxRequestSize > 0 ==> |c.request.value.fed| <= l.maxRequestSize)
  {
    if events != [] {
      hide Next;
      var before := events[..|events| - 1];
      NeverGivenTooMuch(l, before);
      StepStaysBounded(l, Exec(l, before), events[|events| - 1]);
    }
  }
}
