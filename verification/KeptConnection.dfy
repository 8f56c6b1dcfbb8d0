/** What a client that sends whole requests one after the other can count on. */
module KeptConnection {
  import opened Wrappers
  import opened Bytes
  import opened Head
  import opened Connection
  import opened MessageBoundary
  import opened Progress
  import Chunked

  // ----- Requests that can be counted on ------------------------------------------------------

  lemma {:induction false} FewChunks(d: Decoder, buffer: bytes, max: nat)
    ensures var f := Chunked.Feed(d, buffer, max);
            var taken := |buffer| - |f.rest|;
            |f.chunks| <= taken && (taken == 0 ==> f.next == d)
    decreases |buffer|
  {
    var m := Chunked.Step(d, buffer, max);
    if m.Take? && !m.last {
      FewChunks(m.next, buffer[m.n..], max);
    }
  }

  /** A body in the chunked coding with short lines, and within the limit. */
  ghost predicate Readable(body: bytes, max: nat) {
    Chunked.WholeChunked(body) && Chunked.ShortLines(INITIAL, body, max) && Chunked.Feed(INITIAL, body, max).error.None?
  }

  /** Where a decoder is that has been fed the beginning of such a body. */
  lemma PartOfBody(body: bytes, a: bytes, d: Decoder, max: nat)
    requires Readable(body, max) && a <= body && Chunked.Eats(INITIAL, a, d) && !d.done
    ensures var left := body[|a|..];
            var f := Chunked.Feed(d, left, max);
            f.error.None? && f.next.done && f.rest == [] && Chunked.ShortLines(d, left, max)
  {
    hide Chunked.Feed, Chunked.ShortLines;
    var left := body[|a|..];
    assert body == a + left && [] + left == left;
    Chunked.FeedPrefix(INITIAL, a, left, max);
    Chunked.FeedWithoutLimit(INITIAL, a, max);
    Chunked.FeedWithoutLimit(INITIAL, body, max);
    Chunked.FeedTwice(INITIAL, a, left, max);
  }

  lemma FeedShort(d: Decoder, left: bytes, buffer: bytes, max: nat)
    requires !d.done && buffer <= left && Chunked.ShortLines(d, left, max)
    requires var f := Chunked.Feed(d, left, max); f.error.None? && f.next.done && f.rest == []
    ensures var f := Chunked.Feed(d, buffer, max);
            f.error.None? && (f.next.done ==> f.rest == [] && buffer == left) && (buffer == left ==> f.next.done)
  {
    hide Chunked.Feed, Chunked.ShortLines;
    var z := left[|buffer|..];
    assert left == buffer + z;
    Chunked.FeedPrefix(d, buffer, z, max);
    Chunked.FeedTwice(d, buffer, z, max);
  }

  lemma FeedBeyond(d: Decoder, left: bytes, z: bytes, max: nat)
    requires !d.done
    requires var f := Chunked.Feed(d, left, max); f.error.None? && f.next.done && f.rest == []
    ensures var f := Chunked.Feed(d, left + z, max); f.error.None? && f.next.done && f.rest == z
  {
    hide Chunked.Feed, Chunked.Joins;
    Chunked.FeedTwice(d, left, z, max);
    assert [] + z == z;
  }

  /** Fed with a buffer that begins what is left of the body, or goes beyond it, the decoder
      goes on, takes nothing behind the body, and is done exactly when it has all of it. */
  ghost predicate FeedsOn(body: bytes, a: bytes, d: Decoder, buffer: bytes, max: nat) {
    a <= body && Chunked.Eats(INITIAL, a, d) && !d.done && (buffer <= body[|a|..] || body[|a|..] <= buffer) ==>
      var f, left := Chunked.Feed(d, buffer, max), |body| - |a|;
      && f.error.None?
      && var taken := |buffer| - |f.rest|;
         && taken <= left && (left <= |buffer| ==> f.next.done) && (f.next.done ==> taken == left)
         && |f.chunks| <= taken && (taken == 0 ==> f.next == d)
  }

  lemma ReadableFeeds(body: bytes, a: bytes, d: Decoder, buffer: bytes, max: nat)
    requires Readable(body, max)
    ensures FeedsOn(body, a, d, buffer, max)
  {
    hide Chunked.Feed, Chunked.ShortLines, Readable, Chunked.Eats;
    if a <= body && Chunked.Eats(INITIAL, a, d) && !d.done {
      var left := body[|a|..];
      PartOfBody(body, a, d, max);
      FewChunks(d, buffer, max);
      if buffer <= left {
        FeedShort(d, left, buffer, max);
      } else if left <= buffer {
        assert buffer == left + buffer[|left|..];
        FeedBeyond(d, left, buffer[|left|..], max);
      }
    }
  }

  lemma FeedsOnThrough(cfg: Config, body: bytes, a: bytes, d: Decoder, buffer: bytes)
    ensures FeedsThrough(ServerLimits(cfg), body, a, d, buffer) == FeedsOn(body, a, d, buffer, cfg.maxRequestSize)
  {
    hide Chunked.Feed, Chunked.Eats;
    var l := ServerLimits(cfg);
    assert l.coding.eats(a, d) == Chunked.Eats(INITIAL, a, d);
    assert l.coding.feed(d, buffer, l.maxRequestSize) == Chunked.Feed(d, buffer, l.maxRequestSize);
  }

  /** The bodies that the decoder reads however they are cut are those with short lines, and
      within the limit. */
  lemma SteadyIff(cfg: Config, body: bytes)
    requires Chunked.WholeChunked(body)
    ensures Steady(ServerLimits(cfg), body) <==> Readable(body, cfg.maxRequestSize)
  {
    var l, max := ServerLimits(cfg), cfg.maxRequestSize;
    hide Chunked.Feed, Chunked.ShortLines, Chunked.WholeChunked, FeedsThrough;
    assert l.coding.whole(body);
    if Readable(body, max) {
      forall a, d, buffer ensures FeedsThrough(l, body, a, d, buffer) {
        ReadableFeeds(body, a, d, buffer, max);
        FeedsOnThrough(cfg, body, a, d, buffer);
      }
      forall a | l.coding.whole(a) && a <= body ensures a == body {
        assert body == a + body[|a|..];
        Chunked.WholeChunkedIsPrefixFree(a, body[|a|..]);
      }
    } else if Steady(l, body) {
      StartFeeds(cfg, body, body);
      var k := Chunked.FindCut(INITIAL, body, max);
      StartFeeds(cfg, body, body[..k]);
      assert false;
    }
  }

  lemma StartFeeds(cfg: Config, body: bytes, buffer: bytes)
    requires Steady(ServerLimits(cfg), body) && buffer <= body
    ensures Chunked.Feed(INITIAL, buffer, cfg.maxRequestSize).error.None?
  {
    hide Chunked.Feed;
    var l := ServerLimits(cfg);
    assert body[0..] == body;
    assert FeedsThrough(l, body, [], INITIAL, buffer);
    assert l.coding.eats([], INITIAL);
    assert l.coding.feed(INITIAL, buffer, l.maxRequestSize) == Chunked.Feed(INITIAL, buffer, l.maxRequestSize);
  }

  /** A whole request that is accepted, does not ask for the connection to be closed, and has
      a body within the limits. */
  ghost predicate GoodRequest(cfg: Config, m: bytes) {
    var o := ParseHead(cfg, m);
    o.Accept? && o.n <= |m| && o.head.keepAlive &&
    var body := m[o.n..];
    var max := cfg.maxRequestSize;
    if o.head.chunked then Readable(body, max) && (max > 0 ==> |Chunked.Payload(body)| <= max)
    else |body| == (if o.head.contentLength.Some? then o.head.contentLength.value else 0) && (max > 0 ==> |body| <= max)
  }

  lemma GoodIsKeepable(cfg: Config, m: bytes)
    ensures Keepable(ServerLimits(cfg), m) <==> GoodRequest(cfg, m)
  {
    var l := ServerLimits(cfg);
    hide ParseHead, Chunked.Feed, Chunked.ShortLines, Chunked.WholeChunked, Steady, Readable, Chunked.Payload;
    assert l.parse(m) == ParseHead(cfg, m);
    var o := ParseHead(cfg, m);
    if o.Accept? {
      AcceptTakesHead(cfg, m);
      var body := m[o.n..];
      assert l.coding.whole(body) == Chunked.WholeChunked(body) && l.coding.content(body) == Chunked.Payload(body);
      if Chunked.WholeChunked(body) {
        SteadyIff(cfg, body);
      }
      ReadableIsWhole(body, cfg.maxRequestSize);
    }
  }

  lemma ReadableIsWhole(body: bytes, max: nat)
    ensures Readable(body, max) ==> Chunked.WholeChunked(body)
  {
  }

  // ----- Runs in which everybody does their part ----------------------------------------------

  /** Every event is a step of somebody who does their part. */
  ghost predicate Together(l: Limits, events: seq<Event>) {
    events == [] ||
    var before := events[..|events| - 1];
    Together(l, before) && Fits(Exec(l, before), events[|events| - 1])
  }

  /** What the client sends: whole requests that can be counted on, fewer than a connection
      takes, and then what is not yet another head. */
  ghost predicate Sends(cfg: Config, ms: seq<bytes>, rest: bytes) {
    && |ms| < MAX_REQUESTS && (forall i :: 0 <= i < |ms| ==> GoodRequest(cfg, ms[i]))
    && (rest != [] ==> ParseHead(cfg, rest).NeedMore?)
  }

  lemma SendsComing(cfg: Config, ms: seq<bytes>, rest: bytes)
    requires Sends(cfg, ms, rest)
    ensures Coming(ServerLimits(cfg), ms, rest)
  {
    var l := ServerLimits(cfg);
    hide Keepable, GoodRequest, ParseHead;
    forall i | 0 <= i < |ms| ensures Keepable(l, ms[i]) {
      GoodIsKeepable(cfg, ms[i]);
    }
    assert l.parse(rest) == ParseHead(cfg, rest);
  }

  lemma {:induction false} RunGoes(l: Limits, events: seq<Event>, ms: seq<bytes>, rest: bytes)
    requires Coming(l, ms, rest) && Together(l, events) && Arrived(events) <= Flat(ms) + rest
    ensures Going(l, Exec(l, events), ms, rest)
  {
    hide Coming, Keepable, Inv, GoesWell, Next, Fits;
    if events == [] {
      StartGoing(l, ms, rest);
    } else {
      var before, e := events[..|events| - 1], events[|events| - 1];
      assert Arrived(before) <= Arrived(events);
      RunGoes(l, before, ms, rest);
      InputIsArrived(l, before);
      if e.Arrive? {
        ArrivalGoes(l, Exec(l, before), e.data, ms, rest);
      } else {
        StepGoes(l, Exec(l, before), e, ms, rest);
      }
    }
  }

  lemma StartGoing(l: Limits, ms: seq<bytes>, rest: bytes)
    ensures Going(l, START, ms, rest)
  {
    assert Flat([]) + [] + [] == [];
  }

  /** Nobody who does their part can change anything before more arrives. */
  ghost predicate Settled(l: Limits, c: Conn) {
    forall e {:trigger Fits(c, e)} :: Fits(c, e) && !e.Arrive? ==> Next(l, c, e) == c
  }

  /** Everything has arrived: what has not been read of the messages is in the buffer. */
  lemma AllIsThere(l: Limits, c: Conn, ms: seq<bytes>, rest: bytes)
    requires Going(l, c, ms, rest) && c.input == Flat(ms) + rest
    ensures c.current + c.buffer == After(ms, c.served, rest)
  {
    hide GoesWell, After;
    AfterAll(ms, c.served, rest);
    ConcatAssoc(Flat(c.past), c.current, c.buffer);
    SameEnd(Flat(c.past), c.current + c.buffer, After(ms, c.served, rest));
  }

  lemma SameEnd(p: bytes, x: bytes, y: bytes)
    requires p + x == p + y
    ensures x == y
  {
    assert x == (p + x)[|p|..] && y == (p + y)[|p|..];
  }

  /** An idle connection on which nothing can change has read all the messages. */
  lemma IdleIsDone(l: Limits, c: Conn, ms: seq<bytes>, rest: bytes)
    requires Coming(l, ms, rest) && Going(l, c, ms, rest) && c.input == Flat(ms) + rest
    requires Settled(l, c) && c.request.None?
    ensures c.phase.Idle? && c.past == ms && c.buffer == rest
  {
    hide Coming, Inv, Settled, StepsOn, StartRequest, RunReader, Keepable, After, Flat;
    IdleKnows(l, c);
    AllIsThere(l, c, ms, rest);
    assert [] + c.buffer == c.buffer;
    if c.served < |ms| {
      AfterNext(ms, c.served, rest);
      NextIsKeepable(l, ms, c.served, rest);
      KeepableHead(l, ms[c.served]);
      StartGoes(l, c, ms, rest);
      CannotRead(l, c);
      assert false;
    }
    NothingAfter(ms, rest);
    assert ms[..|ms|] == ms;
  }

  lemma NothingAfter(ms: seq<bytes>, rest: bytes)
    ensures After(ms, |ms|, rest) == rest
  {
    assert Flat(ms[|ms|..]) + rest == rest;
  }

  lemma IdleKnows(l: Limits, c: Conn)
    requires Inv(l, c) && !c.closed && !c.reader.Halted? && c.request.None?
    ensures c.current == [] && c.phase.Idle? && RunReader(l, c, true) == StartRequest(l, c, true)
  {
  }

  lemma CannotRead(l: Limits, c: Conn)
    requires Settled(l, c) && !c.closed
    ensures RunReader(l, c, true) == c
  {
    assert Fits(c, Read(true));
  }

  lemma CannotReceive(l: Limits, c: Conn, r: Request)
    requires Settled(l, c) && !c.closed && c.request == Some(r)
    ensures r.queued == 0
  {
    assert Fits(c, Receive);
  }

  /** As long as a request is in flight, somebody can do something. */
  lemma SomethingToDo(l: Limits, c: Conn, r: Request, ms: seq<bytes>, rest: bytes)
    requires Coming(l, ms, rest) && Going(l, c, ms, rest) && c.input == Flat(ms) + rest && c.request == Some(r)
    ensures !Settled(l, c)
  {
    if Settled(l, c) {
      WellKnows(l, c, r, ms, rest);
      CannotRead(l, c);
      CannotReceive(l, c, r);
      hide Coming, Inv, Keepable, Settled, EmitReady, InChunks, ReaderOk, Tracked, Emit, Finish, EndRequest, ReadChunked, BodyLoop;
      if c.phase.Waiting? {
        WaitingGoes(l, c, r, ms, rest);
        AnswerIsPossible(l, c, r, ms, rest);
      } else if c.reader.Emitting? {
        HandingGoes(l, c, r, ms, rest);
      } else if c.reader.Finishing? {
        EndGoes(l, c, r, ms, rest);
      } else {
        BodyIsThere(l, c, r, ms, rest);
        if c.phase.Body? {
          BodyGoes(l, c, r, ms, rest);
        } else {
          ChunksGo(l, c, r, ms, rest);
        }
      }
      assert false;
    }
  }

  lemma AnswerIsPossible(l: Limits, c: Conn, r: Request, ms: seq<bytes>, rest: bytes)
    requires Settled(l, c) && Going(l, c, ms, rest) && c.request == Some(r) && r.queued == 0 && r.ended
    ensures r.complete
  {
    assert Fits(c, Respond(true));
    if !r.complete {
      RespondGoes(l, c, ms, rest);
    }
  }

  /** A reader in the middle of a body has bytes of it to read. */
  lemma BodyIsThere(l: Limits, c: Conn, r: Request, ms: seq<bytes>, rest: bytes)
    requires Going(l, c, ms, rest) && c.input == Flat(ms) + rest && c.request == Some(r)
    requires c.reader.Top? && (c.phase.Body? || c.phase.ChunkedBody?)
    ensures 0 < |ms[c.served]| - |c.current| <= |c.buffer|
  {
    var m := ms[c.served];
    WellKnows(l, c, r, ms, rest);
    AllIsThere(l, c, ms, rest);
    AfterNext(ms, c.served, rest);
    SameHead(l, c, r, m);
    if c.phase.Body? {
      BodyHasRoom(l, c, r, m);
    } else {
      ChunksAreMissing(l, c, r, m, After(ms, c.served, rest));
    }
  }

  /** A decoder that has not seen the end has not been fed the whole body. */
  lemma ChunksAreMissing(l: Limits, c: Conn, r: Request, m: bytes, t: bytes)
    requires InChunks(l, c, r) && OnWay(l, c, r, m, t)
    ensures |c.current| < |m|
  {
    InChunksKnows(l, c, r);
    SameHead(l, c, r, m);
    hide Accounted, Content, Tracked, ReaderOk, Delivered;
    var a, body := BodyTaken(c, r), m[r.headSize..];
    assert FeedsThrough(l, body, a, c.decoder.value, []);
  }

  /** So a connection on which nothing can change has read and answered all the messages. */
  lemma SettledIsDone(l: Limits, c: Conn, ms: seq<bytes>, rest: bytes)
    requires Coming(l, ms, rest) && Going(l, c, ms, rest) && c.input == Flat(ms) + rest && Settled(l, c)
    ensures c.request.None? && c.phase.Idle? && c.past == ms && c.buffer == rest
  {
    if c.request.Some? {
      SomethingToDo(l, c, c.request.value, ms, rest);
      assert false;
    } else {
      IdleIsDone(l, c, ms, rest);
    }
  }

  // ----- Main results ---------------------------------------------------------------------------

  /** However the bytes of these requests are cut, and however the steps of the reader, the
      writer and the application are interleaved: the connection stays open, the messages
      are read one after the other, and once everything has arrived and nobody can do
      anything more, all of them have been read, and nothing else. */
  lemma KeptConnectionGoesOn(cfg: Config, events: seq<Event>, ms: seq<bytes>, rest: bytes)
    requires Sends(cfg, ms, rest)
    requires Together(ServerLimits(cfg), events) && Arrived(events) <= Flat(ms) + rest
    ensures var l := ServerLimits(cfg);
            var c := Exec(l, events);
            && !c.closed && !c.reader.Halted? && c.past <= ms && c.served == |c.past|
            && (c.request.Some? ==> c.request.value.keepAlive && |c.past| < |ms| && c.current <= ms[|c.past|])
            && (Arrived(events) == Flat(ms) + rest && Settled(l, c) ==>
                  c.request.None? && c.phase.Idle? && c.past == ms && c.buffer == rest)
  {
    var l := ServerLimits(cfg);
    hide Sends, Settled, Inv, Keepable;
    SendsComing(cfg, ms, rest);
    RunGoes(l, events, ms, rest);
    InputIsArrived(l, events);
    var c := Exec(l, events);
    if Arrived(events) == Flat(ms) + rest && Settled(l, c) {
      SettledIsDone(l, c, ms, rest);
    }
  }

  /** Steps in which nothing arrives, and each of which changes something. */
  ghost predicate Busy(l: Limits, events: seq<Event>, more: seq<Event>) {
    more == [] ||
    var before, e := more[..|more| - 1], more[|more| - 1];
    var c := Exec(l, events + before);
    Busy(l, events, before) && Fits(c, e) && !e.Arrive? && Next(l, c, e) != c
  }

  lemma OneMore(l: Limits, events: seq<Event>, e: Event)
    ensures Exec(l, events + [e]) == Next(l, Exec(l, events), e)
    ensures Arrived(events + [e]) == Arrived(events) + if e.Arrive? then e.data else []
    ensures Together(l, events) && Fits(Exec(l, events), e) ==> Together(l, events + [e])
  {
    assert (events + [e])[..|events + [e]| - 1] == events;
  }

  /** They stay in the course of things, and there is no end of them before long. */
  lemma {:induction false} BusyEnds(l: Limits, events: seq<Event>, more: seq<Event>, ms: seq<bytes>, rest: bytes)
    requires Coming(l, ms, rest) && Together(l, events) && Arrived(events) <= Flat(ms) + rest && Busy(l, events, more)
    ensures Together(l, events + more) && Arrived(events + more) == Arrived(events)
    ensures |more| + Work(Exec(l, events + more)) <= Work(Exec(l, events))
  {
    hide Coming, Work, Next, Fits, Going;
    if more == [] {
      assert events + more == events;
    } else {
      var before, e := more[..|more| - 1], more[|more| - 1];
      BusyEnds(l, events, before, ms, rest);
      assert events + more == events + before + [e];
      OneMore(l, events + before, e);
      RunGoes(l, events + before, ms, rest);
      StepGoes(l, Exec(l, events + before), e, ms, rest);
    }
  }

  /** From wherever such a run has got to, it can be brought to its end. */
  lemma {:induction false} BusyToTheEnd(l: Limits, events: seq<Event>, ms: seq<bytes>, rest: bytes) returns (more: seq<Event>)
    requires Coming(l, ms, rest) && Together(l, events) && Arrived(events) <= Flat(ms) + rest
    ensures Busy(l, events, more) && Settled(l, Exec(l, events + more))
    decreases Work(Exec(l, events))
  {
    hide Coming, Work, Next, Fits, Going;
    var c := Exec(l, events);
    more := [];
    assert events + [] == events;
    if !Settled(l, c) {
      var e :| Fits(c, e) && !e.Arrive? && Next(l, c, e) != c;
      RunGoes(l, events, ms, rest);
      StepGoes(l, c, e, ms, rest);
      OneMore(l, events, e);
      var later := BusyToTheEnd(l, events + [e], ms, rest);
      BusyBefore(l, events, e, later);
      more := [e] + later;
      assert events + more == events + [e] + later;
    }
  }

  lemma {:induction false} BusyBefore(l: Limits, events: seq<Event>, e: Event, later: seq<Event>)
    requires Busy(l, events + [e], later)
    requires var c := Exec(l, events); Fits(c, e) && !e.Arrive? && Next(l, c, e) != c
    ensures Busy(l, events, [e] + later)
  {
    hide Next, Fits, Exec;
    var more := [e] + later;
    if later == [] {
      assert more == [e] && events + [] == events && Busy(l, events, []);
      assert more[..0] == [];
    } else {
      var before := later[..|later| - 1];
      BusyBefore(l, events, e, before);
      assert more[..|more| - 1] == [e] + before;
      assert events + ([e] + before) == events + [e] + before;
    }
  }

  /** After any such run in which everything has arrived, every sequence of steps that
      change something is short, and one of them ends with all the messages read: open,
      idle, and with the rest in the buffer. */
  lemma KeptConnectionFinishes(cfg: Config, events: seq<Event>, ms: seq<bytes>, rest: bytes) returns (more: seq<Event>)
    requires Sends(cfg, ms, rest)
    requires Together(ServerLimits(cfg), events) && Arrived(events) == Flat(ms) + rest
    ensures var l := ServerLimits(cfg);
            && (forall steps :: Busy(l, events, steps) ==> |steps| <= Work(Exec(l, events)))
            && Busy(l, events, more) && Together(l, events + more)
            && var c := Exec(l, events + more);
               !c.closed && c.request.None? && c.phase.Idle? && c.past == ms && c.buffer == rest
  {
    var l := ServerLimits(cfg);
    hide Sends, Settled, Going, Work, Coming;
    SendsComing(cfg, ms, rest);
    forall steps | Busy(l, events, steps) ensures |steps| <= Work(Exec(l, events)) {
      BusyEnds(l, events, steps, ms, rest);
    }
    more := BusyToTheEnd(l, events, ms, rest);
    BusyEnds(l, events, more, ms, rest);
    KeptConnectionGoesOn(cfg, events + more, ms, rest);
  }

  // ----- An answer before the whole body has been read -----------------------------------------

  lemma {:induction false} ShortWithoutLimit(d: Decoder, b: bytes, max: nat)
    requires Chunked.Feed(d, b, max).error.None? && Chunked.ShortLines(d, b, max)
    ensures Chunked.ShortLines(d, b, 0)
    decreases |b|
  {
    Chunked.StepWithoutLimit(d, b, max);
    var m := Chunked.Step(d, b, max);
    if m.Take? && !m.last {
      ShortWithoutLimit(m.next, b[m.n..], max);
    }
  }

  lemma ReadableWithoutLimit(body: bytes, max: nat)
    requires Readable(body, max)
    ensures Readable(body, 0)
  {
    ShortWithoutLimit(INITIAL, body, max);
    Chunked.FeedWithoutLimit(INITIAL, body, max);
  }

  /** Where the decoder is in the body, and what of it is in the buffer. */
  ghost predicate InBody(body: bytes, c: Conn, a: bytes, d: Decoder) {
    && Readable(body, 0) && a <= body && Chunked.Eats(INITIAL, a, d) && (d.done ==> a == body)
    && (c.buffer <= body[|a|..] || body[|a|..] <= c.buffer)
  }

  /** Draining takes exactly the rest of the body, if all of it is at hand, and short enough. */
  ghost predicate DrainsRest(l: Limits, c: Conn, d: Decoder, left: nat, budget: nat) {
    var (whole, e) := DrainChunked(l, c, d, budget);
    && (whole <==> left <= |c.buffer| && left <= budget)
    && (whole ==> e == TakeOff(c, left).(decoder := e.decoder))
  }

  lemma DrainsFurther(l: Limits, c: Conn, d: Decoder, left: nat, n: nat, budget: nat, e: Conn, next: Decoder)
    requires n <= |c.buffer| && n <= left && n <= budget && e == TakeOff(c, n).(decoder := Some(next))
    requires DrainsRest(l, e, next, left - n, budget - n)
    requires DrainChunked(l, c, d, budget) == DrainChunked(l, e, next, budget - n)
    ensures DrainsRest(l, c, d, left, budget)
  {
    hide DrainChunked;
    if left <= |c.buffer| {
      var b := c.buffer;
      assert b[n..][left - n..] == b[left..];
      assert b[..left] == b[..n] + b[n..][..left - n];
      ConcatAssoc(c.current, b[..n], b[n..][..left - n]);
    }
  }

  lemma EatenOn(body: bytes, c: Conn, a: bytes, d: Decoder, n: nat, next: Decoder)
    requires InBody(body, c, a, d) && !d.done
    requires var f := Chunked.Feed(d, c.buffer, 0); n == |c.buffer| - |f.rest| && next == f.next
    ensures n <= |body| - |a| && Chunked.Feed(d, c.buffer, 0).error.None?
    ensures InBody(body, TakeOff(c, n).(decoder := Some(next)), a + c.buffer[..n], next)
    ensures |body| - |a| <= |c.buffer| ==> n == |body| - |a|
  {
    hide Chunked.Feed, Chunked.Eats, Readable;
    var left := body[|a|..];
    ReadableFeeds(body, a, d, c.buffer, 0);
    assert FeedsOn(body, a, d, c.buffer, 0);
    Chunked.FeedEats(a, d, c.buffer, 0);
    assert c.buffer[..n] == left[..n];
    assert a + c.buffer[..n] == body[..|a| + n];
    assert body[|a| + n..] == left[n..];
  }

  lemma NothingToDrain(l: Limits, c: Conn, body: bytes, a: bytes, d: Decoder, budget: nat)
    requires InBody(body, c, a, d) && (d.done || c.buffer == [])
    ensures DrainsRest(l, c, d, |body| - |a|, budget)
  {
    hide Chunked.Eats, Readable;
    NotDoneYet(body, c, a, d);
    assert d.done ==> |body| == |a|;
    hide InBody;
    assert c.current + [] == c.current && c.buffer[0..] == c.buffer;
  }

  lemma {:induction false} DrainIff(cfg: Config, c: Conn, body: bytes, a: bytes, d: Decoder, budget: nat)
    requires InBody(body, c, a, d)
    ensures DrainsRest(ServerLimits(cfg), c, d, |body| - |a|, budget)
    decreases |c.buffer|
  {
    hide Chunked.Feed, InBody, DrainsRest, DrainChunked;
    var l := ServerLimits(cfg);
    if d.done || c.buffer == [] {
      NothingToDrain(l, c, body, a, d, budget);
    } else {
      var n, e, more := DrainUnfolds(l, c, d, budget);
      var next := l.coding.feed(d, c.buffer, 0).next;
      assert l.coding.feed(d, c.buffer, 0) == Chunked.Feed(d, c.buffer, 0);
      EatenOn(body, c, a, d, n, next);
      if more {
        DrainIff(cfg, e, body, a + c.buffer[..n], next, budget - n);
        DrainsFurther(l, c, d, |body| - |a|, n, budget, e, next);
      } else {
        CannotDrain(l, c, body, a, d, n, budget, e);
      }
    }
  }

  lemma NotDoneYet(body: bytes, c: Conn, a: bytes, d: Decoder)
    requires InBody(body, c, a, d)
    ensures !d.done ==> |a| < |body|
  {
    hide Chunked.Feed, Chunked.Eats, Readable;
    if !d.done {
      ReadableFeeds(body, a, d, [], 0);
      assert FeedsOn(body, a, d, [], 0);
    }
  }

  lemma CannotDrain(l: Limits, c: Conn, body: bytes, a: bytes, d: Decoder, n: nat, budget: nat, e: Conn)
    requires InBody(body, c, a, d) && !d.done && !(0 < n <= budget)
    requires DrainChunked(l, c, d, budget) == (false, e) && n <= |body| - |a|
    requires |body| - |a| <= |c.buffer| ==> n == |body| - |a|
    ensures DrainsRest(l, c, d, |body| - |a|, budget)
  {
    hide DrainChunked, InBody;
    NotDoneYet(body, c, a, d);
  }

  /** What is left of the body is dropped if it is at hand and short enough, and only then. */
  ghost predicate Drops(l: Limits, c: Conn, left: nat) {
    var (whole, e) := TryDrain(l, c);
    && (whole <==> left <= |c.buffer| && left <= MAX_DRAIN_BYTES)
    && (whole ==> e.(remaining := 0, decoder := None) == TakeOff(c, left).(remaining := 0, decoder := None))
  }

  lemma DrainsSized(l: Limits, c: Conn, r: Request, m: bytes)
    requires HeadTaken(l, c, r) && Tracked(l, c, r) && c.phase.Body? && c.current <= m && Keepable(l, m)
    ensures Drops(l, c, |m| - |c.current|)
  {
    BodyHasRoom(l, c, r, m);
    hide HeadTaken, Tracked, Keepable;
    assert c.current + [] == c.current;
  }

  lemma DrainsChunks(cfg: Config, c: Conn, r: Request, m: bytes, t: bytes)
    requires var l := ServerLimits(cfg); HeadTaken(l, c, r) && Tracked(l, c, r) && OnWay(l, c, r, m, t)
    requires GoodRequest(cfg, m) && c.phase.ChunkedBody?
    ensures Drops(ServerLimits(cfg), c, |m| - |c.current|)
  {
    hide OnWay, HeadTaken, Tracked, GoodRequest, InBody, DrainChunked;
    var body, a := WhereInBody(cfg, c, r, m, t);
    DrainIff(cfg, c, body, a, c.decoder.value, MAX_DRAIN_BYTES);
    RestDrops(ServerLimits(cfg), c, |m| - |c.current|);
  }

  lemma RestDrops(l: Limits, c: Conn, left: nat)
    requires c.phase.ChunkedBody? && c.decoder.Some? && DrainsRest(l, c, c.decoder.value, left, MAX_DRAIN_BYTES)
    ensures Drops(l, c, left)
  {
    hide DrainChunked;
  }

  lemma WhereInBody(cfg: Config, c: Conn, r: Request, m: bytes, t: bytes) returns (body: bytes, a: bytes)
    requires var l := ServerLimits(cfg); HeadTaken(l, c, r) && Tracked(l, c, r) && OnWay(l, c, r, m, t)
    requires GoodRequest(cfg, m) && c.phase.ChunkedBody?
    ensures c.decoder.Some? && |body| - |a| == |m| - |c.current| && |c.current| <= |m|
    ensures InBody(body, c, a, c.decoder.value)
  {
    hide Chunked.Feed, Chunked.Eats, Readable, FeedsThrough, Accounted, Content, Chunked.WholeChunked;
    var l := ServerLimits(cfg);
    SameHead(l, c, r, m);
    BeginAlike(l, c, r, m, t);
    var d := c.decoder.value;
    body, a := m[r.headSize..], BodyTaken(c, r);
    assert l.parse(m) == ParseHead(cfg, m);
    hide ParseHead;
    ReadableWithoutLimit(body, cfg.maxRequestSize);
    assert body[|a|..] == m[|c.current|..];
    assert l.coding.eats(a, d) == Chunked.Eats(INITIAL, a, d);
    if d.done {
      assert l.coding.whole(a);
    }
  }

  /** The state right after an answer that came when `left` bytes of the message were left. */
  ghost predicate Answered(l: Limits, c: Conn, r: Request, d: Conn, left: nat) {
    && Inv(l, d) && !d.closed && d.phase.Waiting? && d.request.Some?
    && (d.reader, d.served, d.past, d.bodyBytes) == (c.reader, c.served, c.past, c.bodyBytes)
    && var q := d.request.value;
       && q.complete && q.finished && q.fed == r.fed
       && (q.keepAlive <==> left <= |c.buffer| && left <= MAX_DRAIN_BYTES)
       && (q.keepAlive ==> d.remaining == 0 && d.current == c.current + c.buffer[..left] && d.buffer == c.buffer[left..])
  }

  lemma AnsweredInBody(l: Limits, c: Conn, r: Request, left: nat)
    requires Inv(l, c) && !c.closed && c.request == Some(r) && !r.complete && r.keepAlive && !c.reader.Halted?
    requires c.phase.Body? || c.phase.ChunkedBody?
    requires HeadTaken(l, c, r) && Tracked(l, c, r) && Accounted(l, c)
    requires Drops(l, c, left)
    ensures Answered(l, c, r, Next(l, c, Respond(true)), left)
  {
    NextKeepsInv(l, c, Respond(true));
    TryDrainDrains(l, c, r);
    hide Inv, HeadTaken, Tracked, Accounted, TryDrain, Content, WholeBody;
  }

  lemma AnsweredWaiting(l: Limits, c: Conn, r: Request)
    requires Inv(l, c) && !c.closed && c.request == Some(r) && !r.complete && r.keepAlive && !c.reader.Halted?
    requires c.phase.Waiting? && HeadTaken(l, c, r) && Tracked(l, c, r)
    ensures Answered(l, c, r, Next(l, c, Respond(true)), 0)
  {
    NextKeepsInv(l, c, Respond(true));
    hide Inv, WholeBody;
    assert c.current + [] == c.current;
  }

  /** What is known of a request in flight. */
  lemma InFlight(cfg: Config, c: Conn, r: Request, ms: seq<bytes>, rest: bytes)
    requires Sends(cfg, ms, rest) && Going(ServerLimits(cfg), c, ms, rest) && c.request == Some(r)
    ensures c.served < |ms| < MAX_REQUESTS && |c.current| <= |ms[c.served]| && c.current <= ms[c.served]
    ensures GoodRequest(cfg, ms[c.served])
    ensures var l, m := ServerLimits(cfg), ms[c.served];
            && Inv(l, c) && !c.closed && !c.reader.Halted? && !c.phase.Idle? && r.keepAlive && c.past == ms[..c.served]
            && Keepable(l, m) && OnWay(l, c, r, m, After(ms, c.served, rest))
            && HeadTaken(l, c, r) && Tracked(l, c, r) && Accounted(l, c)
            && (c.reader.Emitting? ==> c.reader.chunks != [])
  {
    var l := ServerLimits(cfg);
    WellKnows(l, c, r, ms, rest);
    GoingAccounts(l, c, ms, rest);
    hide Inv, GoodRequest, Keepable, ReaderOk, EmitReady, InChunks, HeadTaken, Tracked, Accounted, After;
  }

  lemma AnswerComes(cfg: Config, c: Conn, r: Request, ms: seq<bytes>, rest: bytes)
    requires Sends(cfg, ms, rest) && Going(ServerLimits(cfg), c, ms, rest) && c.request == Some(r) && !r.complete
    ensures c.served < |ms| && |c.current| <= |ms[c.served]|
    ensures Answered(ServerLimits(cfg), c, r, Next(ServerLimits(cfg), c, Respond(true)), |ms[c.served]| - |c.current|)
  {
    hide Sends, Inv, GoodRequest, Keepable, Answered, HeadTaken, Tracked, Accounted, Drops, After, Going, OnWay;
    var l := ServerLimits(cfg);
    InFlight(cfg, c, r, ms, rest);
    var m, t := ms[c.served], After(ms, c.served, rest);
    if c.phase.Waiting? {
      WaitingHasAll(l, c, r, ms, rest);
      AnsweredWaiting(l, c, r);
    } else if c.phase.Body? {
      DrainsSized(l, c, r, m);
      AnsweredInBody(l, c, r, |m| - |c.current|);
    } else {
      DrainsChunks(cfg, c, r, m, t);
      AnsweredInBody(l, c, r, |m| - |c.current|);
    }
  }

  lemma GoingAccounts(l: Limits, c: Conn, ms: seq<bytes>, rest: bytes)
    requires Going(l, c, ms, rest)
    ensures Accounted(l, c)
  {
    hide GoesWell;
  }

  /** What is in hand of a request that is going well is within the limit. */
  lemma WithinLimit(l: Limits, c: Conn, r: Request, ms: seq<bytes>, rest: bytes)
    requires Going(l, c, ms, rest) && c.request == Some(r) && !r.complete
    ensures c.reader.Emitting? && l.maxRequestSize > 0 ==> c.bodyBytes <= l.maxRequestSize
  {
    WellKnows(l, c, r, ms, rest);
    hide Inv, HeadTaken, Tracked, ReaderOk, EmitReady, Keepable, After;
    if c.reader.Emitting? {
      EmitWithin(l, c, r, c.reader.chunks, ms[c.served]);
      assert |Flat(c.reader.chunks)| >= |c.reader.chunks[0]|;
    }
  }

  /** Where the reader gets by running on after an early answer: once or, if it had
      something in hand, twice. */
  function ReadOn(l: Limits, d: Conn): Conn {
    var e := Next(l, d, Read(true));
    if d.reader.Emitting? || d.reader.Finishing? then Next(l, e, Read(true)) else e
  }

  /** An exchange that was answered, and whose reader has come back. */
  ghost predicate AnsweredAndBack(l: Limits, d: Conn, q: Request) {
    && !d.closed && d.phase.Waiting? && !d.reader.Halted? && d.request == Some(q) && q.complete && q.finished
    && (d.reader.Emitting? ==> d.reader.chunks != [] && (l.maxRequestSize > 0 ==> d.bodyBytes <= l.maxRequestSize))
    && (q.keepAlive ==> d.remaining == 0)
  }

  lemma ReaderReturns(l: Limits, d: Conn, q: Request)
    requires AnsweredAndBack(l, d, q)
    ensures !q.keepAlive ==> ReadOn(l, d).closed
    ensures q.keepAlive && d.served + 1 < MAX_REQUESTS ==>
              ReadOn(l, d) == d.(decoder := None, remaining := 0, request := None, served := d.served + 1, phase := Idle,
                                 reader := Top, past := d.past + [d.current], current := [])
  {
    if d.reader.Emitting? {
      GivesUp(l, d, q);
    }
  }

  /** Nobody is there to take the chunks in hand. */
  lemma GivesUp(l: Limits, d: Conn, q: Request)
    requires AnsweredAndBack(l, d, q) && d.reader.Emitting?
    ensures var e := Next(l, d, Read(true));
            && !e.closed && e.phase.Waiting? && e.reader.Top? && e.request.Some? && e.request.value.complete
            && (e.request.value.keepAlive <==> q.keepAlive)
            && (q.keepAlive ==> e == d.(reader := Top))
  {
    DropsNothing(l, d);
    assert Next(l, d, Read(true)) == Abandon(l, d, q);
    hide TryDrain;
  }

  lemma DropsNothing(l: Limits, d: Conn)
    requires d.phase.Waiting?
    ensures d.remaining == 0 ==> TryDrain(l, d) == (true, d)
    ensures var e := TryDrain(l, d).1; !e.closed <==> !d.closed
  {
  }

  /** An answer that comes early, at any point of any run: the connection is kept if and only
      if the rest of the message is at hand and short enough. Then exactly the message
      is past, and the reader goes on behind it; otherwise the connection closes. */
  lemma EarlyAnswerKeepsIffDropped(cfg: Config, c: Conn, r: Request, ms: seq<bytes>, rest: bytes)
    requires Sends(cfg, ms, rest) && Going(ServerLimits(cfg), c, ms, rest) && c.request == Some(r) && !r.complete
    ensures c.served < |ms| && |c.current| <= |ms[c.served]|
    ensures var l := ServerLimits(cfg);
            var left := |ms[c.served]| - |c.current|;
            var e := ReadOn(l, Next(l, c, Respond(true)));
            if left <= |c.buffer| && left <= MAX_DRAIN_BYTES then
              Going(l, e, ms, rest) && e.request.None? && e.past == ms[..c.served + 1] && e.buffer == c.buffer[left..]
            else e.closed
  {
    hide Sends, Inv, GoodRequest, Keepable, HeadTaken, Tracked, Accounted, After, Going, OnWay, Next;
    var l := ServerLimits(cfg);
    AnswerComes(cfg, c, r, ms, rest);
    InFlight(cfg, c, r, ms, rest);
    WithinLimit(l, c, r, ms, rest);
    var left, d := |ms[c.served]| - |c.current|, Next(l, c, Respond(true));
    var q := d.request.value;
    ReaderReturns(l, d, q);
    if q.keepAlive {
      LeftIsRest(l, c, r, ms, rest, left);
      NextKeepsInv(l, d, Read(true));
      NextKeepsInv(l, Next(l, d, Read(true)), Read(true));
      NextStarts(l, c, d, ReadOn(l, d), ms, rest);
    }
  }

  lemma LeftIsRest(l: Limits, c: Conn, r: Request, ms: seq<bytes>, rest: bytes, left: nat)
    requires Going(l, c, ms, rest) && c.request == Some(r) && c.served < |ms| && |c.current| + left == |ms[c.served]|
    requires left <= |c.buffer|
    ensures c.current + c.buffer[..left] == ms[c.served] && c.buffer[left..] <= After(ms, c.served + 1, rest)
  {
    hide Inv, Keepable, After;
    var m, t, u := ms[c.served], After(ms, c.served, rest), After(ms, c.served + 1, rest);
    AfterNext(ms, c.served, rest);
    var x := c.current + c.buffer;
    assert x[..|m|] == t[..|m|] == m && x[..|m|] == c.current + c.buffer[..left];
    assert x[|m|..] == c.buffer[left..] && t[|m|..] == u && x == t[..|x|];
  }

  lemma NextStarts(l: Limits, c: Conn, d: Conn, e: Conn, ms: seq<bytes>, rest: bytes)
    requires c.served < |ms| && d.current == ms[c.served] && c.past == d.past == ms[..c.served] && d.served == c.served
    requires d.buffer <= After(ms, c.served + 1, rest) && !d.closed && Inv(l, e)
    requires e == d.(decoder := None, remaining := 0, request := None, served := d.served + 1, phase := Idle,
                     reader := Top, past := d.past + [d.current], current := [])
    ensures Going(l, e, ms, rest) && e.past == ms[..c.served + 1]
  {
    hide Inv, After;
    assert d.past + [d.current] == ms[..c.served + 1];
  }
}
