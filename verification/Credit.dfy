/** Flow control credit that an HTTP/2 server holds for its clients, section 5.2 of RFC 9113. */
module Credit {

  /** What the server knows about one stream, the request of it that the application
      reads, and the credit books: what the peer has spent, what has been handed back,
      and what the application took after its answer was over. */
  datatype Account = Account(
    listed: bool,               // still among the streams of the connection
    unacked: nat,
    received: nat,
    requestEnded: bool,
    responseComplete: bool,
    finished: bool,
    queue: seq<nat>,            // the flow size of every queued message
    granted: nat,
    returned: nat,
    late: nat)

  const OPENED := Account(true, 0, 0, false, false, false, [], 0, 0, 0)

  datatype Event =
    | Data(flow: nat, size: nat)        // a DATA frame: its flow size, padding included, and its data
    | Ended                             // END_STREAM
    | Reset                             // by the peer, by a deadline or by the writer
    | Receive                           // the application takes the next message
    | Finish                            // the writer is done with the answer

  /** Hands credit back; the books are those of the stream while it is listed. */
  function Ack(a: Account, size: nat): Account {
    a.(unacked := if !a.listed then a.unacked else if a.unacked > size then a.unacked - size else 0,
       returned := a.returned + size)
  }

  function Finalize(a: Account): Account {
    Ack(a, a.unacked).(unacked := 0, listed := false)
  }

  /** A disconnect is queued for the application, once. */
  function Disconnect(a: Account): Account {
    a.(finished := true, queue := if a.finished then a.queue else a.queue + [0])
  }

  function OnReset(a: Account): Account {
    if !a.listed then a
    else Finalize(a.(finished := true, queue := a.queue + [0]))
  }

  function OnData(a: Account, flow: nat, size: nat, limit: nat): Account {
    var b := a.(granted := a.granted + flow);
    if !a.listed then Ack(b, flow)
    else
      var c := b.(unacked := b.unacked + flow);
      if a.finished || size == 0 then Ack(c, flow)
      else if limit > 0 && a.received + size > limit then OnReset(c)
      else c.(received := c.received + size, queue := c.queue + [flow])
  }

  function OnEnded(a: Account): Account {
    if !a.listed then a
    else
      var b := a.(requestEnded := true, queue := if a.finished then a.queue else a.queue + [0]);
      if b.responseComplete then Finalize(b) else b
  }

  function OnReceive(a: Account): Account {
    if a.queue == [] then a
    else
      var flow := a.queue[0];
      var b := a.(queue := a.queue[1..], late := a.late + if a.finished then flow else 0);
      if flow == 0 then b else Ack(b, flow)
  }

  function OnFinish(a: Account): Account {
    var b := Disconnect(a).(responseComplete := true);
    if !b.listed then b
    else if b.requestEnded then Finalize(b)
    else Ack(b, b.unacked)
  }

  function Next(a: Account, e: Event, limit: nat): Account {
    match e
    case Data(flow, size) => OnData(a, flow, size, limit)
    case Ended => OnEnded(a)
    case Reset => OnReset(a)
    case Receive => OnReceive(a)
    case Finish => OnFinish(a)
  }

  function Run(a: Account, events: seq<Event>, limit: nat): Account
    decreases |events|
  {
    if events == [] then a else Run(Next(a, events[0], limit), events[1..], limit)
  }

  // ----- Conservation ---------------------------------------------------------------------

  function Sum(s: seq<nat>): nat {
    if s == [] then 0 else s[0] + Sum(s[1..])
  }

  lemma {:induction false} SumAppend(s: seq<nat>, x: nat)
    ensures Sum(s + [x]) == Sum(s) + x
  {
    if s == [] {
      assert s + [x] == [x];
    } else {
      assert (s + [x])[1..] == s[1..] + [x];
      SumAppend(s[1..], x);
    }
  }

  /** Credit is conserved, and until the request is over what is held back is exactly
      what is queued. */
  ghost predicate Inv(a: Account) {
    && a.returned + a.unacked == a.granted + a.late
    && a.unacked == (if a.finished then 0 else Sum(a.queue))
    && (!a.listed ==> a.finished)
    && (a.responseComplete ==> a.finished)
    && (!a.finished ==> a.late == 0)
  }

  lemma ReceiveKeepsInv(a: Account)
    requires Inv(a)
    ensures Inv(OnReceive(a))
  {
  }

  lemma DataKeepsInv(a: Account, flow: nat, size: nat, limit: nat)
    requires Inv(a)
    ensures Inv(OnData(a, flow, size, limit))
  {
    SumAppend(a.queue, flow);
  }

  lemma NextKeepsInv(a: Account, e: Event, limit: nat)
    requires Inv(a)
    ensures Inv(Next(a, e, limit))
  {
    SumAppend(a.queue, 0);
    match e
    case Data(flow, size) => DataKeepsInv(a, flow, size, limit);
    case Receive => ReceiveKeepsInv(a);
    case _ =>
  }

  lemma {:induction false} RunKeepsInv(a: Account, events: seq<Event>, limit: nat)
    requires Inv(a)
    ensures Inv(Run(a, events, limit))
    decreases |events|
  {
    if events != [] {
      NextKeepsInv(a, events[0], limit);
      RunKeepsInv(Next(a, events[0], limit), events[1..], limit);
    }
  }

  /** The application takes no data once the request is over. */
  predicate NothingLate(a: Account, events: seq<Event>, limit: nat)
    decreases |events|
  {
    events == [] ||
    (var e := events[0];
     !(e.Receive? && a.finished && a.queue != [] && a.queue[0] > 0) && NothingLate(Next(a, e, limit), events[1..], limit))
  }

  lemma StepIsLate(a: Account, e: Event, limit: nat)
    ensures a.late <= Next(a, e, limit).late
    ensures a.late < Next(a, e, limit).late <==> e.Receive? && a.finished && a.queue != [] && a.queue[0] > 0
  {
  }

  lemma {:induction false} LateIsLate(a: Account, events: seq<Event>, limit: nat)
    ensures a.late <= Run(a, events, limit).late
    ensures a.late == Run(a, events, limit).late <==> NothingLate(a, events, limit)
    decreases |events|
  {
    hide Next;
    if events != [] {
      StepIsLate(a, events[0], limit);
      LateIsLate(Next(a, events[0], limit), events[1..], limit);
    }
  }

  /** Conservation over every run of a stream, as long as the connection is open: what
      has been handed back and what is held make up what the peer has spent, and what
      is held is what is queued, until the request is over; from then on everything has
      been handed back.  This holds if and only if the application took no queued data
      after that. */
  lemma CreditIsConserved(events: seq<Event>, limit: nat)
    ensures var a := Run(OPENED, events, limit);
            && (!a.finished ==> a.returned + a.unacked == a.granted && a.unacked == Sum(a.queue))
            && (a.finished ==> a.unacked == 0 && a.returned >= a.granted)
            && (!a.listed ==> a.finished)
            && (a.returned + a.unacked == a.granted <==> NothingLate(OPENED, events, limit))
  {
    RunKeepsInv(OPENED, events, limit);
    LateIsLate(OPENED, events, limit);
  }

  /** Data that is still queued when the answer ends has been handed back already; an
      application that takes it all the same hands it back again. */
  lemma LateReceiveReturnsTwice(flow: nat, size: nat)
    requires 0 < size <= flow
    ensures var a := Run(OPENED, [Data(flow, size), Finish, Receive], 0); a.granted == flow && a.returned == 2 * flow
  {
    var events := [Data(flow, size), Finish, Receive];
    assert events[1..] == [Finish, Receive] && [Finish, Receive][1..] == [Receive] && [Receive][1..] == [];
    var b := OnData(OPENED, flow, size, 0);
    assert b.queue == [flow];
    var c := OnFinish(b);
    assert c.queue == [flow] + [0] && c.returned == flow;
    assert Run(OPENED, events, 0) == Run(b, [Finish, Receive], 0) == Run(c, [Receive], 0) == Run(OnReceive(c), [], 0);
  }

  // ----- What the application is given -----------------------------------------------------------

  function Flows(events: seq<Event>): nat {
    if events == [] then 0
    else
      var e := events[|events| - 1];
      Flows(events[..|events| - 1]) + if e.Data? then e.flow else 0
  }

  /** The size of the request as far as it has arrived. */
  function Sizes(events: seq<Event>): nat {
    if events == [] then 0
    else
      var e := events[|events| - 1];
      Sizes(events[..|events| - 1]) + if e.Data? then e.size else 0
  }

  /** The request is over: it was reset, its answer has ended, or it was too large. */
  predicate Over(events: seq<Event>, limit: nat) {
    Reset in events || Finish in events || (limit > 0 && Sizes(events) > limit)
  }

  /** The stream is no longer kept: it was reset, its request was too large before it was
      answered, or request and answer have both ended. */
  ghost predicate Dropped(events: seq<Event>, limit: nat) {
    || Reset in events || (Finish in events && Ended in events)
    || exists k :: 0 <= k <= |events| && TooLargeAt(events, limit, k)
  }

  predicate TooLargeAt(events: seq<Event>, limit: nat, k: nat)
    requires k <= |events|
  {
    Finish !in events[..k] && limit > 0 && Sizes(events[..k]) > limit
  }

  /** What there is for the application to receive: every frame with data in it, and the
      end of the request, in the order they arrive, until the request is over. */
  function ToReceive(events: seq<Event>, limit: nat): seq<nat> {
    if events == [] then []
    else
      var before, e := events[..|events| - 1], events[|events| - 1];
      ToReceive(before, limit)
      + if Over(events, limit) then []
        else if e.Data? && e.size > 0 then [e.flow]
        else if e.Ended? then [0]
        else []
  }

  /** What the application has taken off the queue. */
  function Taken(events: seq<Event>, limit: nat): seq<nat> {
    if events == [] then []
    else
      var before, e := events[..|events| - 1], events[|events| - 1];
      var a := Run(OPENED, before, limit);
      Taken(before, limit) + if e.Receive? && a.queue != [] then [a.queue[0]] else []
  }

  lemma {:induction false} RunOneMore(a: Account, events: seq<Event>, e: Event, limit: nat)
    ensures Run(a, events + [e], limit) == Next(Run(a, events, limit), e, limit)
    decreases |events|
  {
    hide Next;
    if events == [] {
      assert [] + [e] == [e] && Run(Next(a, e, limit), [e][1..], limit) == Next(a, e, limit);
    } else {
      assert (events + [e])[0] == events[0] && (events + [e])[1..] == events[1..] + [e];
      RunOneMore(Next(a, events[0], limit), events[1..], e, limit);
    }
  }

  /** Only the end of the exchange, which carries no data, is told after the others. */
  ghost predicate Gives(taken: seq<nat>, queue: seq<nat>, all: seq<nat>, over: bool) {
    && all <= taken + queue
    && (!over ==> taken + queue == all)
    && forall i :: |all| <= i < |taken + queue| ==> (taken + queue)[i] == 0
  }

  lemma TakesOne(taken: seq<nat>, queue: seq<nat>)
    requires queue != []
    ensures taken + [queue[0]] + queue[1..] == taken + queue
  {
  }

  lemma GivesOne(taken: seq<nat>, queue: seq<nat>, all: seq<nat>, x: nat, over: bool)
    requires Gives(taken, queue, all, over)
    ensures !over ==> Gives(taken, queue + [x], all + [x], false)
    ensures x == 0 ==> Gives(taken, queue + [x], all, true)
  {
    assert taken + (queue + [x]) == taken + queue + [x];
  }

  lemma OverLater(before: seq<Event>, e: Event, limit: nat)
    ensures var events := before + [e];
            Over(events, limit) <==>
              Over(before, limit) || e.Reset? || e.Finish? || (e.Data? && limit > 0 && Sizes(before) + e.size > limit)
    ensures Sizes(before + [e]) == Sizes(before) + if e.Data? then e.size else 0
    ensures Flows(before + [e]) == Flows(before) + if e.Data? then e.flow else 0
  {
    assert (before + [e])[..|before|] == before;
  }

  lemma DroppedLater(before: seq<Event>, e: Event, limit: nat)
    ensures var events := before + [e];
            Dropped(events, limit) <==>
              || Dropped(before, limit) || e.Reset? || (e.Finish? && Ended in before) || (e.Ended? && Finish in before)
              || (e.Data? && Finish !in before && limit > 0 && Sizes(before) + e.size > limit)
  {
    var events := before + [e];
    OverLater(before, e, limit);
    assert events[..|events|] == events && before[..|before|] == before;
    forall k | 0 <= k <= |before| ensures TooLargeAt(events, limit, k) == TooLargeAt(before, limit, k) {
      assert events[..k] == before[..k];
    }
    hide Sizes;
    if Finish !in events && limit > 0 && Sizes(events) > limit {
      assert TooLargeAt(events, limit, |events|);
      if !e.Data? {
        assert TooLargeAt(before, limit, |before|);
      }
    }
    if Dropped(events, limit) && !e.Reset? && !(Finish in events && Ended in events) && !Dropped(before, limit) {
      var k :| 0 <= k <= |events| && TooLargeAt(events, limit, k);
      assert k == |events|;
    }
  }

  /** The books have every frame, and say whether the request is over, and whether the
      stream is still kept. */
  ghost predicate Booked(a: Account, events: seq<Event>, limit: nat) {
    && (a.responseComplete <==> Finish in events) && (a.listed <==> !Dropped(events, limit))
    && (a.listed ==> (a.requestEnded <==> Ended in events))
    && (a.listed && a.finished ==> Finish in events)
    && a.granted == Flows(events) && (a.finished <==> Over(events, limit))
    && (!a.finished ==> a.received == Sizes(events) && a.listed && !a.responseComplete)
    && (limit > 0 ==> a.received <= limit)
  }

  /** Where a run has led, by what has happened in it. */
  ghost predicate Reached(a: Account, events: seq<Event>, limit: nat) {
    Booked(a, events, limit) && Gives(Taken(events, limit), a.queue, ToReceive(events, limit), a.finished)
  }

  lemma BookedNext(a: Account, before: seq<Event>, e: Event, limit: nat)
    requires Booked(a, before, limit)
    ensures Booked(Next(a, e, limit), before + [e], limit)
  {
    hide Sizes, Flows, Dropped;
    OverLater(before, e, limit);
    DroppedLater(before, e, limit);
  }

  lemma GivenNext(before: seq<Event>, e: Event, limit: nat)
    ensures var a := Run(OPENED, before, limit);
            Taken(before + [e], limit) == Taken(before, limit) + if e.Receive? && a.queue != [] then [a.queue[0]] else []
    ensures ToReceive(before + [e], limit)
            == ToReceive(before, limit)
               + if Over(before + [e], limit) then []
                 else if e.Data? && e.size > 0 then [e.flow]
                 else if e.Ended? then [0]
                 else []
  {
    hide Over, Run;
    assert (before + [e])[..|before|] == before;
  }

  /** What a step does to the queue. */
  lemma QueueNext(a: Account, before: seq<Event>, e: Event, limit: nat)
    requires Booked(a, before, limit)
    ensures var b, over := Next(a, e, limit), Over(before + [e], limit);
            && (a.finished ==> over)
            && match e
               case Receive => b.queue == (if a.queue == [] then [] else a.queue[1..]) && (over <==> a.finished)
               case Data(flow, size) => b.queue == if size > 0 && !over then a.queue + [flow]
                                                   else if over && !a.finished then a.queue + [0] else a.queue
               case Ended => b.queue == (if over then a.queue else a.queue + [0]) && (over <==> a.finished)
               case _ => over && (b.queue == a.queue || b.queue == a.queue + [0])
  {
    hide Over, Sizes, Flows, Dropped;
    OverLater(before, e, limit);
  }

  lemma ReachedNext(a: Account, before: seq<Event>, e: Event, limit: nat)
    requires Reached(a, before, limit) && a == Run(OPENED, before, limit)
    ensures Reached(Next(a, e, limit), before + [e], limit)
  {
    var taken, all := Taken(before, limit), ToReceive(before, limit);
    BookedNext(a, before, e, limit);
    GivenNext(before, e, limit);
    QueueNext(a, before, e, limit);
    hide Over, Next, Run, Taken, ToReceive, Booked;
    assert taken + [] == taken && all + [] == all;
    GivesOne(taken, a.queue, all, 0, a.finished);
    if e.Data? {
      GivesOne(taken, a.queue, all, e.flow, a.finished);
    } else if e.Receive? && a.queue != [] {
      TakesOne(taken, a.queue);
    }
  }

  /** Over every run of a stream: the books have every frame; the request is over exactly when
      it was reset, answered or too large, and the stream is dropped exactly when it was reset
      or too large, or both request and answer have ended; and what the application has taken and what is
      queued for it are, in order, all that arrived until then, followed by nothing but
      the news that it is over.  It is never given more than the limit. */
  lemma {:induction false} EverythingIsGiven(events: seq<Event>, limit: nat)
    ensures Reached(Run(OPENED, events, limit), events, limit)
  {
    if events != [] {
      var before, e := events[..|events| - 1], events[|events| - 1];
      assert events == before + [e];
      EverythingIsGiven(before, limit);
      RunOneMore(OPENED, before, e, limit);
      ReachedNext(Run(OPENED, before, limit), before, e, limit);
    }
  }

  // ----- Streams side by side ----------------------------------------------------------------

  /** The steps of all the streams of a connection, in the order they happen. */
  function RunAll(books: map<nat, Account>, steps: seq<(nat, Event)>, limit: nat): map<nat, Account>
    decreases |steps|
  {
    if steps == [] then books
    else
      var id := steps[0].0;
      RunAll(if id in books then books[id := Next(books[id], steps[0].1, limit)] else books, steps[1..], limit)
  }

  function Of(id: nat, steps: seq<(nat, Event)>): seq<Event> {
    if steps == [] then []
    else (if steps[0].0 == id then [steps[0].1] else []) + Of(id, steps[1..])
  }

  /** Interleaving does not matter: every stream keeps the books of its own steps. */
  lemma {:induction false} StreamsAreIndependent(books: map<nat, Account>, steps: seq<(nat, Event)>, limit: nat, id: nat)
    requires id in books
    ensures id in RunAll(books, steps, limit)
    ensures RunAll(books, steps, limit)[id] == Run(books[id], Of(id, steps), limit)
    decreases |steps|
  {
    if steps != [] {
      var k := steps[0].0;
      var next := if k in books then books[k := Next(books[k], steps[0].1, limit)] else books;
      StreamsAreIndependent(next, steps[1..], limit, id);
      if k == id {
        var e := steps[0].1;
        assert Of(id, steps) == [e] + Of(id, steps[1..]);
        assert Of(id, steps)[1..] == Of(id, steps[1..]);
      } else {
        assert Of(id, steps) == Of(id, steps[1..]);
      }
    }
  }
}
