/** The two limiters side by side: they must not drift apart. */
module Agreement {
  import opened Wrappers
  import opened Window
  import opened Local
  import opened ProbeTable
  import opened Shared
  import TableRuns
  import Promises
  import History

  datatype Request = Request(client: Key, now: real)

  ghost predicate Increasing(reqs: seq<Request>) {
    && (forall i :: 0 <= i < |reqs| ==> 0.0 < reqs[i].now)
    && (forall i, j :: 0 <= i <= j < |reqs| ==> reqs[i].now <= reqs[j].now)
  }

  /** At time `t`, no request of `k` can tell the dictionaries from the table,
      unless the table has no room for `k` at all. */
  ghost predicate InStep(cfg: Config, b: Books, table: seq<Slot>, k: Key, t: real)
    requires 0 < cfg.slots == |table|
  {
    Seek(cfg, table, k, 0).Full? || Norm(cfg.limits, View(b, k), t) == Norm(cfg.limits, Known(cfg, table, k), t)
  }

  ghost predicate AllInStep(cfg: Config, b: Books, table: seq<Slot>, t: real)
    requires 0 < cfg.slots == |table|
  {
    forall k :: InStep(cfg, b, table, k, t)
  }

  lemma {:induction false} FullStays(cfg: Config, table: seq<Slot>, later: seq<Slot>, k: Key, step: nat)
    requires 0 < cfg.slots == |table| && Grows(table, later) && Seek(cfg, table, k, step).Full?
    ensures Seek(cfg, later, k, step).Full?
    decreases PROBES - step
  {
    if step < PROBES {
      FullStays(cfg, table, later, k, step + 1);
    }
  }

  /** Both limiters count the same request of `client`. */
  lemma StepTogether(cfg: Config, b: Books, table: seq<Slot>, c: Books, later: seq<Slot>, client: Key, s: real, t: real)
    requires cfg.Valid() && Placed(cfg, table) && |later| == |table| && s <= t
    requires AllInStep(cfg, b, table, s)
    requires Norm(cfg.limits, View(c, client), t) == Norm(cfg.limits, Decide(cfg.limits, View(b, client), t).client, t)
    requires Alike(cfg.limits, b, c, t, {client})
    requires var p := Seek(cfg, table, client, 0);
             if p.Full? then later == table
             else p.index < |table| && later == table[p.index := Used(client, Decide(cfg.limits, Known(cfg, table, client), t).client)]
    ensures AllInStep(cfg, c, later, t)
    ensures Seek(cfg, table, client, 0).Full?
         || Decide(cfg.limits, View(b, client), t).wait == Decide(cfg.limits, Known(cfg, table, client), t).wait
  {
    hide Decide, Known, View;
    var l := cfg.limits;
    assert InStep(cfg, b, table, client, s);
    if !Seek(cfg, table, client, 0).Full? {
      AlikeDecideAlike(l, View(b, client), Known(cfg, table, client), s, t);
      TakeSlot(cfg, table, client, Decide(l, Known(cfg, table, client), t).client);
    }
    forall k
      ensures InStep(cfg, c, later, k, t)
    {
      assert InStep(cfg, b, table, k, s);
      if Seek(cfg, table, k, 0).Full? {
        FullStays(cfg, table, later, k, 0);
      } else if k != client {
        NormTwice(l, View(b, k), s, t);
        NormTwice(l, Known(cfg, table, k), s, t);
      }
    }
  }

  method CountTwice(counters: LocalCounters, table: SharedCounters, client: Key, now: real)
    returns (wait: Option<real>, answer: Option<Option<real>>)
    requires counters.Valid() && table.Valid() && counters.limits == table.cfg.limits && Placed(table.cfg, table.View())
    requires counters.clock <= now && 0.0 < now && |counters.hits.Keys + {client}| <= counters.capacity
    requires AllInStep(table.cfg, counters.books, table.View(), counters.clock)
    modifies counters, table.heads, table.stamps
    ensures counters.Valid() && table.Valid() && Placed(table.cfg, table.View())
    ensures counters.clock == now && counters.hits.Keys <= old(counters.hits).Keys + {client}
    ensures AllInStep(table.cfg, counters.books, table.View(), now)
    ensures answer.Some? ==> answer == Some(wait)
    ensures answer.None? <==> Seek(table.cfg, old(table.View()), client, 0).Full?
    ensures wait == Decide(counters.limits, old(View(counters.books, client)), now).wait
    ensures Norm(counters.limits, View(counters.books, client), now)
         == Norm(counters.limits, Decide(counters.limits, old(View(counters.books, client)), now).client, now)
    ensures Alike(counters.limits, old(counters.books), counters.books, now, {client})
  {
    ghost var b, t, clock := counters.books, table.View(), counters.clock;
    ghost var evicted;
    wait, evicted := counters.Consume(client, now);
    assert {client} + evicted == {client};
    assert table.Valid() && table.View() == t;
    answer := table.Consume(client, now);
    StepTogether(table.cfg, b, t, counters.books, table.View(), client, clock, now);
  }

  /** The times of client `k` among the first `n` requests. */
  function Earlier(reqs: seq<Request>, k: Key, n: nat): seq<real>
    requires n <= |reqs|
  {
    if n == 0 then []
    else if reqs[n - 1].client == k then Earlier(reqs, k, n - 1) + [reqs[n - 1].now]
    else Earlier(reqs, k, n - 1)
  }

  /** The answer of a limiter that knows every earlier request of the client. */
  function Expected(l: Limits, reqs: seq<Request>, i: nat): Option<real>
    requires l.Valid() && i < |reqs|
  {
    Window.Answer(l, FRESH, Earlier(reqs, reqs[i].client, i) + [reqs[i].now]).wait
  }

  /** At time `t` the dictionaries cannot be told from limiters that forget nothing. */
  ghost predicate InTune(l: Limits, b: Books, reqs: seq<Request>, n: nat, k: Key, t: real)
    requires l.Valid() && n <= |reqs|
  {
    Norm(l, View(b, k), t) == Norm(l, Run(l, FRESH, Earlier(reqs, k, n)), t)
  }

  ghost predicate AllInTune(l: Limits, b: Books, reqs: seq<Request>, n: nat, t: real)
    requires l.Valid() && n <= |reqs|
  {
    forall k :: InTune(l, b, reqs, n, k, t)
  }

  lemma StepInTune(l: Limits, b: Books, c: Books, reqs: seq<Request>, n: nat, s: real)
    requires l.Valid() && n < |reqs| && s <= reqs[n].now
    requires AllInTune(l, b, reqs, n, s)
    requires var Request(client, t) := reqs[n];
             && Norm(l, View(c, client), t) == Norm(l, Decide(l, View(b, client), t).client, t)
             && Alike(l, b, c, t, {client})
    ensures AllInTune(l, c, reqs, n + 1, reqs[n].now)
    ensures Decide(l, View(b, reqs[n].client), reqs[n].now).wait == Expected(l, reqs, n)
  {
    var Request(client, t) := reqs[n];
    var before := Earlier(reqs, client, n);
    assert InTune(l, b, reqs, n, client, s);
    AlikeDecideAlike(l, View(b, client), Run(l, FRESH, before), s, t);
    assert (before + [t])[..|before|] == before;
    var m := n + 1;
    forall k ensures InTune(l, c, reqs, m, k, t) {
      assert InTune(l, b, reqs, n, k, s);
      if k != client {
        NormTwice(l, View(b, k), s, t);
        NormTwice(l, Run(l, FRESH, Earlier(reqs, k, n)), s, t);
      }
    }
  }

  /** The answers so far: all of them as expected, and the same from both. */
  ghost predicate Right(l: Limits, reqs: seq<Request>, local: seq<Option<real>>, shared: seq<Option<Option<real>>>)
    requires l.Valid()
  {
    && |local| == |shared| <= |reqs|
    && forall i :: 0 <= i < |local| ==>
         local[i] == Expected(l, reqs, i) && (shared[i].Some? ==> shared[i] == Some(local[i]))
  }

  /** The clients of the first `n` requests. */
  function Clients(reqs: seq<Request>, n: nat): set<Key>
    requires n <= |reqs|
  {
    if n == 0 then {} else Clients(reqs, n - 1) + {reqs[n - 1].client}
  }

  lemma {:induction false} ClientsGrow(reqs: seq<Request>, m: nat, n: nat)
    requires m <= n <= |reqs|
    ensures Clients(reqs, m) <= Clients(reqs, n)
  {
    if m < n {
      ClientsGrow(reqs, m, n - 1);
    }
  }

  /** Both limiters as they stand after the first `n` requests. */
  ghost predicate Together(counters: LocalCounters, table: SharedCounters, reqs: seq<Request>, n: nat)
    reads counters, table, table.heads, table.stamps
  {
    && counters.Valid() && table.Valid() && counters.limits == table.cfg.limits
    && n <= |reqs| && counters.hits.Keys <= Clients(reqs, n)
    && counters.clock == (if n == 0 then 0.0 else reqs[n - 1].now)
    && Placed(table.cfg, table.View())
    && AllInStep(table.cfg, counters.books, table.View(), counters.clock)
    && AllInTune(counters.limits, counters.books, reqs, n, counters.clock)
  }

  method CountNext(counters: LocalCounters, table: SharedCounters, reqs: seq<Request>, i: nat)
    returns (wait: Option<real>, answer: Option<Option<real>>)
    requires Together(counters, table, reqs, i) && Increasing(reqs) && i < |reqs|
    requires |Clients(reqs, |reqs|)| <= counters.capacity
    modifies counters, table.heads, table.stamps
    ensures Together(counters, table, reqs, i + 1)
    ensures wait == Expected(counters.limits, reqs, i) && (answer.Some? ==> answer == Some(wait))
  {
    var Request(client, now) := reqs[i];
    ghost var before, clock := counters.books, counters.clock;
    ClientsGrow(reqs, i + 1, |reqs|);
    SubsetSize(counters.hits.Keys + {client}, Clients(reqs, |reqs|));
    wait, answer := CountTwice(counters, table, client, now);
    StepInTune(counters.limits, before, counters.books, reqs, i, clock);
  }

  lemma NothingIsRight(l: Limits, reqs: seq<Request>)
    requires l.Valid()
    ensures Right(l, reqs, [], [])
  {
  }

  lemma RightGrows(l: Limits, reqs: seq<Request>, local: seq<Option<real>>, shared: seq<Option<Option<real>>>,
                   wait: Option<real>, answer: Option<Option<real>>)
    requires l.Valid() && Right(l, reqs, local, shared) && |local| < |reqs|
    requires wait == Expected(l, reqs, |local|) && (answer.Some? ==> answer == Some(wait))
    ensures Right(l, reqs, local + [wait], shared + [answer])
  {
    hide Expected;
  }

  method AnswerNext(counters: LocalCounters, table: SharedCounters, reqs: seq<Request>, i: nat,
                    local: seq<Option<real>>, shared: seq<Option<Option<real>>>)
    returns (waits: seq<Option<real>>, answers: seq<Option<Option<real>>>)
    requires Together(counters, table, reqs, i) && Increasing(reqs) && i < |reqs|
    requires |Clients(reqs, |reqs|)| <= counters.capacity
    requires counters.limits.Valid() && |local| == i && Right(counters.limits, reqs, local, shared)
    modifies counters, table.heads, table.stamps
    ensures Together(counters, table, reqs, i + 1)
    ensures |waits| == i + 1 && Right(counters.limits, reqs, waits, answers)
  {
    hide Together, Right;
    var wait, answer := CountNext(counters, table, reqs, i);
    RightGrows(counters.limits, reqs, local, shared, wait, answer);
    return local + [wait], shared + [answer];
  }

  method CreateBoth(requests: int, peak: int, window: real, ban: real, capacity: nat, slots: int, hash: Key -> nat,
                    ghost reqs: seq<Request>)
    returns (counters: LocalCounters, table: SharedCounters)
    ensures fresh(counters) && fresh(table) && fresh(table.heads) && fresh(table.stamps)
    ensures Together(counters, table, reqs, 0) && counters.limits == Normalise(requests, peak, window, ban)
    ensures counters.capacity == (if capacity == 0 then 262144 else if capacity < 1024 then 1024 else capacity)
  {
    counters := new LocalCounters(requests, peak, window, ban, capacity);
    table := new SharedCounters(requests, peak, window, ban, slots, hash);
    assert Placed(table.cfg, table.View());
  }

  /** The requests with their answers, as a log. */
  function Journal(reqs: seq<Request>, waits: seq<Option<real>>): (log: seq<Entry>)
    requires |waits| <= |reqs|
    ensures |log| == |waits|
  {
    seq(|waits|, i requires 0 <= i < |waits| => Entry(reqs[i].client, reqs[i].now, waits[i]))
  }

  lemma {:induction false} EarlierAreTimes(reqs: seq<Request>, waits: seq<Option<real>>, k: Key, n: nat)
    requires |waits| <= |reqs| && n <= |waits|
    ensures Earlier(reqs, k, n) == TableRuns.Times(Journal(reqs, waits), k, n)
  {
    if n > 0 {
      EarlierAreTimes(reqs, waits, k, n - 1);
    }
  }

  lemma {:induction false} EarlierAreSorted(reqs: seq<Request>, k: Key, n: nat)
    requires Increasing(reqs) && n <= |reqs|
    ensures var times := Earlier(reqs, k, n);
            Sorted(times) && (times != [] ==> n > 0 && times[|times| - 1] <= reqs[n - 1].now)
  {
    if n > 0 {
      EarlierAreSorted(reqs, k, n - 1);
      History.AppendSorted(Earlier(reqs, k, n - 1), reqs[n - 1].now);
    }
  }

  /** Answers that are right keep every promise. */
  lemma RightIsKept(l: Limits, reqs: seq<Request>, local: seq<Option<real>>, shared: seq<Option<Option<real>>>, n: nat)
    requires l.Valid() && Increasing(reqs) && Right(l, reqs, local, shared) && n < |local|
    ensures Promises.Kept(l, Journal(reqs, local), n)
  {
    hide Promises.Kept, Sorted, Run, Decide;
    var log := Journal(reqs, local);
    forall i | 0 <= i < |log|
      ensures TableRuns.AnsweredAt(l, log, i)
    {
      var before := Earlier(reqs, reqs[i].client, i);
      EarlierAreTimes(reqs, local, reqs[i].client, i);
      assert local[i] == Expected(l, reqs, i);
      assert (before + [reqs[i].now])[..|before|] == before;
    }
    EarlierAreTimes(reqs, local, reqs[n].client, n + 1);
    EarlierAreSorted(reqs, reqs[n].client, n + 1);
    Promises.AnsweredIsKept(l, log, n);
  }

  /** Drive the dictionaries and the shared table with the same requests, any number of
      them from no more clients than the dictionaries have room for: every decision and
      every wait is the same, and that of a limiter that forgets nothing, through any
      number of sweeps of the dictionaries; and every promise to a client is kept. */
  method DriveBoth(requests: int, peak: int, window: real, ban: real, capacity: nat, slots: int, hash: Key -> nat,
                   reqs: seq<Request>)
    returns (local: seq<Option<real>>, shared: seq<Option<Option<real>>>)
    requires Increasing(reqs)
    requires |Clients(reqs, |reqs|)| <= (if capacity == 0 then 262144 else if capacity < 1024 then 1024 else capacity)
    ensures |local| == |reqs| && Right(Normalise(requests, peak, window, ban), reqs, local, shared)
    ensures forall n :: 0 <= n < |reqs| ==> Promises.Kept(Normalise(requests, peak, window, ban), Journal(reqs, local), n)
  {
    hide Together, Right, Promises.Kept;
    var counters, table := CreateBoth(requests, peak, window, ban, capacity, slots, hash, reqs);
    local, shared := [], [];
    NothingIsRight(counters.limits, reqs);
    for i := 0 to |reqs|
      invariant fresh(counters) && fresh(table.heads) && fresh(table.stamps)
      invariant Together(counters, table, reqs, i)
      invariant |local| == i && Right(counters.limits, reqs, local, shared)
    {
      local, shared := AnswerNext(counters, table, reqs, i, local, shared);
    }
    forall n | 0 <= n < |reqs|
      ensures Promises.Kept(counters.limits, Journal(reqs, local), n)
    {
      RightIsKept(counters.limits, reqs, local, shared, n);
    }
  }
}
