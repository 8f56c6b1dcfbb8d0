/** Clearing slots of the shared table: what it changes, and when it is harmless. */
module TableSweeps {
  import opened Wrappers
  import opened Window
  import opened ProbeTable
  import opened TableRuns

  /** From `step` on, the probes of `k` look at slot `i` and are turned away. */
  predicate Behind(cfg: Config, table: seq<Slot>, k: Key, i: nat, step: nat)
    requires 0 < cfg.slots == |table|
    decreases PROBES - step
  {
    && step < PROBES
    && var h := Home(cfg, k, step);
    && table[h].Used? && table[h].key != k
    && (h == i || Behind(cfg, table, k, i, step + 1))
  }

  lemma {:induction false} SeekAfterClearing(cfg: Config, table: seq<Slot>, k: Key, i: nat, step: nat)
    requires 0 < cfg.slots == |table| && i < |table| && table[i].Used? && table[i].key != k
    ensures Seek(cfg, table[i := Free], k, step)
         == if Behind(cfg, table, k, i, step) then Vacant(i) else Seek(cfg, table, k, step)
    decreases PROBES - step
  {
    if step < PROBES && table[Home(cfg, k, step)].Used? && table[Home(cfg, k, step)].key != k {
      SeekAfterClearing(cfg, table, k, i, step + 1);
    }
  }

  /** No client is held in a slot that its probes reach by way of slot `i`. */
  predicate NobodyBehind(cfg: Config, table: seq<Slot>, i: nat)
    requires 0 < cfg.slots == |table|
  {
    forall j :: 0 <= j < |table| && j != i && table[j].Used? ==> !Behind(cfg, table, table[j].key, i, 0)
  }

  /** A slot is cleared without a tombstone, so the table keeps its shape exactly
      when no client sits behind that slot. */
  lemma ClearingKeepsShape(cfg: Config, table: seq<Slot>, i: nat)
    requires Placed(cfg, table) && i < |table| && table[i].Used?
    ensures Placed(cfg, table[i := Free]) <==> NobodyBehind(cfg, table, i)
  {
    var swept := table[i := Free];
    forall j | 0 <= j < |table| && j != i && table[j].Used?
      ensures Seek(cfg, swept, swept[j].key, 0) == Found(j) <==> !Behind(cfg, table, table[j].key, i, 0)
    {
      assert table[j].key != table[i].key;
      SeekAfterClearing(cfg, table, table[j].key, i, 0);
    }
    assert swept[i].Free?;
  }

  /** What happens to a client behind a cleared slot: its next request is served
      from an empty window, and it then holds two slots.  The answer agrees with
      the single limiter exactly when that one would have served it as well. */
  lemma ClearingStrandsClient(cfg: Config, table: seq<Slot>, i: nat, j: nat, now: real)
    requires cfg.Valid() && Placed(cfg, table) && i < |table| && table[i].Used?
    requires j < |table| && j != i && table[j].Used? && Behind(cfg, table, table[j].key, i, 0)
    ensures var swept, k := table[i := Free], table[j].key;
            && Seek(cfg, swept, k, 0) == Vacant(i)
            && var (slot, answer) := Visit(cfg.limits, swept[i], k, now);
            && answer == Some(None)
            && (answer == Some(Decide(cfg.limits, Known(cfg, table, k), now).wait)
                <==> Decide(cfg.limits, Known(cfg, table, k), now).wait.None?)
            && !WellFormed(cfg, swept[i := slot])
  {
    SeekAfterClearing(cfg, table, table[j].key, i, 0);
    var swept := table[i := Free];
    var after := swept[i := Visit(cfg.limits, swept[i], table[j].key, now).0];
    assert after[i].key == after[j].key;
    assert after[i].Used? && after[j].Used?;
  }

  // ----- Runs with sweeps ----------------------------------------------------

  /** Worker-in-flight form of `Behind`: a probe before `step` looked at slot `i`. */
  predicate PassedBy(cfg: Config, k: Key, i: nat, step: nat)
    requires cfg.slots > 0
  {
    step > 0 && (Home(cfg, k, step - 1) == i || PassedBy(cfg, k, i, step - 1))
  }

  /** No worker has been turned away from slot `i` and is looking further on. */
  predicate NobodyPast(cfg: Config, st: State, i: nat)
    requires cfg.slots > 0
  {
    forall w :: w in st.workers && st.workers[w].Probing? ==> !PassedBy(cfg, st.workers[w].key, i, st.workers[w].step)
  }

  /** Clearing slot `i` strands nobody: no client in the table, and no worker in flight. */
  predicate Harmless(cfg: Config, st: State, i: nat)
    requires 0 < cfg.slots == |st.table|
  {
    NobodyBehind(cfg, st.table, i) && NobodyPast(cfg, st, i)
  }

  lemma {:induction false} PassedUnlessBy(cfg: Config, table: seq<Slot>, k: Key, i: nat, step: nat)
    requires 0 < cfg.slots == |table| && i < |table| && Passed(cfg, table, k, step)
    ensures Passed(cfg, table[i := Free], k, step) <==> !PassedBy(cfg, k, i, step)
  {
    if step > 0 {
      PassedUnlessBy(cfg, table, k, i, step - 1);
    }
  }

  /** The workers in flight have still been turned away rightly if and only if none of
      them has come past the cleared slot. */
  lemma ClearingKeepsWorkers(cfg: Config, st: State, i: nat)
    requires cfg.Valid() && |st.table| == cfg.slots && i < cfg.slots && WorkersPassed(cfg, st)
    ensures WorkersPassed(cfg, st.(table := st.table[i := Free])) <==> NobodyPast(cfg, st, i)
  {
    forall w | w in st.workers && st.workers[w].Probing?
      ensures Passed(cfg, st.table[i := Free], st.workers[w].key, st.workers[w].step)
              <==> !PassedBy(cfg, st.workers[w].key, i, st.workers[w].step)
    {
      PassedUnlessBy(cfg, st.table, st.workers[w].key, i, st.workers[w].step);
    }
  }

  /** Whether the next step of worker `w` answers its request. */
  predicate Answers(cfg: Config, st: State, w: nat)
    requires cfg.Valid() && |st.table| == cfg.slots
  {
    var worker := WorkerOf(st, w);
    worker.Probing? && Visit(cfg.limits, st.table[Home(cfg, worker.key, worker.step)], worker.key, worker.now).1.Some?
  }

  function Until(at: Key -> real, k: Key, t: real): Key -> real {
    j => if j == k then t else at(j)
  }

  /** A run in which the requests of each client that the table answered, and the sweeps
      that cleared its slot, came at times that did not go back, up to `at` for each
      client, and in which a sweep only cleared slots it could clear without harm.
      Different clients may have been served in another order than the clock was read. */
  ghost predicate Orderly(cfg: Config, events: seq<Event>, at: Key -> real)
    requires cfg.Valid()
  {
    events != [] ==>
      var front, e := events[..|events| - 1], events[|events| - 1];
      var st := Exec(cfg, front);
      match e
      case Probe(w) =>
        if Answers(cfg, st, w) then
          var Probing(k, now, _) := WorkerOf(st, w);
          now <= at(k) && Orderly(cfg, front, Until(at, k, now))
        else Orderly(cfg, front, at)
      case Sweep(i, now) =>
        if i < cfg.slots && Stale(cfg.limits, st.table[i], now) then
          var k := st.table[i].key;
          now <= at(k) && Harmless(cfg, st, i) && Orderly(cfg, front, Until(at, k, now))
        else Orderly(cfg, front, at)
      case _ => Orderly(cfg, front, at)
  }

  /** At time `t` the table and the single limiter cannot be told apart. */
  ghost predicate Agree(cfg: Config, table: seq<Slot>, log: seq<Entry>, k: Key, t: real)
    requires cfg.Valid() && |table| == cfg.slots
  {
    && Sane(cfg.limits, Known(cfg, table, k), t)
    && Norm(cfg.limits, Known(cfg, table, k), t) == Norm(cfg.limits, Account(cfg.limits, log, k, |log|), t)
  }

  ghost predicate SweptInv(cfg: Config, st: State, at: Key -> real)
    requires cfg.Valid() && |st.table| == cfg.slots
  {
    && Placed(cfg, st.table)
    && WorkersPassed(cfg, st)
    && Answered(cfg.limits, st.log)
    && forall k :: Agree(cfg, st.table, st.log, k, at(k))
  }

  lemma AgreeLater(cfg: Config, st: State, at: Key -> real, k: Key, t: real)
    requires cfg.Valid() && |st.table| == cfg.slots && t <= at(k) && SweptInv(cfg, st, Until(at, k, t))
    ensures SweptInv(cfg, st, at)
  {
    forall j
      ensures Agree(cfg, st.table, st.log, j, at(j))
    {
      assert Agree(cfg, st.table, st.log, j, Until(at, k, t)(j));
      if j == k {
        NormTwice(cfg.limits, Known(cfg, st.table, k), t, at(k));
        NormTwice(cfg.limits, Account(cfg.limits, st.log, k, |st.log|), t, at(k));
      }
    }
  }

  lemma AnswerKeepsAgreement(cfg: Config, st: State, w: nat, at: Key -> real)
    requires cfg.Valid() && |st.table| == cfg.slots && Answers(cfg, st, w) && SweptInv(cfg, st, at)
    requires WorkerOf(st, w).now == at(WorkerOf(st, w).key)
    ensures SweptInv(cfg, Next(cfg, st, Probe(w)), at)
  {
    var Probing(k, now, step) := st.workers[w];
    var next := Next(cfg, st, Probe(w));
    AnsweredProbe(cfg, st, w);
    var d := Decide(cfg.limits, Known(cfg, st.table, k), now);
    TakeSlot(cfg, st.table, k, d.client);
    WorkersStayPassed(cfg, st, next);
    var account := Account(cfg.limits, st.log, k, |st.log|);
    assert Agree(cfg, st.table, st.log, k, at(k));
    AlikeDecideAlike(cfg.limits, Known(cfg, st.table, k), account, now, now);
    DecideKeepsSane(cfg.limits, Known(cfg, st.table, k), now, now);
    AnsweredStep(cfg.limits, st.log, Entry(k, now, d.wait));
    forall j
      ensures Agree(cfg, next.table, next.log, j, at(j))
    {
      assert Agree(cfg, st.table, st.log, j, at(j));
      AccountStep(cfg.limits, st.log, Entry(k, now, d.wait), j);
    }
  }

  /** A sweep that does no harm forgets nothing that a later request can see. */
  lemma SweepKeepsAgreement(cfg: Config, st: State, i: nat, now: real, at: Key -> real)
    requires cfg.Valid() && |st.table| == cfg.slots && i < cfg.slots && Stale(cfg.limits, st.table[i], now)
    requires SweptInv(cfg, st, at) && Harmless(cfg, st, i) && now == at(st.table[i].key)
    ensures SweptInv(cfg, Next(cfg, st, Sweep(i, now)), at)
  {
    hide Decide, Run, Seek;
    var next := Next(cfg, st, Sweep(i, now));
    ClearingKeepsShape(cfg, st.table, i);
    ClearingKeepsWorkers(cfg, st, i);
    forall k
      ensures Agree(cfg, next.table, next.log, k, at(k))
    {
      assert Agree(cfg, st.table, st.log, k, at(k));
      ClearedKnown(cfg, st.table, i, k);
      if k == st.table[i].key {
        ExpireAll(st.table[i].client.hits, now - cfg.limits.window);
      }
    }
  }

  /** Clearing a slot with nobody behind it forgets the client in it, and no other. */
  lemma ClearedKnown(cfg: Config, table: seq<Slot>, i: nat, k: Key)
    requires Placed(cfg, table) && i < |table| && table[i].Used? && NobodyBehind(cfg, table, i)
    ensures var swept := table[i := Free];
            Known(cfg, swept, k) == if k == table[i].key then FRESH else Known(cfg, table, k)
  {
    var swept := table[i := Free];
    ClearingKeepsShape(cfg, table, i);
    SeekFinds(cfg, table, k, 0);
    SeekFinds(cfg, swept, k, 0);
    assert Seek(cfg, table, table[i].key, 0) == Found(i);
    if k != table[i].key {
      SeekAfterClearing(cfg, table, k, i, 0);
    }
  }

  lemma {:induction false} OrderlyKeepsAgreement(cfg: Config, events: seq<Event>, at: Key -> real)
    requires cfg.Valid() && Orderly(cfg, events, at)
    ensures SweptInv(cfg, Exec(cfg, events), at)
  {
    if events != [] {
      var front, e := events[..|events| - 1], events[|events| - 1];
      var st := Exec(cfg, front);
      if e.Probe? && Answers(cfg, st, e.worker) {
        var Probing(k, now, _) := WorkerOf(st, e.worker);
        OrderlyKeepsAgreement(cfg, front, Until(at, k, now));
        AnswerKeepsAgreement(cfg, st, e.worker, Until(at, k, now));
        AgreeLater(cfg, Next(cfg, st, e), at, k, now);
      } else if e.Sweep? && e.index < cfg.slots && Stale(cfg.limits, st.table[e.index], e.now) {
        var k := st.table[e.index].key;
        OrderlyKeepsAgreement(cfg, front, Until(at, k, e.now));
        SweepKeepsAgreement(cfg, st, e.index, e.now, Until(at, k, e.now));
        AgreeLater(cfg, Next(cfg, st, e), at, k, e.now);
      } else {
        OrderlyKeepsAgreement(cfg, front, at);
        IdleKeepsAgreement(cfg, st, e, at);
      }
    }
  }

  /** Every other step leaves table and log as they are. */
  lemma IdleKeepsAgreement(cfg: Config, st: State, e: Event, at: Key -> real)
    requires cfg.Valid() && |st.table| == cfg.slots && SweptInv(cfg, st, at)
    requires !(e.Probe? && Answers(cfg, st, e.worker))
    requires !(e.Sweep? && e.index < cfg.slots && Stale(cfg.limits, st.table[e.index], e.now))
    ensures SweptInv(cfg, Next(cfg, st, e), at)
  {
    var next := Next(cfg, st, e);
    assert next.table == st.table && next.log == st.log;
    IdleKeepsWorkers(cfg, st, e);
  }

  lemma IdleKeepsWorkers(cfg: Config, st: State, e: Event)
    requires cfg.Valid() && |st.table| == cfg.slots && WorkersPassed(cfg, st) && Next(cfg, st, e).table == st.table
    requires !(e.Probe? && Answers(cfg, st, e.worker))
    ensures WorkersPassed(cfg, Next(cfg, st, e))
  {
  }

  /** Housekeeping is invisible: with any number of workers, any interleaving and
      any harmless sweeps, the table answers as the single limiter that never
      forgets, as long as no client's own clock goes back. */
  lemma SweptTableIsOneLimiter(cfg: Config, events: seq<Event>, at: Key -> real)
    requires cfg.Valid() && Orderly(cfg, events, at)
    ensures WellFormed(cfg, Exec(cfg, events).table)
    ensures Answered(cfg.limits, Exec(cfg, events).log)
  {
    OrderlyKeepsAgreement(cfg, events, at);
    PlacedIsWellFormed(cfg, Exec(cfg, events).table);
  }

  /** The allowance is still the server's with housekeeping going on: the bound on what a
      client is served between `lo` and `hi`, for every such run. */
  lemma SweptSlidingWindow(cfg: Config, events: seq<Event>, at: Key -> real, k: Key, i: nat, j: nat, lo: real, hi: real)
    requires cfg.Valid() && Orderly(cfg, events, at) && hi - lo < cfg.limits.window
    requires i <= j <= |Exec(cfg, events).log| && Between(Exec(cfg, events).log, k, i, j, lo, hi)
    ensures ServedTo(Exec(cfg, events).log, k, i, j)
         <= cfg.limits.requests + (if cfg.limits.peak > cfg.limits.requests then 1 else 0)
  {
    SweptTableIsOneLimiter(cfg, events, at);
    BoundedWhenAnswered(cfg.limits, Exec(cfg, events).log, k, i, j, lo, hi);
  }

  /** A slot is stale exactly if no later request can see anything of what is in it. */
  lemma StaleIffInvisible(l: Limits, k: Key, c: Client, now: real)
    requires l.Valid() && Sane(l, c, now)
    ensures Stale(l, Used(k, c), now) <==> Norm(l, c, now) == FRESH
  {
    ExpiredIffNewestIs(c.hits, now - l.window);
  }

  // ----- A sweep that does harm --------------------------------------------------

  lemma ExecStep(cfg: Config, events: seq<Event>, e: Event)
    requires cfg.Valid()
    ensures Exec(cfg, events + [e]) == Next(cfg, Exec(cfg, events), e)
  {
    assert (events + [e])[..|events|] == events;
  }

  /** One request per ten seconds, and two clients that hash to the same slot. */
  function Collision(): Config {
    Config(Limits(1, 1, 10.0, 0.0), MIN_SLOTS, _ => 0)
  }

  /** Client 1 at second 1, client 2 at second 8 (one slot further on), a sweep at
      second 11 that clears client 1, and client 2 again at second 12. */
  function HarmfulRun(): seq<Event> {
    [Begin(0, 1, 1.0), Probe(0), Begin(0, 2, 8.0), Probe(0), Probe(0), Sweep(0, 11.0), Begin(0, 2, 12.0), Probe(0)]
  }

  lemma HarmfulRunFirst()
    ensures var cfg := Collision();
            Exec(cfg, HarmfulRun()[..2])
            == State(Start(cfg).table[0 := Used(1, Client([1.0], None, None))], map[0 := Idle], [Entry(1, 1.0, None)])
  {
    var cfg, run := Collision(), HarmfulRun();
    assert Exec(cfg, []) == Start(cfg);
    ExecStep(cfg, [], run[0]);
    ExecStep(cfg, run[..1], run[1]);
    assert [] + [run[0]] == run[..1] && run[..1] + [run[1]] == run[..2];
    assert Count(cfg.limits, [], 1.0) == [1.0];
  }

  lemma HarmfulRunStart()
    ensures var st := Exec(Collision(), HarmfulRun()[..5]);
            && st.table[0] == Used(1, Client([1.0], None, None))
            && st.table[1] == Used(2, Client([8.0], None, None))
            && WorkerOf(st, 0) == Idle
            && st.log == [Entry(1, 1.0, None), Entry(2, 8.0, None)]
  {
    var cfg, run := Collision(), HarmfulRun();
    hide Exec, Seek;
    HarmfulRunFirst();
    ExecStep(cfg, run[..2], run[2]);
    ExecStep(cfg, run[..3], run[3]);
    ExecStep(cfg, run[..4], run[4]);
    assert run[..2] + [run[2]] == run[..3] && run[..3] + [run[3]] == run[..4] && run[..4] + [run[4]] == run[..5];
    assert Count(cfg.limits, [], 8.0) == [8.0];
  }

  lemma HarmfulRunEnd()
    ensures Exec(Collision(), HarmfulRun()).log
         == [Entry(1, 1.0, None), Entry(2, 8.0, None), Entry(2, 12.0, None)]
  {
    var cfg, run := Collision(), HarmfulRun();
    hide Exec, Seek;
    HarmfulRunStart();
    ExecStep(cfg, run[..5], run[5]);
    ExecStep(cfg, run[..6], run[6]);
    ExecStep(cfg, run[..7], run[7]);
    assert run[..5] + [run[5]] == run[..6] && run[..6] + [run[6]] == run[..7] && run[..7] + [run[7]] == run;
    assert Count(cfg.limits, [], 12.0) == [12.0];
  }

  /** A single limiter refuses the second request of client 2. */
  lemma TwiceIsTooOften(log: seq<Entry>)
    requires log == [Entry(1, 1.0, None), Entry(2, 8.0, None), Entry(2, 12.0, None)]
    ensures !Answered(Collision().limits, log)
  {
    var l := Collision().limits;
    assert Times(log, 2, 2) == [8.0] by {
      assert Times(log, 2, 1) == [];
    }
    assert [8.0][..0] == [];
    assert Account(l, log, 2, 2) == Client([8.0], None, None) by {
      assert Count(l, [], 8.0) == [8.0];
      assert Run(l, FRESH, []) == FRESH;
    }
    assert Count(l, [8.0], 12.0) == [8.0, 12.0];
    assert !AnsweredAt(l, log, 2);
  }

  /** Without the condition the promise fails: client 2 is served at second 8 and
      again at second 12, twice in one window, where a single limiter refuses it. */
  lemma HarmfulSweepServesTwice()
    ensures Collision().Valid()
    ensures Exec(Collision(), HarmfulRun()).log
         == [Entry(1, 1.0, None), Entry(2, 8.0, None), Entry(2, 12.0, None)]
    ensures !Answered(Collision().limits, Exec(Collision(), HarmfulRun()).log)
  {
    HarmfulRunEnd();
    TwiceIsTooOften(Exec(Collision(), HarmfulRun()).log);
  }
}
