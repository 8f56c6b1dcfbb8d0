/** A worker that is left to probe gets its answer, unless its client's slots are all taken. */
module ProbeProgress {
  import opened Wrappers
  import opened Window
  import opened ProbeTable
  import opened TableRuns

  // ----- Which slots are looked at -------------------------------------------------------------

  lemma Apart(p: nat, q: nat, n: nat)
    requires p < q
    ensures p * n + n <= q * n
  {
    assert q * n == p * n + (q - p) * n;
    assert (q - p) * n == n + (q - p - 1) * n;
  }

  lemma Remainder(q: nat, r: nat, n: nat)
    requires r < n
    ensures (q * n + r) % n == r
  {
    var b := q * n + r;
    var other, left := b / n, b % n;
    assert b == n * other + left && n * other == other * n;
    if q > other {
      Apart(other, q, n);
    } else if q < other {
      Apart(q, other, n);
    }
  }

  /** The slots of a client stand side by side, and wrap around at the end of the table. */
  lemma HomeIs(cfg: Config, k: Key, step: nat)
    requires cfg.Valid() && step < PROBES
    ensures var first, n := cfg.hash(k) % cfg.slots, cfg.slots;
            Home(cfg, k, step) == if first + step < n then first + step else first + step - n
  {
    var h, n := cfg.hash(k), cfg.slots;
    var q, first := h / n, h % n;
    assert h == q * n + first;
    if first + step < n {
      Remainder(q, first + step, n);
      assert h + step == q * n + (first + step);
    } else {
      Remainder(q + 1, first + step - n, n);
      assert h + step == (q + 1) * n + (first + step - n);
    }
  }

  /** There are as many of them as there are probes. */
  lemma HomesDiffer(cfg: Config, k: Key, s: nat, t: nat)
    requires cfg.Valid() && s < t < PROBES
    ensures Home(cfg, k, s) != Home(cfg, k, t)
  {
    HomeIs(cfg, k, s);
    HomeIs(cfg, k, t);
    hide Home;
  }

  // ----- A worker that goes on ---------------------------------------------------------------------

  /** A worker that probes `n` times while nobody else does anything. */
  function ProbeOn(cfg: Config, st: State, w: nat, n: nat): (r: State)
    requires cfg.Valid() && |st.table| == cfg.slots
    ensures |r.table| == cfg.slots
    decreases n
  {
    if n == 0 then st else ProbeOn(cfg, Next(cfg, st, Probe(w)), w, n - 1)
  }

  lemma {:induction false} IdleStays(cfg: Config, st: State, w: nat, n: nat)
    requires cfg.Valid() && |st.table| == cfg.slots && WorkerOf(st, w).Idle?
    ensures ProbeOn(cfg, st, w, n) == st
    decreases n
  {
    if n > 0 {
      IdleStays(cfg, st, w, n - 1);
    }
  }

  lemma {:induction false} HeldIffPassed(cfg: Config, table: seq<Slot>, k: Key, step: nat)
    requires cfg.Valid() && |table| == cfg.slots
    ensures Passed(cfg, table, k, step) <==> HeldByOthers(cfg, table, k, step)
  {
    hide Home;
    if step > 0 {
      HeldIffPassed(cfg, table, k, step - 1);
    }
  }

  lemma HeldBefore(cfg: Config, table: seq<Slot>, k: Key, step: nat)
    requires cfg.Valid() && |table| == cfg.slots && step < PROBES && HeldByOthers(cfg, table, k, PROBES)
    ensures table[Home(cfg, k, step)].Used? && table[Home(cfg, k, step)].key != k
  {
  }

  /** What the worker has achieved when it has come to rest. */
  ghost predicate CameToRest(cfg: Config, st: State, w: nat, k: Key, now: real, d: State)
    requires cfg.Valid() && |st.table| == cfg.slots && |d.table| == cfg.slots
  {
    && WorkerOf(d, w).Idle?
    && if HeldByOthers(cfg, st.table, k, PROBES) then d.table == st.table && d.log == st.log
       else
         var p, e := Seek(cfg, st.table, k, 0), Decide(cfg.limits, Known(cfg, st.table, k), now);
         && !p.Full? && p.index < cfg.slots
         && d.table == st.table[p.index := Used(k, e.client)] && d.log == st.log + [Entry(k, now, e.wait)]
  }

  lemma {:induction false} ComesToRest(cfg: Config, st: State, w: nat, n: nat)
    requires cfg.Valid() && |st.table| == cfg.slots && WorkersPassed(cfg, st) && WorkerOf(st, w).Probing?
    requires n >= PROBES - WorkerOf(st, w).step
    ensures var Probing(k, now, _) := WorkerOf(st, w); CameToRest(cfg, st, w, k, now, ProbeOn(cfg, st, w, n))
    decreases n
  {
    hide Decide, Home, Seek, Known;
    var Probing(k, now, step) := WorkerOf(st, w);
    var next, slot := Next(cfg, st, Probe(w)), st.table[Home(cfg, k, step)];
    if Visit(cfg.limits, slot, k, now).1.Some? {
      AnsweredProbe(cfg, st, w);
      if HeldByOthers(cfg, st.table, k, PROBES) {
        HeldBefore(cfg, st.table, k, step);
      }
      IdleStays(cfg, next, w, n - 1);
    } else {
      VisitPasses(cfg, st.table, k, now, step);
      HeldIffPassed(cfg, st.table, k, step + 1);
      if step + 1 < PROBES {
        ComesToRest(cfg, next, w, n - 1);
      } else {
        IdleStays(cfg, next, w, n - 1);
      }
    }
  }

  /** A worker that waits too long for a lock is free again, and has changed nothing. */
  lemma TimedOutIsFree(cfg: Config, st: State, w: nat)
    requires cfg.Valid() && |st.table| == cfg.slots
    ensures var d := Next(cfg, st, TimeOut(w));
            && WorkerOf(d, w).Idle? && d.table == st.table && d.log == st.log
            && forall v :: v != w ==> WorkerOf(d, v) == WorkerOf(st, v)
  {
  }

  /** In every reachable state without sweeps: a worker that goes on probing has its client's
      request answered, as one limiter would answer it, and in the log; unless all of the
      client's slots are held by others, and only then is it turned away. */
  lemma AnsweredUnlessFull(cfg: Config, events: seq<Event>, w: nat)
    requires cfg.Valid() && forall i :: 0 <= i < |events| ==> !events[i].Sweep?
    requires WorkerOf(Exec(cfg, events), w).Probing?
    ensures var st := Exec(cfg, events);
            var Probing(k, now, _) := WorkerOf(st, w);
            var d := ProbeOn(cfg, st, w, PROBES);
            && WorkerOf(d, w).Idle?
            && d.log == if HeldByOthers(cfg, st.table, k, PROBES) then st.log
                        else st.log + [Entry(k, now, Decide(cfg.limits, Account(cfg.limits, st.log, k, |st.log|), now).wait)]
  {
    hide Decide, Known, HeldByOthers, Account, Seek;
    RunsKeepInv(cfg, events);
    ComesToRest(cfg, Exec(cfg, events), w, PROBES);
  }
}
