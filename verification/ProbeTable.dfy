/** The shared table as a protocol: any number of workers probe, one locked slot
    at a time and in any interleaving, an open-addressed table of clients. */
module ProbeTable {
  import opened Wrappers
  import opened Window

  datatype Slot = Free | Used(key: Key, client: Client)

  datatype Config = Config(limits: Limits, slots: nat, hash: Key -> nat) {
    ghost predicate Valid() {
      limits.Valid() && slots >= MIN_SLOTS
    }
  }

  const PROBES := 4
  const MIN_SLOTS := 256

  /** Where the probe `step` of a client looks. */
  function Home(cfg: Config, k: Key, step: nat): (index: nat)
    requires cfg.slots > 0
    ensures index < cfg.slots
  {
    (cfg.hash(k) + step) % cfg.slots
  }

  /** The slot after one locked look at it, and the decision if it was taken there. */
  function Visit(l: Limits, slot: Slot, k: Key, now: real): (r: (Slot, Option<Option<real>>))
    requires l.Valid()
  {
    if slot.Free? then
      var d := Decide(l, FRESH, now);
      (Used(k, d.client), Some(d.wait))
    else if slot.key == k then
      var d := Decide(l, slot.client, now);
      (Used(k, d.client), Some(d.wait))
    else
      (slot, None)
  }

  datatype Worker = Idle | Probing(key: Key, now: real, step: nat)

  /** A request the table has answered, in the order the slots were locked. */
  datatype Entry = Entry(key: Key, now: real, wait: Option<real>)

  datatype State = State(table: seq<Slot>, workers: map<nat, Worker>, log: seq<Entry>)

  /** What can happen next.  A worker whose lock times out, or whose probes find
      every slot taken, counts the request on its own and leaves the table be. */
  datatype Event =
    | Begin(worker: nat, key: Key, now: real)
    | Probe(worker: nat)
    | TimeOut(worker: nat)
    | Sweep(index: nat, now: real)

  function WorkerOf(st: State, w: nat): Worker {
    if w in st.workers then st.workers[w] else Idle
  }

  function Next(cfg: Config, st: State, e: Event): (r: State)
    requires cfg.Valid() && |st.table| == cfg.slots
    ensures |r.table| == cfg.slots
  {
    match e
    case Begin(w, k, now) =>
      if WorkerOf(st, w).Idle? then st.(workers := st.workers[w := Probing(k, now, 0)]) else st
    case Probe(w) =>
      match WorkerOf(st, w) {
        case Idle => st
        case Probing(k, now, step) =>
          var i := Home(cfg, k, step);
          var (slot, answer) := Visit(cfg.limits, st.table[i], k, now);
          if answer.Some? then
            State(st.table[i := slot], st.workers[w := Idle], st.log + [Entry(k, now, answer.value)])
          else
            st.(workers := st.workers[w := if step + 1 < PROBES then Probing(k, now, step + 1) else Idle])
      }
    case TimeOut(w) => st.(workers := st.workers[w := Idle])
    case Sweep(i, now) =>
      if i < cfg.slots && Stale(cfg.limits, st.table[i], now) then st.(table := st.table[i := Free]) else st
  }

  /** Whether a sweep clears the slot. */
  predicate Stale(l: Limits, slot: Slot, now: real) {
    && slot.Used?
    && (slot.client.bannedUntil.None? || slot.client.bannedUntil.value <= now)
    && (slot.client.hits == [] || slot.client.hits[|slot.client.hits| - 1] <= now - l.window)
  }

  function Start(cfg: Config): State {
    State(seq(cfg.slots, _ => Free), map[], [])
  }

  ghost function Exec(cfg: Config, events: seq<Event>): (r: State)
    requires cfg.Valid()
    ensures |r.table| == cfg.slots
  {
    if events == [] then Start(cfg)
    else Next(cfg, Exec(cfg, events[..|events| - 1]), events[|events| - 1])
  }

  // ----- Where clients are ----------------------------------------------------

  datatype Place = Found(index: nat) | Vacant(index: nat) | Full

  /** Where the probes of `k` end, from `step` on. */
  function Seek(cfg: Config, table: seq<Slot>, k: Key, step: nat): Place
    requires 0 < cfg.slots == |table|
    decreases PROBES - step
  {
    if step >= PROBES then Full
    else
      var i := Home(cfg, k, step);
      if table[i].Free? then Vacant(i)
      else if table[i].key == k then Found(i)
      else Seek(cfg, table, k, step + 1)
  }

  /** Every client is where its probes look for it. */
  ghost predicate Placed(cfg: Config, table: seq<Slot>) {
    && 0 < cfg.slots == |table|
    && forall i :: 0 <= i < |table| && table[i].Used? ==> Seek(cfg, table, table[i].key, 0) == Found(i)
  }

  /** Probes before `step` were all turned away by other clients. */
  ghost predicate Passed(cfg: Config, table: seq<Slot>, k: Key, step: nat)
    requires 0 < cfg.slots == |table|
  {
    step > 0 ==>
      var slot := table[Home(cfg, k, step - 1)];
      slot.Used? && slot.key != k && Passed(cfg, table, k, step - 1)
  }

  lemma {:induction false} PassedSeek(cfg: Config, table: seq<Slot>, k: Key, step: nat)
    requires 0 < cfg.slots == |table| && step <= PROBES && Passed(cfg, table, k, step)
    ensures Seek(cfg, table, k, 0) == Seek(cfg, table, k, step)
  {
    if step > 0 {
      PassedSeek(cfg, table, k, step - 1);
    }
  }

  /** Slots may be taken, but never change hands. */
  ghost predicate Grows(table: seq<Slot>, later: seq<Slot>) {
    && |table| == |later|
    && forall i :: 0 <= i < |table| && table[i].Used? ==> later[i].Used? && later[i].key == table[i].key
  }

  lemma {:induction false} PassedStays(cfg: Config, table: seq<Slot>, later: seq<Slot>, k: Key, step: nat)
    requires 0 < cfg.slots == |table| && Grows(table, later) && Passed(cfg, table, k, step)
    ensures Passed(cfg, later, k, step)
  {
    if step > 0 {
      PassedStays(cfg, table, later, k, step - 1);
    }
  }

  lemma {:induction false} FoundStays(cfg: Config, table: seq<Slot>, later: seq<Slot>, k: Key, step: nat)
    requires 0 < cfg.slots == |table| && Grows(table, later) && Seek(cfg, table, k, step).Found?
    ensures Seek(cfg, later, k, step) == Seek(cfg, table, k, step)
    decreases PROBES - step
  {
    var i := Home(cfg, k, step);
    assert table[i].Used? && later[i].Used? && later[i].key == table[i].key;
    if table[i].key != k {
      FoundStays(cfg, table, later, k, step + 1);
    }
  }

  lemma {:induction false} SeekFinds(cfg: Config, table: seq<Slot>, k: Key, step: nat)
    requires 0 < cfg.slots == |table|
    ensures var p := Seek(cfg, table, k, step);
            && (p.Found? ==> p.index < cfg.slots && table[p.index].Used? && table[p.index].key == k)
            && (p.Vacant? ==> p.index < cfg.slots && table[p.index].Free?)
    decreases PROBES - step
  {
    if step < PROBES {
      SeekFinds(cfg, table, k, step + 1);
    }
  }

  /** What the table knows of a client: nothing is the same as a fresh window. */
  function Known(cfg: Config, table: seq<Slot>, k: Key): Client
    requires 0 < cfg.slots == |table|
  {
    SeekFinds(cfg, table, k, 0);
    var p := Seek(cfg, table, k, 0);
    if p.Found? then table[p.index].client else FRESH
  }

  /** A look that decides is at the slot where the client's probes end. */
  lemma VisitDecides(cfg: Config, table: seq<Slot>, k: Key, now: real, step: nat)
    requires cfg.Valid() && |table| == cfg.slots && step < PROBES && Passed(cfg, table, k, step)
    requires Visit(cfg.limits, table[Home(cfg, k, step)], k, now).1.Some?
    ensures var p, d := Seek(cfg, table, k, 0), Decide(cfg.limits, Known(cfg, table, k), now);
            && !p.Full? && p.index == Home(cfg, k, step)
            && Visit(cfg.limits, table[p.index], k, now) == (Used(k, d.client), Some(d.wait))
  {
    hide Decide;
    PassedSeek(cfg, table, k, step);
  }

  /** Any other look leaves the slot alone and turns the client away. */
  lemma VisitPasses(cfg: Config, table: seq<Slot>, k: Key, now: real, step: nat)
    requires cfg.Valid() && |table| == cfg.slots && step < PROBES && Passed(cfg, table, k, step)
    requires Visit(cfg.limits, table[Home(cfg, k, step)], k, now).1.None?
    ensures Passed(cfg, table, k, step + 1)
    ensures Visit(cfg.limits, table[Home(cfg, k, step)], k, now).0 == table[Home(cfg, k, step)]
  {
    hide Decide;
  }

  /** Taking the decision of `k` where its probes end changes nobody else's. */
  lemma TakeSlot(cfg: Config, table: seq<Slot>, k: Key, c: Client)
    requires cfg.Valid() && Placed(cfg, table) && !Seek(cfg, table, k, 0).Full?
    ensures var i := Seek(cfg, table, k, 0).index;
            && i < |table|
            && var later := table[i := Used(k, c)];
            && Grows(table, later) && Placed(cfg, later)
            && Known(cfg, later, k) == c
            && forall j :: j != k ==> Known(cfg, later, j) == Known(cfg, table, j)
  {
    SeekFinds(cfg, table, k, 0);
    var i := Seek(cfg, table, k, 0).index;
    var later := table[i := Used(k, c)];
    SeekTaken(cfg, table, k, c, 0);
    forall j | 0 <= j < |later| && later[j].Used?
      ensures Seek(cfg, later, later[j].key, 0) == Found(j)
    {
      if j != i {
        FoundStays(cfg, table, later, later[j].key, 0);
      }
    }
    forall j | j != k
      ensures Known(cfg, later, j) == Known(cfg, table, j)
    {
      SeekFinds(cfg, later, j, 0);
      if Seek(cfg, table, j, 0).Found? {
        FoundStays(cfg, table, later, j, 0);
      } else if Seek(cfg, later, j, 0).Found? {
        assert false;
      }
    }
  }

  lemma KnownWhereTaken(cfg: Config, table: seq<Slot>, k: Key, c: Client)
    requires 0 < cfg.slots == |table| && !Seek(cfg, table, k, 0).Full?
    ensures var i := Seek(cfg, table, k, 0).index;
            i < |table| && Known(cfg, table[i := Used(k, c)], k) == c
  {
    SeekTaken(cfg, table, k, c, 0);
  }

  lemma {:induction false} SeekTaken(cfg: Config, table: seq<Slot>, k: Key, c: Client, step: nat)
    requires 0 < cfg.slots == |table| && !Seek(cfg, table, k, step).Full?
    ensures var i := Seek(cfg, table, k, step).index;
            i < |table| && Seek(cfg, table[i := Used(k, c)], k, step) == Found(i)
    decreases PROBES - step
  {
    SeekFinds(cfg, table, k, step);
    var at := Home(cfg, k, step);
    if table[at].Used? && table[at].key != k {
      SeekTaken(cfg, table, k, c, step + 1);
      var i := Seek(cfg, table, k, step + 1).index;
      assert i != at by {
        SeekFinds(cfg, table, k, step + 1);
      }
    }
  }
}

/** What any run of the shared table guarantees. */
module TableRuns {
  import opened Wrappers
  import opened Window
  import opened ProbeTable

  /** The times of client `k` among the first `n` answered requests, in lock order. */
  function Times(log: seq<Entry>, k: Key, n: nat): seq<real>
    requires n <= |log|
  {
    if n == 0 then []
    else if log[n - 1].key == k then Times(log, k, n - 1) + [log[n - 1].now]
    else Times(log, k, n - 1)
  }

  /** The account a single limiter keeps of `k` after it has seen the first `n`. */
  ghost function Account(l: Limits, log: seq<Entry>, k: Key, n: nat): Client
    requires l.Valid() && n <= |log|
  {
    Run(l, FRESH, Times(log, k, n))
  }

  /** Every answer in the log is the answer of that single limiter. */
  ghost predicate Answered(l: Limits, log: seq<Entry>)
    requires l.Valid()
  {
    forall i :: 0 <= i < |log| ==> AnsweredAt(l, log, i)
  }

  ghost predicate AnsweredAt(l: Limits, log: seq<Entry>, i: nat)
    requires l.Valid() && i < |log|
  {
    log[i].wait == Decide(l, Account(l, log, log[i].key, i), log[i].now).wait
  }

  lemma {:induction false} TimesPrefix(log: seq<Entry>, e: Entry, k: Key, n: nat)
    requires n <= |log|
    ensures Times(log + [e], k, n) == Times(log, k, n)
  {
    if n > 0 {
      TimesPrefix(log, e, k, n - 1);
    }
  }

  lemma AccountStep(l: Limits, log: seq<Entry>, e: Entry, k: Key)
    requires l.Valid()
    ensures var next := log + [e];
            Account(l, next, k, |next|)
            == if k == e.key then Decide(l, Account(l, log, k, |log|), e.now).client else Account(l, log, k, |log|)
  {
    TimesPrefix(log, e, k, |log|);
    var times := Times(log, k, |log|);
    assert (times + [e.now])[..|times|] == times;
  }

  lemma AnsweredStep(l: Limits, log: seq<Entry>, e: Entry)
    requires l.Valid() && Answered(l, log)
    requires e.wait == Decide(l, Account(l, log, e.key, |log|), e.now).wait
    ensures Answered(l, log + [e])
  {
    var next := log + [e];
    forall i | 0 <= i < |next|
      ensures AnsweredAt(l, next, i)
    {
      assert i < |log| ==> AnsweredAt(l, log, i);
      TimesPrefix(log, e, next[i].key, i);
    }
  }

  ghost predicate WorkersPassed(cfg: Config, st: State)
    requires cfg.Valid() && |st.table| == cfg.slots
  {
    forall w :: w in st.workers && st.workers[w].Probing? ==>
      st.workers[w].step < PROBES && Passed(cfg, st.table, st.workers[w].key, st.workers[w].step)
  }

  /** What holds between any two steps of the workers. */
  ghost predicate Inv(cfg: Config, st: State)
    requires cfg.Valid() && |st.table| == cfg.slots
  {
    && Placed(cfg, st.table)
    && WorkersPassed(cfg, st)
    && Answered(cfg.limits, st.log)
    && forall k :: Known(cfg, st.table, k) == Account(cfg.limits, st.log, k, |st.log|)
  }

  lemma WorkersStayPassed(cfg: Config, st: State, next: State)
    requires cfg.Valid() && |st.table| == cfg.slots && Grows(st.table, next.table) && WorkersPassed(cfg, st)
    requires forall w :: w in next.workers && next.workers[w].Probing? ==>
               w in st.workers && st.workers[w] == next.workers[w]
    ensures WorkersPassed(cfg, next)
  {
    forall w | w in next.workers && next.workers[w].Probing?
      ensures Passed(cfg, next.table, next.workers[w].key, next.workers[w].step)
    {
      PassedStays(cfg, st.table, next.table, next.workers[w].key, next.workers[w].step);
    }
  }

  lemma AnswerKeepsInv(cfg: Config, st: State, next: State, k: Key, now: real)
    requires cfg.Valid() && |st.table| == cfg.slots && Inv(cfg, st) && !Seek(cfg, st.table, k, 0).Full?
    requires var d := Decide(cfg.limits, Known(cfg, st.table, k), now);
             && Seek(cfg, st.table, k, 0).index < |st.table|
             && next.table == st.table[Seek(cfg, st.table, k, 0).index := Used(k, d.client)]
             && next.log == st.log + [Entry(k, now, d.wait)]
    requires WorkersPassed(cfg, next)
    ensures Inv(cfg, next)
  {
    var d := Decide(cfg.limits, Known(cfg, st.table, k), now);
    TakeSlot(cfg, st.table, k, d.client);
    assert Known(cfg, st.table, k) == Account(cfg.limits, st.log, k, |st.log|);
    AnsweredStep(cfg.limits, st.log, Entry(k, now, d.wait));
    forall j
      ensures Known(cfg, next.table, j) == Account(cfg.limits, next.log, j, |next.log|)
    {
      assert Known(cfg, st.table, j) == Account(cfg.limits, st.log, j, |st.log|);
      AccountStep(cfg.limits, st.log, Entry(k, now, d.wait), j);
    }
  }

  /** A probe that takes its slot takes the one where the client's probes end. */
  lemma AnsweredProbe(cfg: Config, st: State, w: nat)
    requires cfg.Valid() && |st.table| == cfg.slots && WorkersPassed(cfg, st) && WorkerOf(st, w).Probing?
    requires var Probing(k, now, step) := WorkerOf(st, w);
             Visit(cfg.limits, st.table[Home(cfg, k, step)], k, now).1.Some?
    ensures var Probing(k, now, step) := WorkerOf(st, w);
            var d, p := Decide(cfg.limits, Known(cfg, st.table, k), now), Seek(cfg, st.table, k, 0);
            && !p.Full? && p.index == Home(cfg, k, step)
            && Next(cfg, st, Probe(w))
               == State(st.table[p.index := Used(k, d.client)], st.workers[w := Idle], st.log + [Entry(k, now, d.wait)])
  {
    VisitDecides(cfg, st.table, st.workers[w].key, st.workers[w].now, st.workers[w].step);
  }

  lemma ProbeKeepsInv(cfg: Config, st: State, w: nat)
    requires cfg.Valid() && |st.table| == cfg.slots && Inv(cfg, st) && WorkerOf(st, w).Probing?
    ensures Inv(cfg, Next(cfg, st, Probe(w)))
  {
    var Probing(k, now, step) := st.workers[w];
    var next := Next(cfg, st, Probe(w));
    if Visit(cfg.limits, st.table[Home(cfg, k, step)], k, now).1.Some? {
      AnsweredProbe(cfg, st, w);
      TakeSlot(cfg, st.table, k, Decide(cfg.limits, Known(cfg, st.table, k), now).client);
      WorkersStayPassed(cfg, st, next);
      AnswerKeepsInv(cfg, st, next, k, now);
    }
  }

  lemma {:induction false} RunsKeepInv(cfg: Config, events: seq<Event>)
    requires cfg.Valid()
    requires forall i :: 0 <= i < |events| ==> !events[i].Sweep?
    ensures Inv(cfg, Exec(cfg, events))
  {
    if events != [] {
      var front, e := events[..|events| - 1], events[|events| - 1];
      RunsKeepInv(cfg, front);
      if e.Probe? && WorkerOf(Exec(cfg, front), e.worker).Probing? {
        ProbeKeepsInv(cfg, Exec(cfg, front), e.worker);
      }
    }
  }

  // ----- Main results -----------------------------------------------------------

  /** The table shape in plain words: a client is in one slot at most, and every
      slot its probes look at before that one is held by somebody else. */
  ghost predicate WellFormed(cfg: Config, table: seq<Slot>)
    requires cfg.Valid() && |table| == cfg.slots
  {
    && (forall i, j :: 0 <= i < j < |table| && table[i].Used? && table[j].Used? ==> table[i].key != table[j].key)
    && (forall i :: 0 <= i < |table| && table[i].Used? ==> Reached(cfg, table, table[i].key, i))
  }

  ghost predicate Reached(cfg: Config, table: seq<Slot>, k: Key, i: nat)
    requires cfg.Valid() && |table| == cfg.slots
  {
    exists step :: 0 <= step < PROBES && Home(cfg, k, step) == i && HeldByOthers(cfg, table, k, step)
  }

  ghost predicate HeldByOthers(cfg: Config, table: seq<Slot>, k: Key, step: nat)
    requires cfg.Valid() && |table| == cfg.slots
  {
    forall s :: 0 <= s < step ==> table[Home(cfg, k, s)].Used? && table[Home(cfg, k, s)].key != k
  }

  lemma {:induction false} FoundIsReached(cfg: Config, table: seq<Slot>, k: Key, step: nat)
    requires cfg.Valid() && |table| == cfg.slots
    requires HeldByOthers(cfg, table, k, step) && Seek(cfg, table, k, step).Found?
    ensures Reached(cfg, table, k, Seek(cfg, table, k, step).index)
    decreases PROBES - step
  {
    if Seek(cfg, table, k, step) != Found(Home(cfg, k, step)) {
      FoundIsReached(cfg, table, k, step + 1);
    }
  }

  lemma PlacedIsWellFormed(cfg: Config, table: seq<Slot>)
    requires cfg.Valid() && |table| == cfg.slots && Placed(cfg, table)
    ensures WellFormed(cfg, table)
  {
    forall i | 0 <= i < |table| && table[i].Used?
      ensures Reached(cfg, table, table[i].key, i)
    {
      FoundIsReached(cfg, table, table[i].key, 0);
    }
  }

  /** For any number of workers, any interleaving of their probes, any lock
      time-outs and any clock: the table keeps its shape, and every request it
      answers is answered as one limiter that saw the requests in lock order
      would have answered it. */
  lemma TableIsOneLimiter(cfg: Config, events: seq<Event>)
    requires cfg.Valid()
    requires forall i :: 0 <= i < |events| ==> !events[i].Sweep?
    ensures WellFormed(cfg, Exec(cfg, events).table)
    ensures var log := Exec(cfg, events).log;
            forall i :: 0 <= i < |log| ==>
              log[i].wait == Answer(cfg.limits, FRESH, Times(log, log[i].key, i) + [log[i].now]).wait
  {
    RunsKeepInv(cfg, events);
    var st := Exec(cfg, events);
    PlacedIsWellFormed(cfg, st.table);
    forall i | 0 <= i < |st.log|
      ensures st.log[i].wait == Answer(cfg.limits, FRESH, Times(st.log, st.log[i].key, i) + [st.log[i].now]).wait
    {
      var before := Times(st.log, st.log[i].key, i);
      assert AnsweredAt(cfg.limits, st.log, i);
      assert (before + [st.log[i].now])[..|before|] == before;
    }
  }

  /** How many of the requests `log[i..j]` of client `k` were served. */
  ghost function ServedTo(log: seq<Entry>, k: Key, i: nat, j: nat): nat
    requires i <= j <= |log|
    decreases j
  {
    if i == j then 0
    else ServedTo(log, k, i, j - 1) + (if log[j - 1].key == k && log[j - 1].wait.None? then 1 else 0)
  }

  lemma {:induction false} ServedToIsServedBetween(l: Limits, log: seq<Entry>, k: Key, i: nat, j: nat)
    requires l.Valid() && Answered(l, log) && i <= j <= |log|
    ensures |Times(log, k, i)| <= |Times(log, k, j)|
    ensures ServedTo(log, k, i, j) == ServedBetween(l, Times(log, k, j), |Times(log, k, i)|, |Times(log, k, j)|)
    decreases j
  {
    hide Decide, Run;
    if i < j {
      ServedToIsServedBetween(l, log, k, i, j - 1);
      if log[j - 1].key == k {
        var before, times := Times(log, k, j - 1), Times(log, k, j);
        assert times[..|times| - 1] == before && AnsweredAt(l, log, j - 1);
        ServedBetweenLast(l, times, |Times(log, k, i)|);
      }
    }
  }

  /** Among the first `j` entries, those of client `k` are from no later than `hi`, and
      from entry `i` on from no earlier than `lo`. */
  ghost predicate Between(log: seq<Entry>, k: Key, i: nat, j: nat, lo: real, hi: real)
    requires i <= j <= |log|
  {
    && (forall n :: 0 <= n < j && log[n].key == k ==> log[n].now <= hi)
    && (forall n :: i <= n < j && log[n].key == k ==> lo <= log[n].now)
  }

  lemma {:induction false} TimesBetween(log: seq<Entry>, k: Key, i: nat, j: nat, lo: real, hi: real)
    requires i <= j <= |log| && Between(log, k, i, j, lo, hi)
    ensures var m, times := |Times(log, k, i)|, Times(log, k, j);
            && m <= |times| && (forall n :: 0 <= n < |times| ==> times[n] <= hi)
            && (forall n :: m <= n < |times| ==> lo <= times[n])
    decreases j
  {
    if i < j {
      TimesBetween(log, k, i, j - 1, lo, hi);
    } else if j > 0 {
      TimesBetween(log, k, j - 1, j - 1, hi, hi);
    }
  }

  /** What one limiter would have answered keeps to the allowance. */
  lemma BoundedWhenAnswered(l: Limits, log: seq<Entry>, k: Key, i: nat, j: nat, lo: real, hi: real)
    requires l.Valid() && Answered(l, log) && hi - lo < l.window
    requires i <= j <= |log| && Between(log, k, i, j, lo, hi)
    ensures ServedTo(log, k, i, j) <= l.requests + (if l.peak > l.requests then 1 else 0)
  {
    ServedToIsServedBetween(l, log, k, i, j);
    TimesBetween(log, k, i, j, lo, hi);
    SlidingWindowBound(l, Times(log, k, j), |Times(log, k, i)|, |Times(log, k, j)|, lo, hi);
  }

  /** The allowance is the server's: whatever the workers interleave, and however the
      clocks they have read compare for different clients, no client is served more than
      `requests` times, plus one burst, among its requests between `lo` and `hi`, less
      than a window apart, if none of its own came from later before that. */
  lemma TableSlidingWindow(cfg: Config, events: seq<Event>, k: Key, i: nat, j: nat, lo: real, hi: real)
    requires cfg.Valid() && hi - lo < cfg.limits.window
    requires forall n :: 0 <= n < |events| ==> !events[n].Sweep?
    requires i <= j <= |Exec(cfg, events).log| && Between(Exec(cfg, events).log, k, i, j, lo, hi)
    ensures ServedTo(Exec(cfg, events).log, k, i, j)
         <= cfg.limits.requests + (if cfg.limits.peak > cfg.limits.requests then 1 else 0)
  {
    RunsKeepInv(cfg, events);
    BoundedWhenAnswered(cfg.limits, Exec(cfg, events).log, k, i, j, lo, hi);
  }
}
