/** What the whole server promises a client, in terms of the requests it has answered. */
module Promises {
  import opened Wrappers
  import opened Window
  import opened History
  import opened ProbeTable
  import opened TableRuns
  import opened TableSweeps

  /** The requests of client `k` among the first `n` carry times that never go back. */
  ghost predicate OwnTimesGrow(log: seq<Entry>, k: Key, n: nat)
    requires n <= |log|
  {
    Sorted(Times(log, k, n))
  }

  /** An earlier refusal told the client to wait for longer than this. */
  ghost predicate TooEarly(log: seq<Entry>, n: nat)
    requires n < |log|
  {
    exists m :: 0 <= m < n && Forbids(log, m, n)
  }

  /** Entry `m` told the client of entry `n` to wait for longer. */
  ghost predicate Forbids(log: seq<Entry>, m: nat, n: nat)
    requires m < |log| && n < |log|
  {
    log[m].key == log[n].key && log[m].wait.Some? && log[n].now < log[m].now + log[m].wait.value
  }

  /** How many of the first `n` requests are of client `k` and later than `x`. */
  ghost function Recently(log: seq<Entry>, k: Key, n: nat, x: real): nat
    requires n <= |log|
  {
    if n == 0 then 0 else Recently(log, k, n - 1, x) + (if log[n - 1].key == k && log[n - 1].now > x then 1 else 0)
  }

  /** What the client of entry `n` can rely on. */
  ghost predicate Kept(l: Limits, log: seq<Entry>, n: nat)
    requires l.Valid() && n < |log|
  {
    var Entry(k, now, wait) := log[n];
    // it was told to wait: it is refused until then, and told exactly what is left
    && (forall m :: 0 <= m < n && Forbids(log, m, n) ==> wait == Some(log[m].now + log[m].wait.value - now))
    // it does not come too early: it is served within its allowance, and locked out for as long as configured
    && (!TooEarly(log, n) && Recently(log, k, n, now - l.window) < l.requests ==> wait.None?)
    && (!TooEarly(log, n) && wait.Some? && l.ban > 0.0 ==> wait == Some(l.ban))
    // in any case the answer is the one its own history gives
    && wait == Verdict(l, Times(log, k, n) + [now], |Times(log, k, n)|)
  }

  lemma {:induction false} TimesGrow(log: seq<Entry>, k: Key, m: nat, n: nat)
    requires m <= n <= |log|
    ensures Times(log, k, m) <= Times(log, k, n)
    decreases n
  {
    if m < n {
      TimesGrow(log, k, m, n - 1);
    }
  }

  lemma OwnTime(log: seq<Entry>, n: nat)
    requires n < |log|
    ensures var before, times := Times(log, log[n].key, n), Times(log, log[n].key, n + 1);
            times == before + [log[n].now] && times[..|before|] == before && |times| == |before| + 1
  {
  }

  /** An entry among the times of its client. */
  lemma EntryIsTold(l: Limits, log: seq<Entry>, m: nat, n: nat)
    requires l.Valid() && Answered(l, log) && m < n <= |log|
    ensures var k := log[m].key;
            var times, p := Times(log, k, n), |Times(log, k, m)|;
            p < |times| && times[p] == log[m].now && Told(l, times, p) == log[m].wait
  {
    var k := log[m].key;
    var before, times := Times(log, k, m), Times(log, k, n);
    TimesGrow(log, k, m + 1, n);
    assert Times(log, k, m + 1) == before + [log[m].now];
    assert times[..|before| + 1] == before + [log[m].now];
    assert AnsweredAt(l, log, m);
    assert (before + [log[m].now])[..|before|] == before;
  }

  /** The entry of a client's request number `p`. */
  lemma {:induction false} EntryOf(log: seq<Entry>, k: Key, n: nat, p: nat) returns (m: nat)
    requires n <= |log| && p < |Times(log, k, n)|
    ensures m < n && log[m].key == k && |Times(log, k, m)| == p
    decreases n
  {
    if p < |Times(log, k, n - 1)| {
      m := EntryOf(log, k, n - 1, p);
    } else {
      m := n - 1;
    }
  }

  lemma {:induction false} RecentlyIsAfter(log: seq<Entry>, k: Key, n: nat, x: real)
    requires n <= |log|
    ensures Recently(log, k, n, x) == After(Times(log, k, n), x)
  {
    if n > 0 {
      RecentlyIsAfter(log, k, n - 1, x);
      var times := Times(log, k, n - 1);
      assert (times + [log[n - 1].now])[..|times|] == times;
    }
  }

  /** Coming too early, in the log and in the client's own history. */
  lemma TooEarlyIffEarly(l: Limits, log: seq<Entry>, n: nat)
    requires l.Valid() && Answered(l, log) && n < |log|
    ensures var k := log[n].key; TooEarly(log, n) <==> Early(l, Times(log, k, n + 1), |Times(log, k, n)|)
  {
    hide Told, Times, Answered;
    var k := log[n].key;
    var times, p := Times(log, k, n + 1), |Times(log, k, n)|;
    EntryIsTold(l, log, n, n + 1);
    if TooEarly(log, n) {
      var m :| 0 <= m < n && Forbids(log, m, n);
      EntryIsTold(l, log, m, n + 1);
      TimesBefore(log, m, n);
    }
    if Early(l, times, p) {
      var q :| 0 <= q < p && Told(l, times, q).Some? && times[p] < times[q] + Told(l, times, q).value;
      var m := EntryOf(log, k, n, q);
      EntryIsTold(l, log, m, n + 1);
      assert Forbids(log, m, n);
    }
  }

  lemma TimesBefore(log: seq<Entry>, m: nat, n: nat)
    requires m < n < |log| && log[m].key == log[n].key
    ensures |Times(log, log[n].key, m)| < |Times(log, log[n].key, n)|
  {
    hide Times;
    OwnTime(log, m);
    TimesGrow(log, log[n].key, m + 1, n);
  }

  lemma WaitIsKept(l: Limits, log: seq<Entry>, m: nat, n: nat)
    requires l.Valid() && Answered(l, log) && m < n < |log| && OwnTimesGrow(log, log[n].key, n + 1) && Forbids(log, m, n)
    ensures log[n].wait == Some(log[m].now + log[m].wait.value - log[n].now)
  {
    hide Told, Times, Answered, Sorted;
    var times := Times(log, log[n].key, n + 1);
    EntryIsTold(l, log, m, n + 1);
    EntryIsTold(l, log, n, n + 1);
    TimesBefore(log, m, n);
    WaitsAreKept(l, times, |Times(log, log[n].key, m)|, |Times(log, log[n].key, n)|);
  }

  lemma AllowanceIsKept(l: Limits, log: seq<Entry>, n: nat)
    requires l.Valid() && Answered(l, log) && n < |log| && OwnTimesGrow(log, log[n].key, n + 1) && !TooEarly(log, n)
    requires Recently(log, log[n].key, n, log[n].now - l.window) < l.requests
    ensures log[n].wait.None?
  {
    hide Told, Answered, Sorted, TooEarly, Early, After, Recently, Times;
    var k, now := log[n].key, log[n].now;
    var before, times := Times(log, k, n), Times(log, k, n + 1);
    EntryIsTold(l, log, n, n + 1);
    TooEarlyIffEarly(l, log, n);
    RecentlyIsAfter(log, k, n, now - l.window);
    OwnTime(log, n);
    AllowanceIsGranted(l, times, |before|);
  }

  lemma LockoutIsKept(l: Limits, log: seq<Entry>, n: nat)
    requires l.Valid() && Answered(l, log) && n < |log| && OwnTimesGrow(log, log[n].key, n + 1) && !TooEarly(log, n)
    requires log[n].wait.Some? && l.ban > 0.0
    ensures log[n].wait == Some(l.ban)
  {
    hide Told, Answered, Sorted, TooEarly, Early, LockedOut, Times;
    var times, p := Times(log, log[n].key, n + 1), |Times(log, log[n].key, n)|;
    EntryIsTold(l, log, n, n + 1);
    TooEarlyIffEarly(l, log, n);
    LockedOutIffEarly(l, times, p);
    LockoutTellsWhatIsLeft(l, times, p);
  }

  /** What one limiter would have answered keeps every promise to a client whose own
      times do not go back. */
  lemma AnsweredIsKept(l: Limits, log: seq<Entry>, n: nat)
    requires l.Valid() && Answered(l, log) && n < |log| && OwnTimesGrow(log, log[n].key, n + 1)
    ensures Kept(l, log, n)
  {
    hide Told, Answered, Sorted, TooEarly, Recently, Verdict, Times;
    OwnTime(log, n);
    forall m | 0 <= m < n && Forbids(log, m, n)
      ensures log[n].wait == Some(log[m].now + log[m].wait.value - log[n].now)
    {
      WaitIsKept(l, log, m, n);
    }
    if !TooEarly(log, n) {
      if log[n].wait.Some? && l.ban > 0.0 {
        LockoutIsKept(l, log, n);
      }
      if Recently(log, log[n].key, n, log[n].now - l.window) < l.requests {
        AllowanceIsKept(l, log, n);
      }
    }
    EntryIsTold(l, log, n, n + 1);
    AnswersFollowHistory(l, Times(log, log[n].key, n + 1), |Times(log, log[n].key, n)|);
  }

  /** The promises hold for the whole server, for any number of workers and any
      interleaving of their probes and time-outs. */
  lemma TableKeepsPromises(cfg: Config, events: seq<Event>, n: nat)
    requires cfg.Valid() && forall i :: 0 <= i < |events| ==> !events[i].Sweep?
    requires var log := Exec(cfg, events).log; n < |log| && OwnTimesGrow(log, log[n].key, n + 1)
    ensures Kept(cfg.limits, Exec(cfg, events).log, n)
  {
    RunsKeepInv(cfg, events);
    AnsweredIsKept(cfg.limits, Exec(cfg, events).log, n);
  }

  /** And with housekeeping going on that strands nobody. */
  lemma SweptTableKeepsPromises(cfg: Config, events: seq<Event>, at: Key -> real, n: nat)
    requires cfg.Valid() && Orderly(cfg, events, at)
    requires var log := Exec(cfg, events).log; n < |log| && OwnTimesGrow(log, log[n].key, n + 1)
    ensures Kept(cfg.limits, Exec(cfg, events).log, n)
  {
    SweptTableIsOneLimiter(cfg, events, at);
    AnsweredIsKept(cfg.limits, Exec(cfg, events).log, n);
  }
}
