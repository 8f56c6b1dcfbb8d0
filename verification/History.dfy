/** The rule for one client, seen from its history alone: what the answers are in terms
    of all the earlier requests and how they were answered, with nothing forgotten. */
module History {
  import opened Wrappers
  import opened Window

  /** How request `n` was answered. */
  ghost function Told(l: Limits, times: seq<real>, n: nat): Option<real>
    requires l.Valid() && n < |times|
  {
    Answer(l, FRESH, times[..n + 1]).wait
  }

  /** What is remembered of the client when request `n` comes. */
  ghost function State(l: Limits, times: seq<real>, n: nat): Client
    requires l.Valid() && n <= |times|
  {
    Run(l, FRESH, times[..n])
  }

  lemma OneStep(l: Limits, times: seq<real>, n: nat)
    requires l.Valid() && n < |times|
    ensures Told(l, times, n) == Decide(l, State(l, times, n), times[n]).wait
    ensures State(l, times, n + 1) == Decide(l, State(l, times, n), times[n]).client
  {
    assert times[..n + 1][..n] == times[..n] && times[..n + 1][n] == times[n];
  }

  // ----- Lockouts, in any order of times -------------------------------------------------

  /** When the lockout ends that request `n` may run into.  One begins with a refusal
      that comes under no other, and lasts for `ban`. */
  ghost function LockedUntil(l: Limits, times: seq<real>, n: nat): Option<real>
    requires l.Valid() && n <= |times|
    decreases n, 0
  {
    if n == 0 then None
    else if LockedOut(l, times, n - 1) then LockedUntil(l, times, n - 1)
    else if Told(l, times, n - 1).Some? && l.ban > 0.0 then Some(times[n - 1] + l.ban)
    else None
  }

  ghost predicate LockedOut(l: Limits, times: seq<real>, n: nat)
    requires l.Valid() && n < |times|
    decreases n, 1
  {
    var until := LockedUntil(l, times, n);
    until.Some? && times[n] < until.value
  }

  lemma {:induction false} LockoutIsRemembered(l: Limits, times: seq<real>, n: nat)
    requires l.Valid() && n <= |times|
    ensures LockedUntil(l, times, n) == State(l, times, n).bannedUntil
  {
    hide Told, State, Decide;
    assert times[..0] == [];
    if n > 0 {
      LockoutIsRemembered(l, times, n - 1);
      OneStep(l, times, n - 1);
      LockoutStep(l, State(l, times, n - 1), times[n - 1]);
    } else {
      StartsFresh(l, times);
    }
  }

  lemma StartsFresh(l: Limits, times: seq<real>)
    requires l.Valid()
    ensures State(l, times, 0) == FRESH
  {
    assert times[..0] == [];
  }

  /** What one request does to the lockout, and what it is told. */
  lemma LockoutStep(l: Limits, c: Client, now: real)
    requires l.Valid()
    ensures var d, until := Decide(l, c, now), c.bannedUntil;
            if until.Some? && now < until.value then d.client == c && d.wait == Some(until.value - now)
            else if d.wait.Some? && l.ban > 0.0 then d.wait == Some(l.ban) && d.client.bannedUntil == Some(now + l.ban)
            else d.client.bannedUntil.None?
  {
    hide Count;
  }

  /** With a lockout configured, the refusal that begins one tells the client to wait for
      as long as it lasts, and every refusal under it what is left of it. */
  lemma LockoutTellsWhatIsLeft(l: Limits, times: seq<real>, n: nat)
    requires l.Valid() && n < |times|
    ensures LockedOut(l, times, n) ==> Told(l, times, n) == Some(LockedUntil(l, times, n).value - times[n])
    ensures !LockedOut(l, times, n) && Told(l, times, n).Some? && l.ban > 0.0 ==> Told(l, times, n) == Some(l.ban)
  {
    hide Told, State, Decide, LockedUntil;
    LockoutIsRemembered(l, times, n);
    OneStep(l, times, n);
    LockoutStep(l, State(l, times, n), times[n]);
  }

  /** While a lockout is in force it stays as it is, and nothing counts. */
  lemma {:induction false} LockoutStays(l: Limits, times: seq<real>, i: nat, j: nat, until: real)
    requires l.Valid() && i <= j <= |times| && LockedUntil(l, times, i) == Some(until)
    requires forall n :: i <= n < j ==> times[n] < until
    ensures LockedUntil(l, times, j) == Some(until) && Counted(l, times, j) == Counted(l, times, i)
    decreases j
  {
    hide Told, Crowd;
    if i < j {
      LockoutStays(l, times, i, j - 1, until);
      assert LockedOut(l, times, j - 1);
    }
  }

  lemma LockoutBegins(l: Limits, times: seq<real>, i: nat)
    requires l.Valid() && l.ban > 0.0 && i < |times| && !LockedOut(l, times, i) && Told(l, times, i).Some?
    ensures LockedUntil(l, times, i + 1) == Some(times[i] + l.ban)
  {
    hide Told, LockedOut;
  }

  /** A lockout keeps its word: every request before its end is refused, and told to wait
      for exactly what is left. */
  lemma LockoutLasts(l: Limits, times: seq<real>, i: nat, j: nat)
    requires l.Valid() && l.ban > 0.0 && i < j < |times|
    requires !LockedOut(l, times, i) && Told(l, times, i).Some?
    requires forall n :: i < n <= j ==> times[n] < times[i] + l.ban
    ensures LockedOut(l, times, j) && Told(l, times, j) == Some(times[i] + l.ban - times[j])
  {
    hide Told, LockedUntil;
    LockoutBegins(l, times, i);
    LockoutStays(l, times, i + 1, j, times[i] + l.ban);
    LockoutTellsWhatIsLeft(l, times, j);
  }

  // ----- The window ------------------------------------------------------------------------

  /** The entries later than `x`, in order. */
  ghost function Later(s: seq<real>, x: real): seq<real> {
    if s == [] then []
    else
      var front, last := Later(s[..|s| - 1], x), s[|s| - 1];
      if last > x then front + [last] else front
  }

  /** How full the window of request `n` is, with the request itself. */
  ghost function Crowd(l: Limits, times: seq<real>, n: nat): nat
    requires l.Valid() && n < |times|
    decreases n, 1
  {
    |Later(Counted(l, times, n), times[n] - l.window)| + 1
  }

  /** All requests in front of number `n` that count: those that come neither under a
      lockout nor into a full window. */
  ghost function Counted(l: Limits, times: seq<real>, n: nat): seq<real>
    requires l.Valid() && n <= |times|
    decreases n, 0
  {
    if n == 0 then []
    else
      var before := Counted(l, times, n - 1);
      if LockedOut(l, times, n - 1) || Crowd(l, times, n - 1) > l.peak + 1 then before
      else before + [times[n - 1]]
  }

  /** Request `n` is served although it is beyond the allowance. */
  ghost predicate BurstAt(l: Limits, times: seq<real>, n: nat)
    requires l.Valid() && n < |times|
  {
    !LockedOut(l, times, n) && Told(l, times, n).None? && Crowd(l, times, n) > l.requests
  }

  /** There was a burst in the window of request `n`. */
  ghost predicate BurstSpent(l: Limits, times: seq<real>, n: nat)
    requires l.Valid() && n < |times|
  {
    exists m :: 0 <= m < n && BurstAt(l, times, m) && times[m] > times[n] - l.window
  }

  lemma {:induction false} ExpireIsLater(s: seq<real>, x: real)
    requires Sorted(s)
    ensures Later(s, x) == Expire(s, x)
  {
    if s != [] {
      var front := s[..|s| - 1];
      assert s == front + [s[|s| - 1]];
      ExpireIsLater(front, x);
      SortedOrder(s);
      ExpireAppend(front, s[|s| - 1], x);
      ExpireIsSuffix(front, x);
    }
  }

  lemma {:induction false} ExpireAppend(s: seq<real>, last: real, x: real)
    requires forall i :: 0 <= i < |s| ==> s[i] <= last
    ensures Expire(s + [last], x) == if last > x then Expire(s, x) + [last] else []
  {
    if s == [] {
      assert [] + [last] == [last] && [last][1..] == [];
    } else if s[0] <= x {
      assert (s + [last])[1..] == s[1..] + [last];
      ExpireAppend(s[1..], last, x);
    }
  }

  /** What is remembered, compared with what has been counted: from `t` on the windows
      are the same. */
  ghost predicate SameWindow(l: Limits, hits: seq<real>, counted: seq<real>, t: real) {
    && Sorted(hits) && Sorted(counted)
    && (hits != [] ==> hits[|hits| - 1] <= t) && (counted != [] ==> counted[|counted| - 1] <= t)
    && Expire(hits, t - l.window) == Expire(counted, t - l.window)
  }

  lemma SameWindowLater(l: Limits, hits: seq<real>, counted: seq<real>, s: real, t: real)
    requires SameWindow(l, hits, counted, s) && s <= t
    ensures SameWindow(l, hits, counted, t)
  {
    ExpireTwice(hits, s - l.window, t - l.window);
    ExpireTwice(counted, s - l.window, t - l.window);
  }

  lemma AppendSorted(s: seq<real>, t: real)
    requires Sorted(s) && (s != [] ==> s[|s| - 1] <= t)
    ensures Sorted(s + [t])
  {
    var longer := s + [t];
    assert longer[..|s|] == s && longer[|s|] == t;
    if s != [] {
      assert longer[|s| - 1] == s[|s| - 1];
      assert Sorted(longer[..|longer| - 1]);
    }
  }

  lemma SameWindowGrows(l: Limits, hits: seq<real>, counted: seq<real>, t: real)
    requires l.Valid() && SameWindow(l, hits, counted, t)
    ensures SameWindow(l, hits + [t], counted + [t], t)
  {
    AppendSorted(hits, t);
    AppendSorted(counted, t);
    SortedOrder(hits);
    SortedOrder(counted);
    ExpireAppend(hits, t, t - l.window);
    ExpireAppend(counted, t, t - l.window);
  }

  lemma SameWindowExpired(l: Limits, hits: seq<real>, counted: seq<real>, t: real)
    requires SameWindow(l, hits, counted, t)
    ensures SameWindow(l, Expire(hits, t - l.window), counted, t)
  {
    ExpireKeepsSorted(hits, t - l.window);
    ExpireIsSuffix(hits, t - l.window);
    ExpireTwice(hits, t - l.window, t - l.window);
  }

  /** The time of the last request in front of number `n`. */
  ghost function Last(times: seq<real>, n: nat): real
    requires n <= |times|
  {
    if n > 0 then times[n - 1] else if times != [] then times[0] else 0.0
  }

  lemma {:induction false} WindowIsRemembered(l: Limits, times: seq<real>, n: nat)
    requires l.Valid() && n <= |times| && Sorted(times)
    ensures SameWindow(l, State(l, times, n).hits, Counted(l, times, n), Last(times, n))
  {
    if n == 0 {
      assert times[..0] == [];
    } else {
      SortedOrder(times);
      WindowIsRemembered(l, times, n - 1);
      SameWindowLater(l, State(l, times, n - 1).hits, Counted(l, times, n - 1), Last(times, n - 1), times[n - 1]);
      WindowStep(l, times, n - 1);
    }
  }

  lemma WindowStep(l: Limits, times: seq<real>, n: nat)
    requires l.Valid() && n < |times|
    requires SameWindow(l, State(l, times, n).hits, Counted(l, times, n), times[n])
    ensures SameWindow(l, State(l, times, n + 1).hits, Counted(l, times, n + 1), times[n])
  {
    hide SameWindow, Judge, Later, LockedUntil;
    var c, counted, now := State(l, times, n), Counted(l, times, n), times[n];
    LockoutIsRemembered(l, times, n);
    OneStep(l, times, n);
    if !LockedOut(l, times, n) {
      var live := Expire(c.hits, now - l.window);
      CrowdIsCounted(l, times, n);
      SameWindowExpired(l, c.hits, counted, now);
      SameWindowGrows(l, live, counted, now);
      UnlockedHits(l, c, now);
    }
  }

  /** What one request that is not locked out leaves in the window. */
  lemma UnlockedHits(l: Limits, c: Client, now: real)
    requires l.Valid() && !(c.bannedUntil.Some? && now < c.bannedUntil.value)
    ensures var live := Expire(c.hits, now - l.window);
            Decide(l, c, now).client.hits == if |live| < l.peak + 1 then live + [now] else live
  {
    hide Expire;
  }

  /** The window of a request, as it is counted and as it is remembered. */
  lemma CrowdIsCounted(l: Limits, times: seq<real>, n: nat)
    requires l.Valid() && n < |times|
    requires SameWindow(l, State(l, times, n).hits, Counted(l, times, n), times[n])
    ensures var live := Expire(State(l, times, n).hits, times[n] - l.window);
            Later(Counted(l, times, n), times[n] - l.window) == live && Crowd(l, times, n) == |live| + 1
  {
    hide Counted, State, Sorted, Later, Expire;
    ExpireIsLater(Counted(l, times, n), times[n] - l.window);
  }

  // ----- Bursts ------------------------------------------------------------------------------

  /** `burst` is the time of the last burst among the first `n` requests, if any. */
  ghost predicate LastBurst(l: Limits, times: seq<real>, n: nat, burst: Option<real>)
    requires l.Valid() && n <= |times|
  {
    && (burst.Some? ==> exists m :: 0 <= m < n && BurstAt(l, times, m) && times[m] == burst.value)
    && (forall m :: 0 <= m < n && BurstAt(l, times, m) ==> burst.Some? && times[m] <= burst.value)
  }

  lemma {:induction false} BurstIsRemembered(l: Limits, times: seq<real>, n: nat)
    requires l.Valid() && n <= |times| && Sorted(times)
    ensures LastBurst(l, times, n, State(l, times, n).burst)
  {
    hide State, BurstAt, Sorted, BurstOver;
    if n == 0 {
      StartsFresh(l, times);
    } else {
      var c, now := State(l, times, n - 1), times[n - 1];
      SortedOrder(times);
      BurstIsRemembered(l, times, n - 1);
      BurstStep(l, times, n - 1);
      var burst := State(l, times, n).burst;
      if BurstAt(l, times, n - 1) {
        assert burst == Some(now);
      } else {
        assert burst == c.burst;
      }
    }
  }

  lemma BurstStep(l: Limits, times: seq<real>, n: nat)
    requires l.Valid() && n < |times| && Sorted(times)
    ensures State(l, times, n + 1).burst == if BurstAt(l, times, n) then Some(times[n]) else State(l, times, n).burst
  {
    hide Decide, Expire, Counted, LockedUntil, Sorted, State;
    RememberedAt(l, times, n);
    CrowdIsCounted(l, times, n);
    LockoutIsRemembered(l, times, n);
    OneStep(l, times, n);
    var c, now := State(l, times, n), times[n];
    if LockedOut(l, times, n) {
      LockedStays(l, c, now);
    } else {
      UnlockedBurst(l, c, now);
    }
  }

  lemma LockedStays(l: Limits, c: Client, now: real)
    requires l.Valid() && c.bannedUntil.Some? && now < c.bannedUntil.value
    ensures Decide(l, c, now).client == c
  {
  }

  /** A request that is not locked out sets the burst if it is served beyond the allowance. */
  lemma UnlockedBurst(l: Limits, c: Client, now: real)
    requires l.Valid() && !(c.bannedUntil.Some? && now < c.bannedUntil.value)
    ensures var d := Decide(l, c, now);
            d.client.burst == if d.wait.None? && |Expire(c.hits, now - l.window)| >= l.requests then Some(now) else c.burst
  {
    hide Expire, BurstOver;
    assert Decide(l, c, now) == Judge(l, Count(l, c.hits, now), c.burst, now);
  }

  lemma BurstOverIffUnspent(l: Limits, times: seq<real>, n: nat)
    requires l.Valid() && n < |times| && Sorted(times)
    ensures BurstOver(l, State(l, times, n).burst, times[n]) <==> !BurstSpent(l, times, n)
  {
    BurstIsRemembered(l, times, n);
  }

  // ----- The rule ------------------------------------------------------------------------------

  /** The answer to request `n`, from the history alone: refused under a lockout; served
      within the allowance, or beyond it with a burst to spend; otherwise refused, to wait
      for the lockout that this begins, or until the oldest request in the window is a
      window old. */
  ghost function Verdict(l: Limits, times: seq<real>, n: nat): Option<real>
    requires l.Valid() && n < |times|
  {
    var crowd, now := Crowd(l, times, n), times[n];
    if LockedOut(l, times, n) then Some(LockedUntil(l, times, n).value - now)
    else if crowd <= l.requests || (crowd <= l.peak && !BurstSpent(l, times, n)) then None
    else if l.ban > 0.0 then Some(l.ban)
    else Some((Later(Counted(l, times, n), now - l.window) + [now])[0] + l.window - now)
  }

  ghost predicate AllLater(s: seq<real>, x: real) {
    forall i :: 0 <= i < |s| ==> s[i] > x
  }

  /** The answer to a client that is not locked out. */
  lemma UnlockedAnswer(l: Limits, c: Client, now: real)
    requires l.Valid() && !(c.bannedUntil.Some? && now < c.bannedUntil.value)
    requires AllLater(Expire(c.hits, now - l.window), now - l.window)
    ensures var live := Expire(c.hits, now - l.window);
            Decide(l, c, now).wait ==
            if |live| < l.requests || (|live| < l.peak && BurstOver(l, c.burst, now)) then None
            else if l.ban > 0.0 then Some(l.ban)
            else Some((live + [now])[0] + l.window - now)
  {
    hide Expire, BurstOver;
    assert Decide(l, c, now) == Judge(l, Count(l, c.hits, now), c.burst, now);
  }

  /** The rule that remembers a bounded window answers as the one that remembers all. */
  lemma AnswersFollowHistory(l: Limits, times: seq<real>, n: nat)
    requires l.Valid() && n < |times| && Sorted(times)
    ensures Told(l, times, n) == Verdict(l, times, n)
  {
    hide Decide, Expire, BurstOver, BurstSpent, Counted, LockedUntil, Sorted, State;
    LockoutTellsWhatIsLeft(l, times, n);
    if !LockedOut(l, times, n) {
      var c, now := State(l, times, n), times[n];
      RememberedAt(l, times, n);
      CrowdIsCounted(l, times, n);
      LockoutIsRemembered(l, times, n);
      OneStep(l, times, n);
      BurstOverIffUnspent(l, times, n);
      LiveIsLate(l, c.hits, now);
      UnlockedAnswer(l, c, now);
    }
  }

  lemma RememberedAt(l: Limits, times: seq<real>, n: nat)
    requires l.Valid() && n < |times| && Sorted(times)
    ensures SameWindow(l, State(l, times, n).hits, Counted(l, times, n), times[n])
  {
    SortedOrder(times);
    WindowIsRemembered(l, times, n);
    SameWindowLater(l, State(l, times, n).hits, Counted(l, times, n), Last(times, n), times[n]);
  }

  lemma LiveIsLate(l: Limits, hits: seq<real>, now: real)
    requires Sorted(hits)
    ensures AllLater(Expire(hits, now - l.window), now - l.window)
  {
    ExpireIsSuffix(hits, now - l.window);
    ExpireKeepsSorted(hits, now - l.window);
    SortedOrder(Expire(hits, now - l.window));
    hide Expire, Sorted;
  }

  // ----- What a client can rely on ---------------------------------------------------------

  lemma {:induction false} LaterConcat(a: seq<real>, b: seq<real>, x: real)
    ensures Later(a + b, x) == Later(a, x) + Later(b, x)
  {
    if b == [] {
      assert a + b == a && Later(a, x) + [] == Later(a, x);
    } else {
      assert (a + b)[..|a + b| - 1] == a + b[..|b| - 1];
      LaterConcat(a, b[..|b| - 1], x);
    }
  }

  /** An edge that has not reached the oldest entry of the window changes nothing. */
  lemma LaterStays(s: seq<real>, x: real, y: real)
    requires Sorted(s) && x <= y && (Later(s, x) != [] ==> y < Later(s, x)[0])
    ensures Later(s, y) == Later(s, x)
  {
    ExpireIsLater(s, x);
    ExpireIsLater(s, y);
    ExpireTwice(s, x, y);
  }

  lemma {:induction false} LaterHas(s: seq<real>, x: real, k: nat)
    requires k < |s| && s[k] > x
    ensures s[k] in Later(s, x)
  {
    if k < |s| - 1 {
      LaterHas(s[..|s| - 1], x, k);
    }
  }

  lemma {:induction false} CountedGrows(l: Limits, times: seq<real>, i: nat, j: nat)
    requires l.Valid() && i <= j <= |times|
    ensures Counted(l, times, i) <= Counted(l, times, j)
  {
    if i < j {
      CountedGrows(l, times, i, j - 1);
    }
  }

  lemma {:induction false} CountedIsSorted(l: Limits, times: seq<real>, n: nat)
    requires l.Valid() && n <= |times| && Sorted(times)
    ensures Sorted(Counted(l, times, n))
    ensures forall k :: 0 <= k < |Counted(l, times, n)| ==> n > 0 && Counted(l, times, n)[k] <= times[n - 1]
  {
    WindowIsRemembered(l, times, n);
    SortedOrder(Counted(l, times, n));
    assert Counted(l, times, 0) == [];
    hide Counted, State, Sorted;
  }

  lemma {:induction false} LaterAre(s: seq<real>, x: real)
    ensures AllLater(Later(s, x), x)
  {
    if s != [] {
      LaterAre(s[..|s| - 1], x);
    }
  }

  /** A burst is a counted request. */
  lemma BurstIsCounted(l: Limits, times: seq<real>, m: nat, n: nat)
    requires l.Valid() && Sorted(times) && m < n <= |times| && BurstAt(l, times, m)
    ensures exists k :: 0 <= k < |Counted(l, times, n)| && Counted(l, times, n)[k] == times[m]
  {
    AnswersFollowHistory(l, times, m);
    CountedGrows(l, times, m + 1, n);
    var k := |Counted(l, times, m)|;
    assert Counted(l, times, m + 1)[k] == times[m];
    assert Counted(l, times, n)[k] == times[m];
  }

  /** As long as nothing ages out of a window, a burst in it stays in it. */
  lemma BurstStaysSpent(l: Limits, times: seq<real>, i: nat, j: nat)
    requires l.Valid() && Sorted(times) && i < j < |times| && BurstSpent(l, times, i)
    requires var counted := Counted(l, times, i); Later(counted, times[j] - l.window) == Later(counted, times[i] - l.window)
    ensures BurstSpent(l, times, j)
  {
    hide Sorted, Counted, Later, BurstAt, Told;
    var m :| 0 <= m < i && BurstAt(l, times, m) && times[m] > times[i] - l.window;
    var counted, x, y := Counted(l, times, i), times[i] - l.window, times[j] - l.window;
    BurstIsCounted(l, times, m, i);
    var k :| 0 <= k < |counted| && counted[k] == times[m];
    LaterHas(counted, x, k);
    LaterAre(counted, y);
  }

  /** The window of a later request, before the oldest entry has aged out of it. */
  lemma WindowStays(l: Limits, times: seq<real>, i: nat, j: nat)
    requires l.Valid() && Sorted(times) && i < j < |times|
    requires var live := Later(Counted(l, times, i), times[i] - l.window); live != [] && times[j] - l.window < live[0]
    ensures var counted, edge := Counted(l, times, i), times[j] - l.window;
            && Later(counted, edge) == Later(counted, times[i] - l.window)
            && Later(counted, edge) <= Later(Counted(l, times, j), edge)
  {
    hide Counted, Sorted, Later;
    var counted, edge := Counted(l, times, i), times[j] - l.window;
    SortedOrder(times);
    CountedIsSorted(l, times, i);
    LaterStays(counted, times[i] - l.window, edge);
    CountedGrows(l, times, i, j);
    var tail := Counted(l, times, j)[|counted|..];
    assert Counted(l, times, j) == counted + tail;
    LaterConcat(counted, tail, edge);
    assert Later(counted, edge) <= Later(counted, edge) + Later(tail, edge);
  }

  /** Without lockouts, a client that is told to wait is refused until then. */
  lemma HeldBack(l: Limits, times: seq<real>, i: nat, j: nat)
    requires l.Valid() && l.ban == 0.0 && Sorted(times) && i < j < |times| && Told(l, times, i).Some?
    requires times[j] < times[i] + Told(l, times, i).value
    ensures Told(l, times, j) == Some(times[i] + Told(l, times, i).value - times[j])
  {
    hide Sorted, Counted, Later, Told, LockedUntil, LockedOut, BurstSpent;
    NeverLocked(l, times, i);
    NeverLocked(l, times, j);
    AnswersFollowHistory(l, times, i);
    AnswersFollowHistory(l, times, j);
    var live := Later(Counted(l, times, i), times[i] - l.window);
    assert live != [] && (live + [times[i]])[0] == live[0];
    WindowStays(l, times, i, j);
    var longer := Later(Counted(l, times, j), times[j] - l.window);
    assert (longer + [times[j]])[0] == live[0];
    if Crowd(l, times, i) <= l.peak {
      BurstStaysSpent(l, times, i, j);
    }
  }

  lemma {:induction false} NeverLocked(l: Limits, times: seq<real>, n: nat)
    requires l.Valid() && l.ban == 0.0 && n < |times|
    ensures LockedUntil(l, times, n).None? && !LockedOut(l, times, n)
  {
    if n > 0 {
      NeverLocked(l, times, n - 1);
    }
  }

  /** With lockouts, in any order of times. */
  lemma LockedStaysLocked(l: Limits, times: seq<real>, i: nat, j: nat)
    requires l.Valid() && l.ban > 0.0 && i < j < |times| && Told(l, times, i).Some?
    requires forall n :: i < n <= j ==> times[n] < times[i] + Told(l, times, i).value
    ensures LockedUntil(l, times, j) == Some(times[i] + Told(l, times, i).value)
  {
    LockoutTellsWhatIsLeft(l, times, i);
    if LockedOut(l, times, i) {
      LockoutStays(l, times, i, i + 1, LockedUntil(l, times, i).value);
    } else {
      LockoutBegins(l, times, i);
    }
    hide Told, LockedUntil, LockedOut;
    LockoutStays(l, times, i + 1, j, times[i] + Told(l, times, i).value);
  }

  /** A limiter keeps its word: a client that is told to wait is refused until then, and
      told every time to wait for exactly what is left. */
  lemma WaitsAreKept(l: Limits, times: seq<real>, i: nat, j: nat)
    requires l.Valid() && Sorted(times) && i < j < |times| && Told(l, times, i).Some?
    requires times[j] < times[i] + Told(l, times, i).value
    ensures Told(l, times, j) == Some(times[i] + Told(l, times, i).value - times[j])
  {
    if l.ban == 0.0 {
      HeldBack(l, times, i, j);
    } else {
      SortedOrder(times);
      LockedStaysLocked(l, times, i, j);
      LockoutTellsWhatIsLeft(l, times, j);
    }
  }

  /** An earlier refusal told the client to wait for longer than this. */
  ghost predicate Early(l: Limits, times: seq<real>, n: nat)
    requires l.Valid() && n < |times|
  {
    exists m :: 0 <= m < n && Told(l, times, m).Some? && times[n] < times[m] + Told(l, times, m).value
  }

  lemma {:induction false} LockoutWasTold(l: Limits, times: seq<real>, n: nat)
    requires l.Valid() && n <= |times| && LockedUntil(l, times, n).Some?
    ensures exists m :: 0 <= m < n && Told(l, times, m).Some? && times[m] + Told(l, times, m).value == LockedUntil(l, times, n).value
  {
    LockoutTellsWhatIsLeft(l, times, n - 1);
    if LockedOut(l, times, n - 1) {
      LockoutWasTold(l, times, n - 1);
    }
  }

  /** With lockouts, a client runs into one exactly if it comes early. */
  lemma LockedOutIffEarly(l: Limits, times: seq<real>, n: nat)
    requires l.Valid() && l.ban > 0.0 && Sorted(times) && n < |times|
    ensures LockedOut(l, times, n) <==> Early(l, times, n)
  {
    if LockedOut(l, times, n) {
      LockoutWasTold(l, times, n);
    } else if Early(l, times, n) {
      var m :| 0 <= m < n && Told(l, times, m).Some? && times[n] < times[m] + Told(l, times, m).value;
      SortedOrder(times);
      LockedStaysLocked(l, times, m, n);
    }
  }

  lemma {:induction false} CountedAreRequests(l: Limits, times: seq<real>, n: nat, x: real)
    requires l.Valid() && n <= |times|
    ensures |Later(Counted(l, times, n), x)| <= After(times[..n], x)
  {
    if n > 0 {
      CountedAreRequests(l, times, n - 1, x);
      assert times[..n][..n - 1] == times[..n - 1];
    }
  }

  /** The allowance is granted: a client that does not come early, and has sent fewer than
      `requests` requests within the window, is served. */
  lemma AllowanceIsGranted(l: Limits, times: seq<real>, n: nat)
    requires l.Valid() && Sorted(times) && n < |times|
    requires !Early(l, times, n) && After(times[..n], times[n] - l.window) < l.requests
    ensures Told(l, times, n).None?
  {
    hide Sorted, Counted, Later, Told, LockedUntil, LockedOut, BurstSpent, Early, After;
    AnswersFollowHistory(l, times, n);
    CountedAreRequests(l, times, n, times[n] - l.window);
    if l.ban == 0.0 {
      NeverLocked(l, times, n);
    } else {
      LockedOutIffEarly(l, times, n);
    }
  }

  /** The bound is reached, with a burst or without: the first `requests` are all served. */
  lemma {:induction false} AllowanceIsReached(l: Limits, times: seq<real>, n: nat)
    requires l.Valid() && Sorted(times) && n <= |times| && |times| <= l.requests
    ensures forall m :: 0 <= m < n ==> Told(l, times, m).None?
    ensures ServedBetween(l, times, 0, n) == n
  {
    hide Answer, Sorted, Counted, LockedUntil, LockedOut, After;
    if n > 0 {
      AllowanceIsReached(l, times, n - 1);
      AfterBounds(times[..n - 1], times[n - 1] - l.window);
      AllowanceIsGranted(l, times, n - 1);
    }
  }

  // ----- After a lockout ---------------------------------------------------------------------

  lemma FirstCounts(l: Limits, times: seq<real>)
    requires l.Valid() && times != []
    ensures Counted(l, times, 1) == [times[0]]
  {
    assert Counted(l, times, 0) == [] && LockedUntil(l, times, 0).None?;
  }

  /** After a lockout the window of the next request is empty exactly if the newest
      request that counted is a window old by then. */
  lemma CleanAfterLockoutIffAged(l: Limits, times: seq<real>, i: nat, j: nat)
    requires l.Valid() && l.ban > 0.0 && Sorted(times) && i < j < |times|
    requires !LockedOut(l, times, i) && Told(l, times, i).Some?
    requires times[j] >= times[i] + l.ban && forall n :: i < n < j ==> times[n] < times[i] + l.ban
    ensures !LockedOut(l, times, j)
    ensures var counted := Counted(l, times, i + 1);
            counted != [] && counted[|counted| - 1] <= times[i]
            && (Crowd(l, times, j) == 1 <==> counted[|counted| - 1] + l.window <= times[j])
    ensures l.ban >= l.window ==> Told(l, times, j).None?
  {
    hide Counted, Later, Told, LockedUntil, BurstSpent, Sorted, Expire;
    LockoutBegins(l, times, i);
    LockoutStays(l, times, i + 1, j, times[i] + l.ban);
    AnswersFollowHistory(l, times, i);
    AnswersFollowHistory(l, times, j);
    CountedIsSorted(l, times, i + 1);
    var counted, x := Counted(l, times, i + 1), times[j] - l.window;
    FirstCounts(l, times);
    CountedGrows(l, times, 1, i + 1);
    SortedOrder(counted);
    ExpireIsLater(counted, x);
    ExpireIsSuffix(counted, x);
    if counted[|counted| - 1] <= x {
      ExpireAll(counted, x);
    } else {
      LaterHas(counted, x, |counted| - 1);
    }
  }

  /** A lockout that is shorter than the window does not leave the client with a clean
      one: one request in ten seconds, a lockout of one, and the client is refused again
      as soon as it is over. */
  lemma RefusedAgainAfterLockout()
    ensures var l, times := Limits(1, 1, 10.0, 1.0), [1.0, 1.0, 2.5];
            && Told(l, times, 0).None? && Told(l, times, 1) == Some(1.0) && !LockedOut(l, times, 2)
            && Told(l, times, 2) == Some(1.0)
  {
    var l, times := Limits(1, 1, 10.0, 1.0), [1.0, 1.0, 2.5];
    OneStep(l, times, 0);
    OneStep(l, times, 1);
    OneStep(l, times, 2);
    assert times[..0] == [];
    assert State(l, times, 1) == Client([1.0], None, None);
    assert State(l, times, 2) == Client([1.0, 1.0], None, Some(2.0));
    LockoutIsRemembered(l, times, 2);
  }
}
