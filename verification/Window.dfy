/** The sliding window of one client: the decision rule that the in-memory
    limiter and the shared table both promise to follow, and what it guarantees. */
module Window {
  import opened Wrappers

  /** A client address; only whether two of them are equal matters. */
  type Key = int

  datatype Limits = Limits(requests: nat, peak: nat, window: real, ban: real) {
    ghost predicate Valid() {
      1 <= requests <= peak && 0.0 < window && 0.0 <= ban
    }
  }

  /** The limits a limiter works with, whatever the configuration says. */
  function Normalise(requests: int, peak: int, window: real, ban: real): (l: Limits)
    ensures l.Valid()
    ensures requests >= 1 ==> l.requests == requests
    ensures peak >= l.requests ==> l.peak == peak
    ensures peak < l.requests ==> l.peak == l.requests
    ensures requests < 1 ==> l.requests == 1
    ensures window > 0.0 ==> l.window == window
    ensures ban >= 0.0 ==> l.ban == ban
    ensures ban < 0.0 ==> l.ban == 0.0
  {
    var r := if requests < 1 then 1 else requests;
    Limits(r, if peak < r then r else peak,
           if window > 0.0 then window else 1.0,
           if ban < 0.0 then 0.0 else ban)
  }

  /** What is remembered of one client: the counted requests, oldest first, when
      the burst of the window was used, and when a lockout ends. */
  datatype Client = Client(hits: seq<real>, burst: Option<real>, bannedUntil: Option<real>)

  const FRESH := Client([], None, None)

  datatype Kind = Normal | Burst | Refused

  datatype Decision = Decision(client: Client, wait: Option<real>, kind: Kind)

  function Expire(hits: seq<real>, edge: real): seq<real> {
    if hits != [] && hits[0] <= edge then Expire(hits[1..], edge) else hits
  }

  predicate BurstOver(l: Limits, burst: Option<real>, now: real) {
    burst.None? || now - burst.value >= l.window
  }

  /** The window after a request at `now` has been counted (or found full). */
  function Count(l: Limits, hits: seq<real>, now: real): (counted: seq<real>)
    ensures counted != []
  {
    var live := Expire(hits, now - l.window);
    if |live| < l.peak + 1 then live + [now] else live
  }

  /** The answer to a client that is not locked out, with this request counted. */
  function Judge(l: Limits, hits: seq<real>, burst: Option<real>, now: real): Decision
    requires hits != []
  {
    if |hits| <= l.requests then
      Decision(Client(hits, burst, None), None, Normal)
    else if |hits| <= l.peak && BurstOver(l, burst, now) then
      Decision(Client(hits, Some(now), None), None, Burst)
    else if l.ban > 0.0 then
      Decision(Client(hits, burst, Some(now + l.ban)), Some(l.ban), Refused)
    else
      var wait := hits[0] + l.window - now;
      Decision(Client(hits, burst, None), Some(if wait > 0.0 then wait else 0.0), Refused)
  }

  /** One request of a client: what it is answered and what is remembered. */
  function Decide(l: Limits, c: Client, now: real): Decision
    requires l.Valid()
  {
    if c.bannedUntil.Some? && now < c.bannedUntil.value then
      Decision(c, Some(c.bannedUntil.value - now), Refused)
    else
      Judge(l, Count(l, c.hits, now), c.burst, now)
  }

  // ----- What every reachable client looks like ---------------------------

  /** No entry is earlier than the one before it. */
  ghost predicate Sorted(s: seq<real>) {
    |s| >= 2 ==> s[|s| - 2] <= s[|s| - 1] && Sorted(s[..|s| - 1])
  }

  lemma {:induction false} SortedOrder(s: seq<real>)
    requires Sorted(s)
    ensures forall i, j :: 0 <= i <= j < |s| ==> s[i] <= s[j]
  {
    if |s| >= 2 {
      SortedOrder(s[..|s| - 1]);
    }
  }

  lemma {:induction false} SortedSuffix(s: seq<real>, k: nat)
    requires Sorted(s) && k <= |s|
    ensures Sorted(s[k..])
  {
    if k + 2 <= |s| {
      SortedSuffix(s[..|s| - 1], k);
      assert s[..|s| - 1][k..] == s[k..][..|s| - k - 1];
    }
  }

  /** The invariant of a client last heard of no later than `t`. */
  ghost predicate Sane(l: Limits, c: Client, t: real) {
    && Sorted(c.hits)
    && |c.hits| <= l.peak + 1
    && (c.hits != [] ==> c.hits[|c.hits| - 1] <= t)
    && (c.burst.Some? ==> c.hits != [] && c.burst.value <= c.hits[|c.hits| - 1])
  }

  lemma {:induction false} ExpireIsSuffix(hits: seq<real>, edge: real)
    ensures |Expire(hits, edge)| <= |hits|
    ensures Expire(hits, edge) == hits[|hits| - |Expire(hits, edge)|..]
    ensures forall i :: 0 <= i < |hits| - |Expire(hits, edge)| ==> hits[i] <= edge
    ensures Expire(hits, edge) != [] ==> Expire(hits, edge)[0] > edge
  {
    if hits != [] && hits[0] <= edge {
      ExpireIsSuffix(hits[1..], edge);
    }
  }

  /** Forgetting in two steps forgets the same as forgetting once. */
  lemma {:induction false} ExpireTwice(hits: seq<real>, e: real, f: real)
    requires e <= f
    ensures Expire(Expire(hits, e), f) == Expire(hits, f)
  {
    if hits != [] && hits[0] <= e {
      ExpireTwice(hits[1..], e, f);
    }
  }

  /** A sorted window whose newest entry has aged out is empty. */
  lemma ExpireAll(hits: seq<real>, edge: real)
    requires Sorted(hits)
    requires hits == [] || hits[|hits| - 1] <= edge
    ensures Expire(hits, edge) == []
  {
    ExpireIsSuffix(hits, edge);
    SortedOrder(hits);
  }

  lemma ExpiredIffNewestIs(hits: seq<real>, edge: real)
    requires Sorted(hits)
    ensures Expire(hits, edge) == [] <==> hits == [] || hits[|hits| - 1] <= edge
  {
    ExpireIsSuffix(hits, edge);
    if hits == [] || hits[|hits| - 1] <= edge {
      ExpireAll(hits, edge);
    }
    hide Expire, Sorted;
  }

  lemma ExpireKeepsSorted(hits: seq<real>, edge: real)
    requires Sorted(hits)
    ensures Sorted(Expire(hits, edge))
  {
    ExpireIsSuffix(hits, edge);
    SortedSuffix(hits, |hits| - |Expire(hits, edge)|);
  }

  lemma CountKeepsSane(l: Limits, hits: seq<real>, t: real, now: real)
    requires l.Valid() && Sane(l, Client(hits, None, None), t) && t <= now
    ensures Sane(l, Client(Count(l, hits, now), None, None), now)
    ensures var s := Count(l, hits, now);
            s != [] && (s[|s| - 1] == now || (s == hits && |s| == l.peak + 1))
  {
    var live := Expire(hits, now - l.window);
    ExpireIsSuffix(hits, now - l.window);
    ExpireKeepsSorted(hits, now - l.window);
    hide Expire;
    assert live != [] ==> live[|live| - 1] == hits[|hits| - 1];
    assert (live + [now])[..|live|] == live;
    assert |live| >= l.peak + 1 ==> live == hits;
  }

  lemma JudgeKeepsSane(l: Limits, hits: seq<real>, burst: Option<real>, now: real)
    requires hits != [] && Sane(l, Client(hits, burst, None), now)
    requires hits[|hits| - 1] == now || |hits| == l.peak + 1
    ensures Sane(l, Judge(l, hits, burst, now).client, now) && Judge(l, hits, burst, now).client.hits == hits
  {
  }

  lemma DecideKeepsSane(l: Limits, c: Client, t: real, now: real)
    requires l.Valid() && Sane(l, c, t) && t <= now
    ensures Sane(l, Decide(l, c, now).client, now)
    ensures Decide(l, c, now).client.hits != [] || Decide(l, c, now).client == c
  {
    hide Count, Sorted;
    if c.bannedUntil.Some? && now < c.bannedUntil.value {
      assert Decide(l, c, now).client == c;
    } else {
      CountKeepsSane(l, c.hits, t, now);
      JudgeKeepsSane(l, Count(l, c.hits, now), c.burst, now);
      assert Decide(l, c, now) == Judge(l, Count(l, c.hits, now), c.burst, now);
    }
  }

  // ----- Forgetting is not observable ---------------------------------------

  /** All that a request at `t` or later can still see of a client. */
  ghost function Norm(l: Limits, c: Client, t: real): Client {
    Client(Expire(c.hits, t - l.window),
           if BurstOver(l, c.burst, t) then None else c.burst,
           if c.bannedUntil.Some? && t < c.bannedUntil.value then c.bannedUntil else None)
  }

  lemma NormTwice(l: Limits, c: Client, s: real, t: real)
    requires s <= t
    ensures Norm(l, Norm(l, c, s), t) == Norm(l, c, t)
  {
    ExpireTwice(c.hits, s - l.window, t - l.window);
  }

  /** Clients that look alike at `s` are answered alike at `t`, and look alike
      afterwards: looking alike is a bisimulation. */
  lemma AlikeDecideAlike(l: Limits, c: Client, d: Client, s: real, t: real)
    requires l.Valid() && s <= t && Norm(l, c, s) == Norm(l, d, s)
    ensures Decide(l, c, t).wait == Decide(l, d, t).wait
    ensures Decide(l, c, t).kind == Decide(l, d, t).kind
    ensures Norm(l, Decide(l, c, t).client, t) == Norm(l, Decide(l, d, t).client, t)
  {
    NormTwice(l, c, s, t);
    NormTwice(l, d, s, t);
    assert Norm(l, c, t) == Norm(l, d, t);
  }

  /** `d` is `c` after a sweep at `t`: each part is kept, or was over. */
  ghost predicate SweptTo(l: Limits, c: Client, d: Client, t: real) {
    && (d.hits == c.hits || (d.hits == [] && c.hits[|c.hits| - 1] <= t - l.window))
    && (d.burst == c.burst || (d.burst.None? && t - c.burst.value >= l.window))
    && (d.bannedUntil == c.bannedUntil || (d.bannedUntil.None? && t >= c.bannedUntil.value))
    && (d.hits == [] ==> d.burst.None?)
  }

  lemma SweptAlike(l: Limits, c: Client, d: Client, t: real)
    requires l.Valid() && Sane(l, c, t) && SweptTo(l, c, d, t)
    ensures Norm(l, d, t) == Norm(l, c, t) && Sane(l, d, t)
  {
    if d.hits != c.hits {
      ExpireAll(c.hits, t - l.window);
    }
  }

  // ----- Whole runs of one client -------------------------------------------

  function Run(l: Limits, c: Client, times: seq<real>): Client
    requires l.Valid()
  {
    if times == [] then c
    else Decide(l, Run(l, c, times[..|times| - 1]), times[|times| - 1]).client
  }

  /** How the last of `times` was answered. */
  function Answer(l: Limits, c: Client, times: seq<real>): Decision
    requires l.Valid() && times != []
  {
    Decide(l, Run(l, c, times[..|times| - 1]), times[|times| - 1])
  }

  lemma {:induction false} AlikeRunAlike(l: Limits, c: Client, d: Client, s: real, times: seq<real>)
    requires l.Valid() && Norm(l, c, s) == Norm(l, d, s)
    requires Sorted([s] + times)
    ensures Norm(l, Run(l, c, times), ([s] + times)[|times|]) == Norm(l, Run(l, d, times), ([s] + times)[|times|])
    ensures times != [] ==> Answer(l, c, times).wait == Answer(l, d, times).wait
  {
    if times != [] {
      var front := times[..|times| - 1];
      assert [s] + front == ([s] + times)[..|times|];
      assert ([s] + front)[|front|] == ([s] + times)[|front|];
      assert ([s] + times)[|front|] <= ([s] + times)[|times|];
      AlikeRunAlike(l, c, d, s, front);
      AlikeDecideAlike(l, Run(l, c, front), Run(l, d, front), ([s] + times)[|front|], times[|times| - 1]);
    }
  }

  /** Dropping a client whose newest request has aged out and whose lockout is
      over changes no later answer. */
  lemma ClearingIsInvisible(l: Limits, c: Client, t: real, times: seq<real>)
    requires l.Valid() && Sane(l, c, t)
    requires c.hits == [] || c.hits[|c.hits| - 1] <= t - l.window
    requires c.bannedUntil.None? || c.bannedUntil.value <= t
    requires Sorted([t] + times) && times != []
    ensures Answer(l, c, times).wait == Answer(l, FRESH, times).wait
  {
    ExpireAll(c.hits, t - l.window);
    AlikeRunAlike(l, c, FRESH, t, times);
  }

  // ----- The sliding window bound ----------------------------------------------

  /** How many of `times` are later than `x`. */
  ghost function After(times: seq<real>, x: real): nat {
    if times == [] then 0
    else After(times[..|times| - 1], x) + (if times[|times| - 1] > x then 1 else 0)
  }

  /** How many requests later than `x` were served; bursts only, or all. */
  ghost function Served(l: Limits, times: seq<real>, x: real, burstsOnly: bool): nat
    requires l.Valid()
  {
    if times == [] then 0
    else
      var d := Answer(l, FRESH, times);
      Served(l, times[..|times| - 1], x, burstsOnly)
      + (if times[|times| - 1] > x && (d.kind.Burst? || (d.kind.Normal? && !burstsOnly)) then 1 else 0)
  }

  lemma {:induction false} AfterConcat(a: seq<real>, b: seq<real>, x: real)
    ensures After(a + b, x) == After(a, x) + After(b, x)
  {
    if b == [] {
      assert a + b == a;
    } else {
      assert (a + b)[..|a + b| - 1] == a + b[..|b| - 1];
      AfterConcat(a, b[..|b| - 1], x);
    }
  }

  lemma {:induction false} AfterBounds(s: seq<real>, x: real)
    ensures After(s, x) <= |s|
    ensures (forall i :: 0 <= i < |s| ==> s[i] <= x) ==> After(s, x) == 0
  {
    if s != [] {
      AfterBounds(s[..|s| - 1], x);
    }
  }

  lemma ExpireKeepsRecent(hits: seq<real>, edge: real, x: real)
    requires edge <= x
    ensures After(Expire(hits, edge), x) == After(hits, x)
  {
    var live := Expire(hits, edge);
    ExpireIsSuffix(hits, edge);
    var aged := hits[..|hits| - |live|];
    assert hits == aged + live;
    AfterConcat(aged, live, x);
    AfterBounds(aged, x);
  }

  /** Counting a request at `now` loses nothing that is later than `x`. */
  lemma CountKeepsRecent(l: Limits, hits: seq<real>, now: real, x: real)
    requires now - l.window <= x
    ensures var s := Count(l, hits, now);
            && After(hits, x) <= After(s, x) <= |s|
            && (|s| <= l.peak && now > x ==> After(s, x) == After(hits, x) + 1)
  {
    var live := Expire(hits, now - l.window);
    ExpireKeepsRecent(hits, now - l.window, x);
    AfterBounds(Count(l, hits, now), x);
    assert (live + [now])[..|live|] == live;
  }

  /** What one request adds to what is remembered from after `x`. */
  lemma DecideCounts(l: Limits, c: Client, now: real, x: real)
    requires l.Valid() && now - l.window <= x
    ensures var d := Decide(l, c, now);
            && After(c.hits, x) <= After(d.client.hits, x)
            && (d.kind.Normal? ==> After(d.client.hits, x) <= l.requests)
            && (!d.kind.Refused? && now > x ==> After(d.client.hits, x) == After(c.hits, x) + 1)
            && (if d.kind.Burst? then d.client.burst == Some(now) && BurstOver(l, c.burst, now) && l.requests < l.peak
                else d.client.burst == c.burst)
  {
    CountKeepsRecent(l, c.hits, now, x);
  }

  /** The heart of the bound, for a window that opens just after `x`. */
  lemma {:induction false} ServedAfter(l: Limits, times: seq<real>, x: real)
    requires l.Valid()
    requires forall i :: 0 <= i < |times| ==> times[i] <= x + l.window
    ensures var c := Run(l, FRESH, times);
            var bursts := Served(l, times, x, true);
            && Served(l, times, x, false) <= After(c.hits, x)
            && Served(l, times, x, false) <= l.requests + bursts
            && bursts <= (if l.peak > l.requests then 1 else 0)
            && (bursts > 0 ==> c.burst.Some? && c.burst.value > x)
  {
    if times != [] {
      var front, now := times[..|times| - 1], times[|times| - 1];
      ServedAfter(l, front, x);
      DecideCounts(l, Run(l, FRESH, front), now, x);
    }
  }

  /** How many of the requests `times[i..j]` of one run from nothing are served. */
  ghost function ServedBetween(l: Limits, times: seq<real>, i: nat, j: nat): nat
    requires l.Valid() && i <= j <= |times|
    decreases j
  {
    if i == j then 0
    else ServedBetween(l, times, i, j - 1) + (if Answer(l, FRESH, times[..j]).wait.None? then 1 else 0)
  }

  lemma {:induction false} ServedBetweenIsServedAfter(l: Limits, times: seq<real>, i: nat, j: nat, x: real)
    requires l.Valid() && i <= j <= |times|
    requires forall k :: i <= k < j ==> times[k] > x
    ensures ServedBetween(l, times, i, j) <= Served(l, times[..j], x, false)
    decreases j
  {
    if i < j {
      ServedBetweenIsServedAfter(l, times, i, j - 1, x);
      assert times[..j][..j - 1] == times[..j - 1];
      assert Answer(l, FRESH, times[..j]).wait.None? <==> !Answer(l, FRESH, times[..j]).kind.Refused?;
    }
  }

  /** The requests of one client between `lo` and `hi`, less than a window apart, are
      served at most `requests` times, and once more when there is a burst to spend,
      as long as no request before them came from later than `hi`. */
  lemma SlidingWindowBound(l: Limits, times: seq<real>, i: nat, j: nat, lo: real, hi: real)
    requires l.Valid() && i <= j <= |times| && hi - lo < l.window
    requires forall n :: 0 <= n < j ==> times[n] <= hi
    requires forall n :: i <= n < j ==> lo <= times[n]
    ensures ServedBetween(l, times, i, j) <= l.requests + (if l.peak > l.requests then 1 else 0)
  {
    var x := hi - l.window;
    ServedBetweenIsServedAfter(l, times, i, j, x);
    ServedAfter(l, times[..j], x);
  }

  lemma OneMoreOfBurst(l: Limits, t: real, front: seq<real>)
    requires l.Valid() && l.peak > l.requests && |front| <= l.requests
    requires forall i :: 0 <= i < |front| ==> front[i] == t
    ensures Decide(l, Client(front, None, None), t)
            == Decision(Client(front + [t], if |front| < l.requests then None else Some(t), None), None,
                        if |front| < l.requests then Normal else Kind.Burst)
  {
    assert Count(l, front, t) == front + [t];
  }

  /** A client that sends up to `requests + 1` requests at once: all of them are
      remembered, and the last of that many spends the burst. */
  lemma {:induction false} BurstOfRequests(l: Limits, t: real, times: seq<real>)
    requires l.Valid() && l.peak > l.requests && |times| <= l.requests + 1
    requires forall i :: 0 <= i < |times| ==> times[i] == t
    ensures Run(l, FRESH, times) == Client(times, if |times| <= l.requests then None else Some(t), None)
    ensures times != [] ==> Answer(l, FRESH, times).wait.None?
  {
    if times != [] {
      var front := times[..|times| - 1];
      BurstOfRequests(l, t, front);
      OneMoreOfBurst(l, t, front);
      assert times == front + [t];
    }
  }

  /** The bound cannot be lowered: a client that sends `requests + 1` requests
      at once and has a burst to spend is served every time. */
  lemma {:induction false} BurstIsReached(l: Limits, t: real, times: seq<real>)
    requires l.Valid() && l.peak > l.requests && |times| <= l.requests + 1
    requires forall i :: 0 <= i < |times| ==> times[i] == t
    ensures ServedBetween(l, times, 0, |times|) == |times|
  {
    if times != [] {
      BurstOfRequests(l, t, times);
      BurstIsReached(l, t, times[..|times| - 1]);
      ServedBetweenLast(l, times, 0);
    }
  }

  /** Only the requests up to a stretch matter for how it was served. */
  lemma {:induction false} SameStretch(l: Limits, s: seq<real>, t: seq<real>, i: nat, j: nat)
    requires l.Valid() && i <= j <= |s| && j <= |t| && s[..j] == t[..j]
    ensures ServedBetween(l, s, i, j) == ServedBetween(l, t, i, j)
    decreases j
  {
    if i < j {
      assert s[..j - 1] == s[..j][..j - 1] == t[..j][..j - 1] == t[..j - 1];
      SameStretch(l, s, t, i, j - 1);
    }
  }

  lemma ServedBetweenLast(l: Limits, times: seq<real>, i: nat)
    requires l.Valid() && i < |times|
    ensures var front := times[..|times| - 1];
            ServedBetween(l, times, i, |times|)
            == ServedBetween(l, front, i, |front|) + (if Answer(l, FRESH, times).wait.None? then 1 else 0)
  {
    assert times[..|times|] == times;
    SameStretch(l, times, times[..|times| - 1], i, |times| - 1);
  }
}
