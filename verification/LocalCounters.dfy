/** The limiter of one process: every client's window in dictionaries that are
    swept, and capped, as requests come in. */
module Local {
  import opened Wrappers
  import opened Window

  /** The three dictionaries. */
  datatype Books = Books(hits: map<Key, seq<real>>, bursts: map<Key, real>, bans: map<Key, real>)

  function Lookup<V>(m: map<Key, V>, k: Key): Option<V> {
    if k in m then Some(m[k]) else None
  }

  /** What the books say about one client. */
  function View(b: Books, k: Key): Client {
    Client(if k in b.hits then b.hits[k] else [], Lookup(b.bursts, k), Lookup(b.bans, k))
  }

  ghost predicate SaneBooks(l: Limits, b: Books, t: real) {
    forall k {:trigger Sane(l, View(b, k), t)} :: Sane(l, View(b, k), t)
  }

  /** No request from `t` on can tell the books apart, unless it is from `except`. */
  ghost predicate Alike(l: Limits, a: Books, b: Books, t: real, except: set<Key>) {
    forall k :: k !in except ==> Norm(l, View(a, k), t) == Norm(l, View(b, k), t)
  }

  /** Forget every window, burst and lockout that is over. */
  function Sweep(l: Limits, b: Books, now: real): Books {
    var edge := now - l.window;
    Books(map k | k in b.hits && !(b.hits[k] == [] || b.hits[k][|b.hits[k]| - 1] <= edge) :: b.hits[k],
          map k | k in b.bursts && !(now - b.bursts[k] >= l.window) :: b.bursts[k],
          map k | k in b.bans && !(now >= b.bans[k]) :: b.bans[k])
  }

  lemma SweepAlike(l: Limits, b: Books, now: real)
    requires l.Valid() && SaneBooks(l, b, now)
    ensures SaneBooks(l, Sweep(l, b, now), now)
    ensures Alike(l, b, Sweep(l, b, now), now, {})
    ensures |Sweep(l, b, now).hits| <= |b.hits|
  {
    var s := Sweep(l, b, now);
    forall k
      ensures Sane(l, View(s, k), now) && Norm(l, View(b, k), now) == Norm(l, View(s, k), now)
    {
      SweptAlike(l, View(b, k), View(s, k), now);
    }
    SubsetSize(s.hits.Keys, b.hits.Keys);
  }

  /** A sweep leaves what a later request can see, and nothing else. */
  lemma SweepLeavesWhatCounts(l: Limits, b: Books, now: real, k: Key)
    requires l.Valid() && SaneBooks(l, b, now)
    ensures var s := Sweep(l, b, now);
            && (k in s.hits <==> k in b.hits && Expire(b.hits[k], now - l.window) != [])
            && (k in s.bursts <==> k in b.bursts && !BurstOver(l, Some(b.bursts[k]), now))
            && (k in s.bans <==> k in b.bans && now < b.bans[k])
  {
    assert Sane(l, View(b, k), now);
    if k in b.hits {
      ExpiredIffNewestIs(b.hits[k], now - l.window);
    }
    hide Expire, Sorted, SaneBooks;
  }

  lemma SaneLater(l: Limits, b: Books, s: real, t: real)
    requires SaneBooks(l, b, s) && s <= t
    ensures SaneBooks(l, b, t)
  {
    forall k ensures Sane(l, View(b, k), t) {
      assert Sane(l, View(b, k), s);
    }
  }

  lemma SpentBanAlike(l: Limits, b: Books, k: Key, t: real)
    requires SaneBooks(l, b, t) && k in b.bans && t >= b.bans[k]
    ensures var c := b.(bans := b.bans - {k});
            SaneBooks(l, c, t) && Alike(l, b, c, t, {})
  {
    var c := b.(bans := b.bans - {k});
    forall j
      ensures Sane(l, View(c, j), t) && Norm(l, View(b, j), t) == Norm(l, View(c, j), t)
    {
      assert Sane(l, View(b, j), t);
    }
  }

  function Drop(b: Books, gone: set<Key>): Books {
    Books(b.hits - gone, b.bursts - gone, b.bans - gone)
  }

  function Enter(b: Books, client: Key): Books {
    b.(hits := if client in b.hits then b.hits else b.hits[client := []])
  }

  lemma EnterView(b: Books, client: Key)
    ensures forall k :: View(Enter(b, client), k) == View(b, k)
  {
  }

  lemma EnterKeepsSane(l: Limits, b: Books, client: Key, t: real)
    requires SaneBooks(l, b, t) && (client !in b.hits ==> client !in b.bursts)
    ensures SaneBooks(l, Enter(b, client), t)
    ensures |Enter(b, client).hits| <= |b.hits| + 1
  {
    EnterView(b, client);
    OneChanged(l, b, Enter(b, client), t, client);
  }

  lemma DropNothing(b: Books)
    ensures Drop(b, {}) == b
  {
    assert b.hits - {} == b.hits && b.bursts - {} == b.bursts && b.bans - {} == b.bans;
  }

  lemma DropView(b: Books, gone: set<Key>)
    ensures forall k :: View(Drop(b, gone), k) == if k in gone then FRESH else View(b, k)
  {
  }

  lemma DropKeepsSane(l: Limits, b: Books, gone: set<Key>, t: real)
    requires SaneBooks(l, b, t)
    ensures SaneBooks(l, Drop(b, gone), t)
    ensures |Drop(b, gone).hits| <= |b.hits|
  {
    forall k ensures Sane(l, View(Drop(b, gone), k), t) {
      DropView(b, gone);
      assert Sane(l, View(b, k), t);
    }
    SubsetSize(Drop(b, gone).hits.Keys, b.hits.Keys);
  }

  lemma OneChanged(l: Limits, a: Books, b: Books, t: real, client: Key)
    requires SaneBooks(l, a, t) && Sane(l, View(b, client), t)
    requires forall k :: k != client ==> View(b, k) == View(a, k)
    ensures SaneBooks(l, b, t) && Alike(l, a, b, t, {client})
  {
    forall k
      ensures Sane(l, View(b, k), t)
    {
      assert Sane(l, View(a, k), t);
    }
  }

  /** Counting and judging one client in the dictionaries is deciding it. */
  lemma JudgedIsDecided(l: Limits, a: Books, b: Books, client: Key, now: real)
    requires l.Valid() && SaneBooks(l, a, now) && client in a.hits && client !in a.bans
    requires b.hits == a.hits[client := Count(l, a.hits[client], now)]
    requires var d := Judge(l, Count(l, a.hits[client], now), Lookup(a.bursts, client), now).client;
             Lookup(b.bursts, client) == d.burst && Lookup(b.bans, client) == d.bannedUntil
    requires forall k :: k != client ==> Lookup(b.bursts, k) == Lookup(a.bursts, k) && Lookup(b.bans, k) == Lookup(a.bans, k)
    ensures View(b, client) == Decide(l, View(a, client), now).client
    ensures Judge(l, Count(l, a.hits[client], now), Lookup(a.bursts, client), now) == Decide(l, View(a, client), now)
    ensures (forall k :: k != client ==> View(b, k) == View(a, k)) && SaneBooks(l, b, now) && b.hits.Keys == a.hits.Keys
  {
    assert View(a, client) == Client(a.hits[client], Lookup(a.bursts, client), None);
    var d := Judge(l, Count(l, a.hits[client], now), Lookup(a.bursts, client), now);
    assert Decide(l, View(a, client), now) == d;
    assert View(b, client) == d.client by {
      assert d.client.hits == Count(l, a.hits[client], now);
    }
    assert Sane(l, View(b, client), now) by {
      DecideKeepsSane(l, View(a, client), now, now);
    }
    OneChanged(l, a, b, now, client);
  }

  lemma SubsetSize<T>(a: set<T>, b: set<T>)
    requires a <= b
    ensures |a| <= |b|
  {
    assert b == a + (b - a);
  }

  /** The keys of `order` that are in `keys`, in the same order. */
  function Remaining(order: seq<Key>, keys: set<Key>): seq<Key> {
    if order == [] then []
    else (if order[0] in keys then [order[0]] else []) + Remaining(order[1..], keys)
  }

  /** All of the keys, each of them once. */
  ghost predicate Roster(order: seq<Key>, keys: set<Key>) {
    if order == [] then keys == {} else order[0] in keys && Roster(order[1..], keys - {order[0]})
  }

  lemma {:induction false} RosterMembers(order: seq<Key>, keys: set<Key>, k: Key)
    requires Roster(order, keys)
    ensures k in order <==> k in keys
  {
    if order != [] {
      RosterMembers(order[1..], keys - {order[0]}, k);
    }
  }

  lemma {:induction false} RosterShrinks(order: seq<Key>, keys: set<Key>, kept: set<Key>)
    requires Roster(order, keys) && kept <= keys
    ensures Roster(Remaining(order, kept), kept)
  {
    if order != [] {
      var k := order[0];
      if k in kept {
        RosterShrinks(order[1..], keys - {k}, kept - {k});
        RemainingWithout(order[1..], kept, keys - {k}, k);
        assert ([k] + Remaining(order[1..], kept))[1..] == Remaining(order[1..], kept);
      } else {
        RosterShrinks(order[1..], keys - {k}, kept);
        assert [] + Remaining(order[1..], kept) == Remaining(order[1..], kept);
      }
    }
  }

  lemma {:induction false} RemainingWithout(order: seq<Key>, kept: set<Key>, keys: set<Key>, k: Key)
    requires Roster(order, keys) && k !in keys
    ensures Remaining(order, kept - {k}) == Remaining(order, kept)
  {
    if order != [] {
      RemainingWithout(order[1..], kept, keys - {order[0]}, k);
    }
  }

  lemma {:induction false} RosterGrows(order: seq<Key>, keys: set<Key>, k: Key)
    requires Roster(order, keys) && k !in keys
    ensures Roster(order + [k], keys + {k})
  {
    if order == [] {
      assert [k][1..] == [] && {k} - {k} == {};
      assert [] + [k] == [k];
    } else {
      RosterGrows(order[1..], keys - {order[0]}, k);
      assert (order + [k])[1..] == order[1..] + [k];
      assert keys + {k} - {order[0]} == keys - {order[0]} + {k};
    }
  }

  lemma {:induction false} RemainingAll(order: seq<Key>, keys: set<Key>, all: set<Key>)
    requires Roster(order, keys) && keys <= all
    ensures Remaining(order, all) == order
  {
    if order != [] {
      RemainingAll(order[1..], keys - {order[0]}, all);
      assert order == [order[0]] + order[1..];
    }
  }

  const EVICTION_SCAN := 256

  /** The first of the clients, in the order they became known, that is not locked
      out; only `scan` of them are looked at. */
  function Eldest(order: seq<Key>, bans: map<Key, real>, scan: nat): (r: Option<Key>)
    ensures r.Some? ==> exists i :: 0 <= i < |order| && i < scan && order[i] == r.value && order[i] !in bans
                                    && forall j :: 0 <= j < i ==> order[j] in bans
    ensures r.None? ==> forall i :: 0 <= i < |order| && i < scan ==> order[i] in bans
  {
    if order == [] || scan == 0 then None
    else if order[0] !in bans then Some(order[0])
    else Eldest(order[1..], bans, scan - 1)
  }

  ghost function Victims(order: seq<Key>, bans: map<Key, real>): set<Key> {
    var chosen := Eldest(order, bans, EVICTION_SCAN);
    if chosen.Some? then {chosen.value} else {}
  }

  // ----- What one request does to the books ------------------------------------------------

  predicate LockedOut(b: Books, client: Key, now: real) {
    client in b.bans && now < b.bans[client]
  }

  /** The books once a spent lockout of the client is gone and, if it is time, all that is
      over has been swept out. */
  function Tidied(l: Limits, b: Books, client: Key, now: real, nextSweep: real): (r: Books)
    ensures r.hits.Keys <= b.hits.Keys && client !in r.bans
  {
    var unbanned := b.(bans := b.bans - {client});
    if now >= nextSweep then Sweep(l, unbanned, now) else unbanned
  }

  /** Who has to go before the client can be entered. */
  ghost function Outgoing(b: Books, order: seq<Key>, capacity: nat, client: Key): set<Key> {
    if client in b.hits || |b.hits| < capacity then {} else Victims(order, b.bans)
  }

  /** From tidy books to the books after the request, with `order` and `after` the order
      in which the clients became known. */
  ghost predicate Counted(l: Limits, capacity: nat, tidy: Books, order: seq<Key>, client: Key, now: real,
                          b: Books, after: seq<Key>)
    requires l.Valid()
  {
    var gone := Outgoing(tidy, order, capacity, client);
    && b.hits.Keys == tidy.hits.Keys - gone + {client}
    && after == (if client in tidy.hits then order else Remaining(order, tidy.hits.Keys - gone) + [client])
    && View(b, client) == Decide(l, View(tidy, client), now).client
    && forall k :: k != client ==> View(b, k) == if k in gone then FRESH else View(tidy, k)
  }

  lemma UnknownHasNoBurst(l: Limits, b: Books, client: Key, t: real)
    requires SaneBooks(l, b, t) && client !in b.hits
    ensures client !in b.bursts
  {
    assert Sane(l, View(b, client), t);
  }

  lemma EnteredView(tidy: Books, gone: set<Key>, client: Key)
    ensures var roomy := Enter(Drop(tidy, gone), client);
            && roomy.hits.Keys == tidy.hits.Keys - gone + {client}
            && forall k :: View(roomy, k) == if k in gone then FRESH else View(tidy, k)
  {
    DropView(tidy, gone);
    EnterView(Drop(tidy, gone), client);
  }

  lemma EnteredIsCounted(l: Limits, capacity: nat, tidy: Books, order: seq<Key>, client: Key, now: real,
                         roomy: Books, b: Books, after: seq<Key>)
    requires l.Valid() && client !in Outgoing(tidy, order, capacity, client)
    requires roomy == Enter(Drop(tidy, Outgoing(tidy, order, capacity, client)), client) && b.hits.Keys == roomy.hits.Keys
    requires after == if client in tidy.hits then order
                      else Remaining(order, tidy.hits.Keys - Outgoing(tidy, order, capacity, client)) + [client]
    requires View(b, client) == Decide(l, View(roomy, client), now).client
    requires forall k :: k != client ==> View(b, k) == View(roomy, k)
    ensures Counted(l, capacity, tidy, order, client, now, b, after)
  {
    hide Decide, View, Outgoing, Drop, Enter;
    EnteredView(tidy, Outgoing(tidy, order, capacity, client), client);
  }

  /** There is room for the client, or somebody can be made to go. */
  predicate Fits(b: Books, order: seq<Key>, capacity: nat, client: Key) {
    client in b.hits || |b.hits| < capacity || Eldest(order, b.bans, EVICTION_SCAN).Some?
  }

  lemma TidiedUnbanned(l: Limits, b: Books, client: Key, now: real, due: real)
    requires client !in b.bans
    ensures Tidied(l, b, client, now, due) == if now >= due then Sweep(l, b, now) else b
  {
    assert b.bans - {client} == b.bans;
  }

  lemma TidiedAnyway(l: Limits, b: Books, client: Key, now: real, due: real)
    ensures Tidied(l, b.(bans := b.bans - {client}), client, now, due) == Tidied(l, b, client, now, due)
  {
    assert b.bans - {client} - {client} == b.bans - {client};
  }

  lemma UnbannedAlike(l: Limits, b: Books, client: Key, now: real)
    requires l.Valid() && SaneBooks(l, b, now) && !LockedOut(b, client, now)
    ensures var c := b.(bans := b.bans - {client}); SaneBooks(l, c, now) && Alike(l, b, c, now, {})
  {
    if client in b.bans {
      SpentBanAlike(l, b, client, now);
    } else {
      assert b.bans - {client} == b.bans;
    }
  }

  lemma AlikeAlike(l: Limits, a: Books, b: Books, c: Books, t: real)
    requires Alike(l, a, b, t, {}) && Alike(l, b, c, t, {})
    ensures Alike(l, a, c, t, {})
  {
    forall k ensures Norm(l, View(a, k), t) == Norm(l, View(c, k), t) {
      assert Norm(l, View(a, k), t) == Norm(l, View(b, k), t);
    }
  }

  /** Tidying up is invisible. */
  lemma TidiedAlike(l: Limits, b: Books, client: Key, now: real, due: real)
    requires l.Valid() && SaneBooks(l, b, now) && !LockedOut(b, client, now)
    ensures var tidy := Tidied(l, b, client, now, due); SaneBooks(l, tidy, now) && Alike(l, b, tidy, now, {})
  {
    var unbanned := b.(bans := b.bans - {client});
    UnbannedAlike(l, b, client, now);
    if now >= due {
      SweepAlike(l, unbanned, now);
      AlikeAlike(l, b, unbanned, Sweep(l, unbanned, now), now);
    }
  }

  /** A request in tidy books is decided by the rule, and touches nobody but its client and
      whoever has to go. */
  lemma CountedIsDecided(l: Limits, capacity: nat, start: Books, tidy: Books, order: seq<Key>, client: Key, now: real,
                         b: Books, after: seq<Key>)
    requires l.Valid() && SaneBooks(l, start, now) && SaneBooks(l, tidy, now) && Alike(l, start, tidy, now, {})
    requires Counted(l, capacity, tidy, order, client, now, b, after)
    ensures Decide(l, View(tidy, client), now).wait == Decide(l, View(start, client), now).wait
    ensures Norm(l, View(b, client), now) == Norm(l, Decide(l, View(start, client), now).client, now)
    ensures Alike(l, start, b, now, {client} + Outgoing(tidy, order, capacity, client))
  {
    AlikeDecideAlike(l, View(start, client), View(tidy, client), now, now);
    forall k | k !in {client} + Outgoing(tidy, order, capacity, client)
      ensures Norm(l, View(start, k), now) == Norm(l, View(b, k), now)
    {
      assert Norm(l, View(start, k), now) == Norm(l, View(tidy, k), now);
    }
  }

  /** Who goes is somebody else, and with room for everybody nobody does. */
  lemma OutgoingIsOther(start: Books, tidy: Books, order: seq<Key>, capacity: nat, client: Key)
    requires tidy.hits.Keys <= start.hits.Keys && Roster(order, tidy.hits.Keys)
    ensures var gone := Outgoing(tidy, order, capacity, client);
            && client !in gone && |gone| <= 1 && gone <= start.hits.Keys
            && (|start.hits.Keys + {client}| <= capacity ==> gone == {})
  {
    if client !in tidy.hits {
      if |tidy.hits| >= capacity && Eldest(order, tidy.bans, EVICTION_SCAN).Some? {
        RosterMembers(order, tidy.hits.Keys, Eldest(order, tidy.bans, EVICTION_SCAN).value);
      }
      assert |tidy.hits.Keys + {client}| == |tidy.hits| + 1;
      SubsetSize(tidy.hits.Keys + {client}, start.hits.Keys + {client});
    }
  }

  /** The books stay within their capacity exactly when the client fits. */
  lemma CountedFits(l: Limits, capacity: nat, start: Books, tidy: Books, order: seq<Key>, client: Key, now: real,
                    b: Books, after: seq<Key>)
    requires l.Valid() && Counted(l, capacity, tidy, order, client, now, b, after)
    requires tidy.hits.Keys <= start.hits.Keys && |start.hits| <= capacity && Roster(order, tidy.hits.Keys)
    ensures |b.hits| <= capacity <==> Fits(tidy, order, capacity, client)
  {
    hide Decide, View, Roster, Remaining;
    SubsetSize(tidy.hits.Keys, start.hits.Keys);
    var gone := Outgoing(tidy, order, capacity, client);
    assert |b.hits| == |b.hits.Keys| && |tidy.hits| == |tidy.hits.Keys| && |start.hits| == |start.hits.Keys|;
    if client in tidy.hits {
      assert tidy.hits.Keys - gone + {client} == tidy.hits.Keys;
    } else if gone != {} {
      var chosen := Eldest(order, tidy.bans, EVICTION_SCAN).value;
      RosterMembers(order, tidy.hits.Keys, chosen);
      assert |tidy.hits.Keys - {chosen}| == |tidy.hits.Keys| - 1;
    } else {
      assert tidy.hits.Keys - gone == tidy.hits.Keys;
    }
  }

  /** One request, from the books before it to the books after it. */
  ghost predicate Requested(l: Limits, capacity: nat, start: Books, order: seq<Key>, due: real, client: Key, now: real,
                            b: Books, after: seq<Key>)
    requires l.Valid()
  {
    if LockedOut(start, client, now) then b == start && after == order
    else
      var tidy := Tidied(l, start, client, now, due);
      Counted(l, capacity, tidy, Remaining(order, tidy.hits.Keys), client, now, b, after)
  }

  /** The condition under which the books keep to their capacity: the client is locked
      out, or, once they are tidy, it is known, or there is room, or one of the clients
      that eviction looks at is not locked out. */
  ghost predicate KeepsCapacity(l: Limits, capacity: nat, start: Books, order: seq<Key>, due: real, client: Key, now: real) {
    LockedOut(start, client, now) ||
    var tidy := Tidied(l, start, client, now, due);
    Fits(tidy, Remaining(order, tidy.hits.Keys), capacity, client)
  }

  ghost function Evicted(l: Limits, capacity: nat, start: Books, order: seq<Key>, due: real, client: Key, now: real): set<Key> {
    if LockedOut(start, client, now) then {}
    else
      var tidy := Tidied(l, start, client, now, due);
      Outgoing(tidy, Remaining(order, tidy.hits.Keys), capacity, client)
  }

  function Waiting(l: Limits, start: Books, due: real, client: Key, now: real): Option<real>
    requires l.Valid()
  {
    if LockedOut(start, client, now) then Some(start.bans[client] - now)
    else Decide(l, View(Tidied(l, start, client, now, due), client), now).wait
  }

  lemma RequestedIsDecided(l: Limits, capacity: nat, start: Books, order: seq<Key>, due: real, client: Key, now: real,
                           b: Books, after: seq<Key>)
    requires l.Valid() && SaneBooks(l, start, now) && Requested(l, capacity, start, order, due, client, now, b, after)
    ensures Waiting(l, start, due, client, now) == Decide(l, View(start, client), now).wait
    ensures Norm(l, View(b, client), now) == Norm(l, Decide(l, View(start, client), now).client, now)
    ensures Alike(l, start, b, now, {client} + Evicted(l, capacity, start, order, due, client, now))
    ensures forall k :: k in Evicted(l, capacity, start, order, due, client, now) && k != client ==> View(b, k) == FRESH
  {
    if !LockedOut(start, client, now) {
      var tidy := Tidied(l, start, client, now, due);
      TidiedAlike(l, start, client, now, due);
      CountedIsDecided(l, capacity, start, tidy, Remaining(order, tidy.hits.Keys), client, now, b, after);
    }
  }

  lemma RequestedMakesRoom(l: Limits, capacity: nat, start: Books, order: seq<Key>, due: real, client: Key, now: real,
                           b: Books, after: seq<Key>)
    requires l.Valid() && Roster(order, start.hits.Keys) && Requested(l, capacity, start, order, due, client, now, b, after)
    ensures var gone := Evicted(l, capacity, start, order, due, client, now);
            && client !in gone && |gone| <= 1 && gone <= start.hits.Keys && b.hits.Keys <= start.hits.Keys + {client}
            && (|start.hits.Keys + {client}| <= capacity ==> gone == {})
    ensures |start.hits| <= capacity ==>
              (|b.hits| <= capacity <==> KeepsCapacity(l, capacity, start, order, due, client, now))
  {
    if !LockedOut(start, client, now) {
      var tidy := Tidied(l, start, client, now, due);
      RosterShrinks(order, start.hits.Keys, tidy.hits.Keys);
      OutgoingIsOther(start, tidy, Remaining(order, tidy.hits.Keys), capacity, client);
      if |start.hits| <= capacity {
        CountedFits(l, capacity, start, tidy, Remaining(order, tidy.hits.Keys), client, now, b, after);
      }
    }
  }

  class LocalCounters {
    const limits: Limits
    const capacity: nat
    var hits: map<Key, seq<real>>
    var order: seq<Key>  // the keys of `hits`, first inserted first
    var bursts: map<Key, real>
    var bans: map<Key, real>
    var nextSweep: real
    ghost var books: Books  // the dictionaries, as one value
    ghost var clock: real   // no request has carried a later time

    constructor (requests: int, peak: int, window: real, ban: real, capacity: nat)
      ensures Valid() && clock == 0.0 && limits == Normalise(requests, peak, window, ban)
      ensures this.capacity == (if capacity == 0 then 262144 else if capacity < 1024 then 1024 else capacity)
      ensures books == Books(map[], map[], map[])
    {
      limits := Normalise(requests, peak, window, ban);
      this.capacity := if capacity == 0 then 262144 else if capacity < 1024 then 1024 else capacity;
      hits, order, bursts, bans := map[], [], map[], map[];
      nextSweep, clock := 0.0, 0.0;
      books := Books(map[], map[], map[]);
    }

    ghost predicate Valid()
      reads this
    {
      && limits.Valid()
      && books == Books(hits, bursts, bans)
      && Roster(order, hits.Keys)
      && SaneBooks(limits, books, clock)
    }

    /** Count one request; `None` serves it, otherwise the seconds to wait.
        `evicted` is the one client, if any, that was forgotten to make room. */
    method Consume(client: Key, now: real) returns (wait: Option<real>, ghost evicted: set<Key>)
      requires Valid() && clock <= now
      modifies this
      ensures Valid() && clock == now
      ensures wait == Decide(limits, old(View(books, client)), now).wait
      ensures Norm(limits, View(books, client), now)
           == Norm(limits, Decide(limits, old(View(books, client)), now).client, now)
      ensures Alike(limits, old(books), books, now, {client} + evicted)
      ensures client !in evicted && |evicted| <= 1 && evicted <= old(hits).Keys
      ensures forall k :: k in evicted ==> View(books, k) == FRESH
      ensures hits.Keys <= old(hits).Keys + {client} && (|old(hits).Keys + {client}| <= capacity ==> evicted == {})
      ensures Requested(limits, capacity, old(books), old(order), old(nextSweep), client, now, books, order)
      ensures nextSweep == if LockedOut(old(books), client, now) then old(nextSweep) else NextSweep(old(nextSweep), now)
      ensures |old(hits)| <= capacity ==>
                (|hits| <= capacity <==> KeepsCapacity(limits, capacity, old(books), old(order), old(nextSweep), client, now))
    {
      ghost var start, due, known := books, nextSweep, order;
      SaneLater(limits, start, clock, now);
      evicted := Evicted(limits, capacity, start, known, due, client, now);
      wait := CountOne(client, now);
      RequestedIsDecided(limits, capacity, start, known, due, client, now, books, order);
      RequestedMakesRoom(limits, capacity, start, known, due, client, now, books, order);
    }

    /** Refused while a lockout is in force, and counted otherwise. */
    method CountOne(client: Key, now: real) returns (wait: Option<real>)
      requires Valid() && clock <= now
      modifies this
      ensures Valid() && clock == now && wait == Waiting(limits, old(books), old(nextSweep), client, now)
      ensures Requested(limits, capacity, old(books), old(order), old(nextSweep), client, now, books, order)
      ensures nextSweep == if LockedOut(old(books), client, now) then old(nextSweep) else NextSweep(old(nextSweep), now)
    {
      SaneLater(limits, books, clock, now);
      clock := now;
      if client in bans && now < bans[client] {
        wait := Some(bans[client] - now);
      } else {
        wait := CountAllowed(client, now);
      }
    }

    /** A lockout that is over is forgotten. */
    method DropBan(client: Key)
      requires Valid() && !LockedOut(books, client, clock)
      modifies this`bans, this`books
      ensures Valid() && books == old(books).(bans := old(books).bans - {client})
    {
      if client in bans {
        SpentBanAlike(limits, books, client, clock);
      }
      assert client !in bans ==> bans - {client} == bans;
      bans := bans - {client};
      books := books.(bans := bans);
    }

    /** The request of a client that is not locked out, or no longer. */
    method CountAllowed(client: Key, now: real) returns (wait: Option<real>)
      requires Valid() && clock == now && !LockedOut(books, client, now)
      modifies this`hits, this`order, this`bursts, this`bans, this`books, this`nextSweep
      ensures Valid() && nextSweep == NextSweep(old(nextSweep), now)
      ensures wait == Waiting(limits, old(books), old(nextSweep), client, now)
      ensures Requested(limits, capacity, old(books), old(order), old(nextSweep), client, now, books, order)
    {
      TidiedAnyway(limits, books, client, now, nextSweep);
      DropBan(client);
      wait := CountUnbanned(client, now);
    }

    /** The request of a client without a lockout. */
    method CountUnbanned(client: Key, now: real) returns (wait: Option<real>)
      requires Valid() && clock == now && client !in bans
      modifies this`hits, this`order, this`bursts, this`bans, this`books, this`nextSweep
      ensures Valid() && nextSweep == NextSweep(old(nextSweep), now)
      ensures var tidy := Tidied(limits, old(books), client, now, old(nextSweep));
              && wait == Decide(limits, View(tidy, client), now).wait
              && Counted(limits, capacity, tidy, Remaining(old(order), tidy.hits.Keys), client, now, books, order)
    {
      ghost var unbanned := books;
      hide Sweep, Decide, View, Counted, Drop, Enter, Outgoing, Tidied;
      TidiedUnbanned(limits, unbanned, client, now, nextSweep);
      MaybeSweep(now);
      ghost var swept := books;
      ghost var evicted := EnsureKnown(client);
      ghost var roomy := books;
      EnteredView(swept, evicted, client);
      wait := CountAndAnswer(client, now);
      EnteredIsCounted(limits, capacity, swept, Remaining(old(order), swept.hits.Keys), client, now, roomy, books, order);
    }

    /** Sweeps are at least a window apart, and a second. */
    function NextSweep(due: real, now: real): (next: real)
      ensures now < due ==> next == due
      ensures now >= due ==> next >= now + limits.window && next >= now + 1.0
      ensures now >= due ==> next == now + limits.window || next == now + 1.0
    {
      if now >= due then now + (if limits.window > 1.0 then limits.window else 1.0) else due
    }

    method CountWindow(hits: seq<real>, now: real) returns (window: seq<real>)
      ensures window == Count(limits, hits, now)
    {
      window := hits;
      var edge := now - limits.window;
      while window != [] && window[0] <= edge
        invariant Expire(window, edge) == Expire(hits, edge)
      {
        window := window[1..];
      }
      if |window| < limits.peak + 1 {
        window := window + [now];
      }
    }

    /** The verdict on a client whose window has been counted. */
    method Answer(client: Key, window: seq<real>, now: real) returns (wait: Option<real>)
      requires limits.Valid() && window != [] && client !in bans
      modifies this`bursts, this`bans
      ensures var d := Judge(limits, window, Lookup(old(bursts), client), now);
              wait == d.wait && Lookup(bursts, client) == d.client.burst && Lookup(bans, client) == d.client.bannedUntil
      ensures forall k :: k != client ==> Lookup(bursts, k) == Lookup(old(bursts), k) && Lookup(bans, k) == Lookup(old(bans), k)
    {
      if |window| <= limits.requests {
        wait := None;
      } else if |window| <= limits.peak && BurstOver(limits, Lookup(bursts, client), now) {
        bursts := bursts[client := now];
        wait := None;
      } else if limits.ban > 0.0 {
        bans := bans[client := now + limits.ban];
        wait := Some(limits.ban);
      } else {
        var left := window[0] + limits.window - now;
        wait := Some(if left > 0.0 then left else 0.0);
      }
    }

    method CountAndAnswer(client: Key, now: real) returns (wait: Option<real>)
      requires Valid() && clock == now && client in hits && client !in bans
      modifies this`hits, this`bursts, this`bans, this`books
      ensures Valid() && hits.Keys == old(hits).Keys
      ensures wait == Decide(limits, old(View(books, client)), now).wait
      ensures View(books, client) == Decide(limits, old(View(books, client)), now).client
      ensures forall k :: k != client ==> View(books, k) == old(View(books, k))
    {
      ghost var start := books;
      var window := CountWindow(hits[client], now);
      hits := hits[client := window];
      wait := Answer(client, window, now);
      books := Books(hits, bursts, bans);
      JudgedIsDecided(limits, start, books, client, now);
    }

    /** Forget, at most once a window, what no later request can see. */
    method MaybeSweep(now: real)
      requires Valid() && clock == now
      modifies this`hits, this`order, this`bursts, this`bans, this`books, this`nextSweep
      ensures Valid()
      ensures order == Remaining(old(order), hits.Keys)
      ensures books == if now >= old(nextSweep) then Sweep(limits, old(books), now) else old(books)
      ensures nextSweep == NextSweep(old(nextSweep), now)
    {
      if now >= nextSweep {
        nextSweep := now + (if limits.window > 1.0 then limits.window else 1.0);
        ghost var before := books;
        ghost var known := hits.Keys;
        var swept := Sweep(limits, Books(hits, bursts, bans), now);
        hits, bursts, bans, books := swept.hits, swept.bursts, swept.bans, swept;
        RosterShrinks(order, known, hits.Keys);
        order := Remaining(order, hits.Keys);
        assert SaneBooks(limits, books, now) by {
          SweepAlike(limits, before, now);
        }
      } else {
        RemainingAll(order, hits.Keys, hits.Keys);
      }
    }

    /** Enter a new client into the books, making room for it if they are full. */
    method EnsureKnown(client: Key) returns (ghost evicted: set<Key>)
      requires Valid() && client !in bans
      modifies this`hits, this`order, this`bursts, this`bans, this`books
      ensures Valid() && client in hits && client !in bans
      ensures client !in evicted && |evicted| <= 1 && evicted <= old(hits).Keys
      ensures evicted == Outgoing(old(books), old(order), capacity, client)
      ensures books == Enter(Drop(old(books), evicted), client) && evicted !! old(bans).Keys
      ensures order == if client in old(hits) then old(order) else Remaining(old(order), old(hits).Keys - evicted) + [client]
    {
      hide Roster, SaneBooks, Remaining, Victims;
      evicted := {};
      DropNothing(books);
      if client !in hits {
        if |hits| >= capacity {
          evicted := EvictOldest(client);
        } else {
          RemainingAll(order, hits.Keys, hits.Keys - {});
        }
        UnknownHasNoBurst(limits, books, client, clock);
        Admit(client);
      }
    }

    method Admit(client: Key)
      requires Valid() && client !in hits && client !in bans && client !in bursts
      modifies this`hits, this`order, this`books
      ensures Valid() && books == Enter(old(books), client) && order == old(order) + [client]
    {
      ghost var roomy := books;
      RosterGrows(order, hits.Keys, client);
      hits := hits[client := []];
      order := order + [client];
      books := books.(hits := hits);
      assert hits.Keys == old(hits).Keys + {client};
      assert SaneBooks(limits, books, clock) by {
        assert Sane(limits, View(roomy, client), clock);
        EnterKeepsSane(limits, roomy, client, clock);
      }
    }

    /** Make room by dropping the client known for longest that is not locked out, if
        there is one among those that are looked at. */
    method EvictOldest(ghost spared: Key) returns (ghost evicted: set<Key>)
      requires Valid() && spared !in hits
      modifies this`hits, this`order, this`bursts, this`bans, this`books
      ensures Valid() && spared !in hits && spared !in evicted && |evicted| <= 1
      ensures evicted == Victims(old(order), old(bans))
      ensures evicted <= old(hits).Keys && evicted !! old(bans).Keys
      ensures books == Drop(old(books), evicted) && order == Remaining(old(order), old(hits).Keys - evicted)
    {
      var i := 0;
      while i < |order| && i < EVICTION_SCAN && order[i] in bans
        invariant 0 <= i <= |order| && i <= EVICTION_SCAN
        invariant Eldest(order[i..], bans, EVICTION_SCAN - i) == Eldest(order, bans, EVICTION_SCAN)
      {
        assert order[i..][1..] == order[i + 1..];
        i := i + 1;
      }
      evicted := Victims(order, bans);
      if i < |order| && i < EVICTION_SCAN {
        RosterMembers(order, hits.Keys, order[i]);
        RosterMembers(order, hits.Keys, spared);
        Forget(order[i]);
      } else {
        DropNothing(books);
        RemainingAll(order, hits.Keys, hits.Keys - {});
      }
    }

    method Forget(client: Key)
      requires Valid() && client in hits
      modifies this`hits, this`order, this`bursts, this`bans, this`books
      ensures Valid() && books == Drop(old(books), {client}) && order == Remaining(old(order), old(hits).Keys - {client})
    {
      DropKeepsSane(limits, books, {client}, clock);
      RosterShrinks(order, hits.Keys, hits.Keys - {client});
      hits := hits - {client};
      order := Remaining(order, hits.Keys);
      bursts := bursts - {client};
      bans := bans - {client};
      books := Drop(books, {client});
    }
  }

  // ----- Books that outgrow their capacity --------------------------------------------------

  function Upto(n: nat): seq<Key> {
    seq(n, i => i)
  }

  lemma UptoGrows(n: nat)
    ensures Upto(n) + [n] == Upto(n + 1)
  {
  }

  lemma {:induction false} RosterSize(order: seq<Key>, keys: set<Key>)
    requires Roster(order, keys)
    ensures |keys| == |order|
  {
    if order != [] {
      RosterSize(order[1..], keys - {order[0]});
    }
  }

  /** One request in ten seconds, and a long lockout for more. */
  const STRICT := Limits(1, 1, 10.0, 1000.0)

  const SEEN := Client([1.0], None, None)

  /** Clients 0 to n have come at the time 1.0, and the first `banned` of them twice. */
  ghost predicate Crowd(b: Books, order: seq<Key>, due: real, n: nat, banned: nat) {
    && order == Upto(n) && Roster(order, b.hits.Keys) && SaneBooks(STRICT, b, 1.0) && (n > 0 ==> due > 1.0) && banned <= n
    && (forall k :: k in b.bans <==> 0 <= k < banned) && (n == 0 ==> b == NO_BOOKS)
  }

  const NO_BOOKS := Books(map[], map[], map[])

  lemma CrowdIsTidy(b: Books, order: seq<Key>, due: real, n: nat, banned: nat, client: Key)
    requires Crowd(b, order, due, n, banned) && client !in b.bans
    ensures var tidy := Tidied(STRICT, b, client, 1.0, due);
            && tidy.hits == b.hits && tidy.bans == b.bans && Remaining(order, tidy.hits.Keys) == order
            && View(tidy, client) == View(b, client)
  {
    TidiedUnbanned(STRICT, b, client, 1.0, due);
    RemainingAll(order, b.hits.Keys, b.hits.Keys);
    assert Sane(STRICT, View(b, client), 1.0);
    if n == 0 {
      assert Sweep(STRICT, NO_BOOKS, 1.0) == NO_BOOKS;
    }
  }

  /** Nobody goes while there is room, or when everybody looked at is locked out. */
  lemma CrowdStays(b: Books, order: seq<Key>, due: real, n: nat, banned: nat, client: Key)
    requires Crowd(b, order, due, n, banned) && (n < 1024 || banned >= EVICTION_SCAN)
    ensures Outgoing(b, order, 1024, client) == {}
  {
    RosterSize(order, b.hits.Keys);
  }

  /** The lockouts after a request of `n`, whatever it is answered. */
  lemma CrowdBans(b: Books, order: seq<Key>, due: real, n: nat, known: nat, banned: nat, c: Books, after: seq<Key>)
    requires Crowd(b, order, due, known, banned) && n !in b.bans && Outgoing(b, order, 1024, n) == {}
    requires Requested(STRICT, 1024, b, order, due, n, 1.0, c, after)
    ensures View(c, n) == Decide(STRICT, View(b, n), 1.0).client && c.hits.Keys == b.hits.Keys + {n}
    ensures after == if n in b.hits then order else order + [n]
    ensures forall k :: k != n ==> (k in c.bans <==> 0 <= k < banned)
    ensures n in c.bans <==> Decide(STRICT, View(b, n), 1.0).client.bannedUntil.Some?
  {
    var tidy := Tidied(STRICT, b, n, 1.0, due);
    CrowdIsTidy(b, order, due, known, banned, n);
    RemainingAll(order, b.hits.Keys, b.hits.Keys - {});
    assert b.hits.Keys - {} == b.hits.Keys;
    forall k ensures (k in c.bans) == View(c, k).bannedUntil.Some? && (k != n ==> View(c, k) == View(tidy, k)) {
    }
  }

  lemma FirstRequest()
    ensures Decide(STRICT, FRESH, 1.0).client == SEEN
  {
    assert [] + [1.0] == [1.0];
  }

  lemma StrangerIsFresh(b: Books, order: seq<Key>, client: Key)
    requires Roster(order, b.hits.Keys) && SaneBooks(STRICT, b, 1.0) && client !in order && client !in b.bans
    ensures client !in b.hits && View(b, client) == FRESH
  {
    RosterMembers(order, b.hits.Keys, client);
    assert Sane(STRICT, View(b, client), 1.0);
  }

  lemma NewcomerCounted(b: Books, order: seq<Key>, due: real, n: nat, banned: nat, c: Books, after: seq<Key>)
    requires Crowd(b, order, due, n, banned) && (n < 1024 || banned >= EVICTION_SCAN) && SaneBooks(STRICT, c, 1.0)
    requires Requested(STRICT, 1024, b, order, due, n, 1.0, c, after) && Roster(after, c.hits.Keys)
    ensures Crowd(c, after, 11.0, n + 1, banned) && View(c, n) == SEEN
  {
    hide Decide, Requested, View;
    StrangerIsFresh(b, order, n);
    CrowdStays(b, order, due, n, banned, n);
    CrowdBans(b, order, due, n, n, banned, c, after);
    UptoGrows(n);
    FirstRequest();
  }

  lemma OffenderCounted(b: Books, order: seq<Key>, due: real, n: nat, c: Books, after: seq<Key>)
    requires Crowd(b, order, due, n + 1, n) && View(b, n) == SEEN && SaneBooks(STRICT, c, 1.0)
    requires Requested(STRICT, 1024, b, order, due, n, 1.0, c, after) && Roster(after, c.hits.Keys)
    ensures Crowd(c, after, due, n + 1, n + 1)
  {
    assert n in b.hits;
    CrowdBans(b, order, due, n, n + 1, n, c, after);
    assert Decide(STRICT, SEEN, 1.0).client.bannedUntil.Some? by {
      assert Expire([1.0], 1.0 - 10.0) == [1.0];
    }
  }

  ghost predicate Crowded(counters: LocalCounters, n: nat, banned: nat)
    reads counters
  {
    && counters.Valid() && counters.limits == STRICT && counters.capacity == 1024 && counters.clock <= 1.0
    && Crowd(counters.books, counters.order, counters.nextSweep, n, banned)
  }

  method Meet(counters: LocalCounters, n: nat, ghost banned: nat)
    requires Crowded(counters, n, banned) && (n < 1024 || banned >= EVICTION_SCAN)
    modifies counters
    ensures Crowded(counters, n + 1, banned) && View(counters.books, n) == SEEN
  {
    ghost var b, order, due := counters.books, counters.order, counters.nextSweep;
    var wait, evicted := counters.Consume(n, 1.0);
    NewcomerCounted(b, order, due, n, banned, counters.books, counters.order);
  }

  method Offend(counters: LocalCounters, n: nat)
    requires Crowded(counters, n + 1, n) && View(counters.books, n) == SEEN
    modifies counters
    ensures Crowded(counters, n + 1, n + 1)
  {
    ghost var b, order, due := counters.books, counters.order, counters.nextSweep;
    var wait, evicted := counters.Consume(n, 1.0);
    OffenderCounted(b, order, due, n, counters.books, counters.order);
  }

  /** A run after which the books hold as many clients more than their capacity as one
      likes: the 256 clients known for longest get themselves locked out, and then others
      keep coming. */
  method Outgrow(extra: nat) returns (counters: LocalCounters)
    ensures fresh(counters) && counters.Valid() && counters.capacity == 1024 && |counters.hits| == 1024 + extra
  {
    counters := new LocalCounters(1, 1, 10.0, 1000.0, 1024);
    for i := 0 to EVICTION_SCAN
      invariant fresh(counters) && Crowded(counters, i, i)
    {
      Meet(counters, i, i);
      Offend(counters, i);
    }
    for i := EVICTION_SCAN to 1024 + extra
      invariant fresh(counters) && Crowded(counters, i, EVICTION_SCAN)
    {
      Meet(counters, i, EVICTION_SCAN);
    }
    RosterSize(counters.order, counters.hits.Keys);
  }
}
