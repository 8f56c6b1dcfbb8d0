/** The slots of the shared table as they lie in memory: a head and a ring of
    `peak + 1` timestamps each, packed one after the other and updated in place. */
module Shared {
  import opened Wrappers
  import opened Window
  import opened ProbeTable

  /** A slot head; `NONE` where no client is, `0.0` where no burst or lockout is. */
  datatype Head = Head(owner: Option<Key>, banUntil: real, burst: real, count: nat, oldest: nat)

  const EMPTY := Head(None, 0.0, 0.0, 0, 0)

  function Mark(x: real): Option<real> {
    if x == 0.0 then None else Some(x)
  }

  /** A position `a` on a ring of `n`, where `a` has gone round at most once. */
  function Turn(a: nat, n: nat): (r: nat)
    requires a < 2 * n
    ensures r < n
  {
    if a < n then a else a - n
  }

  lemma TurnIsModulo(a: nat, n: nat)
    requires a < 2 * n
    ensures Turn(a, n) == a % n
  {
    if a >= n {
      assert a == n + (a - n);
    }
  }

  /** The `count` timestamps of a ring, from `oldest` on. */
  function Ring(row: seq<real>, oldest: nat, count: nat): (hits: seq<real>)
    requires oldest < |row| && count <= |row|
    ensures |hits| == count
    ensures forall i :: 0 <= i < count ==> hits[i] == row[Turn(oldest + i, |row|)]
  {
    seq(count, i requires 0 <= i < count => row[Turn(oldest + i, |row|)])
  }

  lemma RingPop(row: seq<real>, oldest: nat, count: nat)
    requires 0 < count <= |row| && oldest < |row|
    ensures Ring(row, Turn(oldest + 1, |row|), count - 1) == Ring(row, oldest, count)[1..]
  {
    var hits, popped := Ring(row, oldest, count), Ring(row, Turn(oldest + 1, |row|), count - 1);
    assert forall i :: 0 <= i < count - 1 ==> popped[i] == hits[i + 1];
  }

  lemma RingPush(row: seq<real>, oldest: nat, count: nat, x: real)
    requires count < |row| && oldest < |row|
    ensures Ring(row[Turn(oldest + count, |row|) := x], oldest, count + 1) == Ring(row, oldest, count) + [x]
  {
  }

  /** What every used slot looks like. */
  predicate SlotOk(h: Head, ring: nat) {
    if h.owner.None? then h == EMPTY
    else h.oldest < ring && 1 <= h.count <= ring && 0.0 <= h.burst && 0.0 <= h.banUntil
  }

  /** A slot, read back from its head and its ring. */
  function SlotOf(h: Head, row: seq<real>): Slot
    requires SlotOk(h, |row|)
  {
    if h.owner.None? then Free
    else Used(h.owner.value, Client(Ring(row, h.oldest, h.count), Mark(h.burst), Mark(h.banUntil)))
  }

  lemma NotPassedYet(cfg: Config, table: seq<Slot>, k: Key)
    requires 0 < cfg.slots == |table|
    ensures Passed(cfg, table, k, 0)
  {
  }

  lemma AllPassed(cfg: Config, table: seq<Slot>, k: Key)
    requires 0 < cfg.slots == |table| && Passed(cfg, table, k, PROBES)
    ensures Seek(cfg, table, k, 0).Full?
  {
    PassedSeek(cfg, table, k, PROBES);
  }

  class SharedCounters {
    const cfg: Config
    const heads: array<Head>
    const stamps: array2<real>  // a ring per slot
    var sweepCursor: nat

    constructor (requests: int, peak: int, window: real, ban: real, slots: int, hash: Key -> nat)
      ensures Valid() && fresh(heads) && fresh(stamps)
      ensures cfg.limits == Normalise(requests, peak, window, ban) && cfg.hash == hash
      ensures cfg.slots == if slots < MIN_SLOTS then MIN_SLOTS else slots
      ensures View() == Start(cfg).table
    {
      var n: nat := if slots < MIN_SLOTS then MIN_SLOTS else slots;
      var limits := Normalise(requests, peak, window, ban);
      cfg := Config(limits, n, hash);
      heads := new Head[n](_ => EMPTY);
      stamps := new real[n, limits.peak + 1]((_, _) => 0.0);
      sweepCursor := 0;
      new;
    }

    ghost predicate Valid()
      reads this, heads
    {
      && cfg.Valid()
      && heads.Length == cfg.slots
      && stamps.Length0 == cfg.slots && stamps.Length1 == cfg.limits.peak + 1
      && sweepCursor < cfg.slots
      && forall i :: 0 <= i < heads.Length ==> SlotOk(heads[i], cfg.limits.peak + 1)
    }

    ghost function Row(i: nat): (row: seq<real>)
      requires i < stamps.Length0
      reads stamps
      ensures |row| == stamps.Length1
      ensures forall p :: 0 <= p < stamps.Length1 ==> row[p] == stamps[i, p]
    {
      seq(stamps.Length1, p requires 0 <= p < stamps.Length1 && i < stamps.Length0 reads stamps => stamps[i, p])
    }

    ghost function View(): (table: seq<Slot>)
      requires Valid()
      reads this, heads, stamps
      ensures |table| == cfg.slots
    {
      seq(cfg.slots, i requires 0 <= i < cfg.slots && Valid() reads this, heads, stamps => SlotOf(heads[i], Row(i)))
    }

    /** Drop what has aged out at the front of a ring and write this request at its
        back: the two ends are all that is touched. */
    method CountInPlace(i: nat, now: real, count: nat, oldest: nat) returns (first: nat, left: nat)
      requires cfg.Valid() && i < stamps.Length0 && stamps.Length1 == cfg.limits.peak + 1
      requires oldest < stamps.Length1 && count <= stamps.Length1
      modifies stamps
      ensures first < stamps.Length1 && 1 <= left <= stamps.Length1
      ensures Ring(Row(i), first, left) == Count(cfg.limits, Ring(old(Row(i)), oldest, count), now)
      ensures forall j :: 0 <= j < stamps.Length0 && j != i ==> Row(j) == old(Row(j))
    {
      var ring := stamps.Length1;
      ghost var row := Row(i);
      first, left := oldest, count;
      var edge := now - cfg.limits.window;
      while left > 0 && stamps[i, first] <= edge
        invariant 0 <= first < ring && 0 <= left <= ring
        invariant Expire(Ring(row, first, left), edge) == Expire(Ring(row, oldest, count), edge)
        decreases left
        modifies {}
      {
        assert Ring(row, first, left)[0] == stamps[i, first];
        RingPop(row, first, left);
        first, left := Turn(first + 1, ring), left - 1;
      }
      if left < ring {
        RingPush(row, first, left, now);
        stamps[i, Turn(first + left, ring)] := now;
        assert Row(i) == row[Turn(first + left, ring) := now];
        assert forall j :: 0 <= j < stamps.Length0 && j != i ==> Row(j) == old(Row(j));
        left := left + 1;
      }
    }

    /** Apply the window to one slot.  The last four arguments are what the caller
        read from the head, or zeros when the slot is free. */
    method DecideAt(i: nat, key: Key, now: real, count: nat, banUntil: real, burst: real, oldest: nat)
      returns (wait: Option<real>)
      requires Valid() && i < cfg.slots && now > 0.0
      requires heads[i] == Head(Some(key), banUntil, burst, count, oldest)
            || (heads[i] == EMPTY && count == oldest == 0 && banUntil == burst == 0.0)
      modifies heads, stamps
      ensures Valid()
      ensures var d := Decide(cfg.limits, Client(Ring(old(Row(i)), oldest, count), Mark(burst), Mark(banUntil)), now);
              wait == d.wait && View() == old(View())[i := Used(key, d.client)]
    {
      hide Ring, Count;
      if banUntil != 0.0 && now < banUntil {
        assert View() == old(View())[i := old(View())[i]];
        return Some(banUntil - now);
      }
      ghost var hits := Ring(Row(i), oldest, count);
      var first, left := CountInPlace(i, now, count, oldest);
      var until, spent := 0.0, burst;
      wait := None;
      if left <= cfg.limits.requests {
      } else if left <= cfg.limits.peak && (burst == 0.0 || now - burst >= cfg.limits.window) {
        spent := now;
      } else if cfg.limits.ban > 0.0 {
        until := now + cfg.limits.ban;
        wait := Some(cfg.limits.ban);
      } else {
        var room := stamps[i, first] + cfg.limits.window - now;
        wait := Some(if room > 0.0 then room else 0.0);
      }
      heads[i] := Head(Some(key), until, spent, left, first);
      ghost var d := Decide(cfg.limits, Client(hits, Mark(burst), Mark(banUntil)), now);
      assert SlotOf(heads[i], Row(i)) == Used(key, d.client);
      assert View() == old(View())[i := Used(key, d.client)];
    }

    /** One probe, under the lock of its shard: the step of the shared protocol. */
    method Probe(i: nat, key: Key, now: real) returns (answer: Option<Option<real>>)
      requires Valid() && i < cfg.slots && now > 0.0
      modifies heads, stamps
      ensures Valid()
      ensures var (slot, a) := Visit(cfg.limits, old(View())[i], key, now);
              answer == a && View() == old(View())[i := slot]
    {
      var h := heads[i];
      if h.owner.None? {
        var wait := DecideAt(i, key, now, 0, 0.0, 0.0, 0);
        return Some(wait);
      }
      if h.owner.value == key {
        var wait := DecideAt(i, key, now, h.count, h.banUntil, h.burst, h.oldest);
        return Some(wait);
      }
      assert View() == old(View())[i := old(View())[i]];
      return None;
    }

    /** One request, with nobody else at the table: `None` when every slot of the
        run belongs to somebody else, and the caller counts on its own.  As long as
        every client is where its probes look for it, nobody else is touched. */
    method Consume(key: Key, now: real) returns (answer: Option<Option<real>>)
      requires Valid() && now > 0.0
      modifies heads, stamps
      ensures Valid()
      ensures answer.None? <==> Seek(cfg, old(View()), key, 0).Full?
      ensures answer.None? ==> View() == old(View())
      ensures answer.Some? ==>
                var d := Decide(cfg.limits, Known(cfg, old(View()), key), now);
                var i := Seek(cfg, old(View()), key, 0).index;
                && answer == Some(d.wait)
                && i < cfg.slots && View() == old(View())[i := Used(key, d.client)]
                && Known(cfg, View(), key) == d.client
      ensures Placed(cfg, old(View())) ==>
                Placed(cfg, View()) && forall k :: k != key ==> Known(cfg, View(), k) == Known(cfg, old(View()), k)
    {
      hide Decide, Placed, Known, Visit, Seek, Passed;
      ghost var start := View();
      NotPassedYet(cfg, start, key);
      for step := 0 to PROBES
        invariant Valid() && View() == start
        invariant Passed(cfg, start, key, step)
      {
        answer := Probe(Home(cfg, key, step), key, now);
        if answer.Some? {
          VisitDecides(cfg, start, key, now, step);
          ghost var d := Decide(cfg.limits, Known(cfg, start, key), now);
          KnownWhereTaken(cfg, start, key, d.client);
          if Placed(cfg, start) {
            TakeSlot(cfg, start, key, d.client);
          }
          return;
        }
        VisitPasses(cfg, start, key, now, step);
        assert View() == start;
      }
      AllPassed(cfg, start, key);
      return None;
    }

    /** Look at the next slot, and clear it if everything in it has aged out.  A
        slot whose shard is `busy` is left for a later pass. */
    method SweepStep(now: real, busy: bool) returns (cleared: bool)
      requires Valid()
      modifies this`sweepCursor, heads
      ensures Valid()
      ensures sweepCursor == (if old(sweepCursor) + 1 == cfg.slots then 0 else old(sweepCursor) + 1)
      ensures cleared <==> !busy && Stale(cfg.limits, old(View())[old(sweepCursor)], now)
      ensures View() == if cleared then old(View())[old(sweepCursor) := Free] else old(View())
    {
      hide Ring;
      var i := sweepCursor;
      sweepCursor := if i + 1 == cfg.slots then 0 else i + 1;
      if busy {
        return false;
      }
      var h := heads[i];
      if h.owner.None? || (h.banUntil != 0.0 && h.banUntil > now) {
        return false;
      }
      if h.count > 0 {
        var last := stamps[i, Turn(h.oldest + h.count - 1, stamps.Length1)];
        assert last == Ring(Row(i), h.oldest, h.count)[h.count - 1];
        if last > now - cfg.limits.window {
          return false;
        }
      }
      heads[i] := EMPTY;
      assert View() == old(View())[i := Free];
      return true;
    }
  }
}
