/** Picking a content coding for Accept-Encoding, section 12.5.3 of RFC 9110. */
module Negotiation {
  import opened Wrappers
  import opened Bytes

  /** A member of Accept-Encoding: its token in lower case and its weight. */
  type Entry = (bytes, real)

  const STAR: bytes := [42]

  function Max(a: real, b: real): real {
    if a < b then b else a
  }

  /** The greatest weight that is given to a token. */
  function Best(entries: seq<Entry>, token: bytes): (r: Option<real>)
    ensures r.Some? ==> (token, r.value) in entries
    ensures forall q :: (token, q) in entries ==> r.Some? && q <= r.value
  {
    if entries == [] then None
    else
      var last, before := entries[|entries| - 1], Best(entries[..|entries| - 1], token);
      if last.0 != token then before
      else Some(if before.Some? then Max(before.value, last.1) else last.1)
  }

  /** The weight of a coding: its own entries count, or else the wildcard. */
  function Weight(entries: seq<Entry>, coding: bytes): Option<real> {
    var own := if coding == STAR then None else Best(entries, coding);
    if own.Some? then own else Best(entries, STAR)
  }

  predicate Acceptable(entries: seq<Entry>, coding: bytes) {
    var w := Weight(entries, coding);
    w.Some? && w.value > 0.0
  }

  /** The place of a coding in the server's order; a repeated one counts as its last. */
  function Place(supported: seq<bytes>, coding: bytes): (i: nat)
    requires coding in supported
    ensures i < |supported| && supported[i] == coding
    ensures forall k :: i < k < |supported| ==> supported[k] != coding
  {
    if supported[|supported| - 1] == coding then |supported| - 1 else Place(supported[..|supported| - 1], coding)
  }

  /** `a` is preferred to `b`: a greater weight, or the same and earlier in the server's order. */
  predicate Preferred(entries: seq<Entry>, supported: seq<bytes>, a: bytes, b: bytes)
    requires a in supported && b in supported && Acceptable(entries, a) && Acceptable(entries, b)
  {
    var p, q := Weight(entries, a).value, Weight(entries, b).value;
    p > q || (p == q && Place(supported, a) <= Place(supported, b))
  }

  /** The best of the acceptable codings, and none only if there is none. */
  ghost predicate Chosen(entries: seq<Entry>, supported: seq<bytes>, r: Option<bytes>) {
    match r
    case None => forall c :: c in supported ==> !Acceptable(entries, c)
    case Some(a) =>
      && a in supported && Acceptable(entries, a)
      && forall c :: c in supported && Acceptable(entries, c) ==> Preferred(entries, supported, a, c)
  }

  lemma SameBest(a: seq<Entry>, b: seq<Entry>, token: bytes)
    requires forall e :: e in a <==> e in b
    ensures Best(a, token) == Best(b, token)
  {
    var p, q := Best(a, token), Best(b, token);
    if p.Some? {
      assert (token, p.value) in b;
    }
    if q.Some? {
      assert (token, q.value) in a;
    }
  }

  /** The choice is determined by the entries alone, in whatever order they come, and
      repeating one of them makes no difference. */
  lemma OrderDoesNotMatter(a: seq<Entry>, b: seq<Entry>, supported: seq<bytes>, r: Option<bytes>, s: Option<bytes>)
    requires forall e :: e in a <==> e in b
    requires Chosen(a, supported, r) && Chosen(b, supported, s)
    ensures r == s
  {
    forall c ensures Weight(a, c) == Weight(b, c) {
      SameBest(a, b, c);
      SameBest(a, b, STAR);
    }
    if r.Some? && s.Some? {
      assert Preferred(a, supported, r.value, s.value) && Preferred(b, supported, s.value, r.value);
    }
  }

  lemma PermutationsChooseAlike(a: seq<Entry>, b: seq<Entry>, supported: seq<bytes>, r: Option<bytes>, s: Option<bytes>)
    requires multiset(a) == multiset(b)
    requires Chosen(a, supported, r) && Chosen(b, supported, s)
    ensures r == s
  {
    forall e ensures e in a <==> e in b {
      assert e in a <==> e in multiset(a);
      assert e in b <==> e in multiset(b);
    }
    OrderDoesNotMatter(a, b, supported, r, s);
  }

  // ----- The choice, from the entries alone ----------------------------------------------------

  /** `q` is the greatest of the weights that are given to a token. */
  ghost predicate Greatest(entries: seq<Entry>, token: bytes, q: real) {
    (token, q) in entries && forall p :: (token, p) in entries ==> p <= q
  }

  ghost predicate Named(entries: seq<Entry>, token: bytes) {
    exists e :: e in entries && e.0 == token
  }

  /** What a coding weighs: the greatest weight it is given by name, and only if it is not
      named, the greatest weight of the wildcard. */
  ghost predicate Weighs(entries: seq<Entry>, coding: bytes, q: real) {
    if Named(entries, coding) then Greatest(entries, coding, q) else Greatest(entries, STAR, q)
  }

  lemma BestIsGreatest(entries: seq<Entry>, token: bytes, q: real)
    ensures Best(entries, token) == Some(q) <==> Greatest(entries, token, q)
    ensures Best(entries, token).Some? <==> Named(entries, token)
  {
    if Best(entries, token).Some? {
      assert (token, Best(entries, token).value) in entries;
    }
    forall e | e in entries && e.0 == token ensures (token, e.1) in entries {
      assert e == (token, e.1);
    }
  }

  lemma WeightIsWeighed(entries: seq<Entry>, coding: bytes, q: real)
    ensures Weight(entries, coding) == Some(q) <==> Weighs(entries, coding, q)
  {
    BestIsGreatest(entries, coding, q);
    BestIsGreatest(entries, STAR, q);
  }

  /** The coding stands last at this place of the server's list. */
  ghost predicate LastAt(supported: seq<bytes>, coding: bytes, i: nat) {
    i < |supported| && supported[i] == coding && coding !in supported[i + 1..]
  }

  /** The choice is a supported coding of positive weight; every other one weighs less, or
      as much and stands later in the server's list; and there is no choice only if no
      supported coding has a positive weight. */
  ghost predicate Right(entries: seq<Entry>, supported: seq<bytes>, r: Option<bytes>) {
    match r
    case None => forall c, q :: c in supported && Weighs(entries, c, q) ==> q <= 0.0
    case Some(a) =>
      a in supported && exists p :: p > 0.0 && Weighs(entries, a, p) && Leads(entries, supported, a, p)
  }

  ghost predicate Leads(entries: seq<Entry>, supported: seq<bytes>, a: bytes, p: real) {
    forall c, q :: c in supported && Weighs(entries, c, q) ==>
      q <= p && (q == p ==> exists i, j :: i <= j && LastAt(supported, a, i) && LastAt(supported, c, j))
  }

  lemma PlaceIsLast(supported: seq<bytes>, coding: bytes, i: nat)
    requires coding in supported
    ensures LastAt(supported, coding, i) <==> i == Place(supported, coding)
  {
    var k := Place(supported, coding);
    if i < k {
      assert supported[i + 1..][k - i - 1] == supported[k];
    }
  }

  lemma ChosenIsRight(entries: seq<Entry>, supported: seq<bytes>, r: Option<bytes>)
    requires Chosen(entries, supported, r)
    ensures Right(entries, supported, r)
  {
    forall c, q ensures Weight(entries, c) == Some(q) <==> Weighs(entries, c, q) {
      WeightIsWeighed(entries, c, q);
    }
    hide Weight, Weighs, LastAt;
    if r.Some? {
      var a := r.value;
      var p := Weight(entries, a).value;
      assert p > 0.0 && Weighs(entries, a, p);
      forall c, q | c in supported && Weighs(entries, c, q)
        ensures q <= p && (q == p ==> exists i, j :: i <= j && LastAt(supported, a, i) && LastAt(supported, c, j))
      {
        assert Weight(entries, c) == Some(q);
        PlaceIsLast(supported, a, Place(supported, a));
        PlaceIsLast(supported, c, Place(supported, c));
        if q > 0.0 {
          assert Preferred(entries, supported, a, c);
        }
      }
      assert Leads(entries, supported, a, p);
    }
  }

  // ----- The selection itself -----------------------------------------------------------------

  /** What the first pass over the entries gathers. */
  ghost predicate Gathered(entries: seq<Entry>, supported: seq<bytes>, best: map<bytes, (real, nat)>, wildcard: Option<real>) {
    && wildcard == Best(entries, STAR)
    && (forall c :: c in best <==> (c in supported && c != STAR && Best(entries, c).Some?))
    && (forall c :: c in best ==> best[c].0 == Best(entries, c).value)
  }

  method Gather(entries: seq<Entry>, supported: seq<bytes>) returns (best: map<bytes, (real, nat)>, wildcard: Option<real>)
    ensures Gathered(entries, supported, best, wildcard)
  {
    best, wildcard := map[], None;
    for index := 0 to |entries|
      invariant Gathered(entries[..index], supported, best, wildcard)
    {
      var (token, quality) := entries[index];
      assert entries[..index + 1][..index] == entries[..index];
      if token == STAR {
        wildcard := Some(if wildcard.None? then quality else Max(wildcard.value, quality));
      } else if token in supported {
        if token !in best || quality > best[token].0 {
          best := best[token := (quality, index)];
        }
      }
    }
    assert entries[..|entries|] == entries;
  }

  /** Fills in the wildcard for every coding that has no weight of its own. */
  method FillIn(entries: seq<Entry>, supported: seq<bytes>, gathered: map<bytes, (real, nat)>, wildcard: Option<real>)
    returns (best: map<bytes, (real, nat)>)
    requires Gathered(entries, supported, gathered, wildcard)
    ensures forall c :: c in best <==> (c in supported && Weight(entries, c).Some?)
    ensures forall c :: c in best ==> best[c].0 == Weight(entries, c).value
  {
    best := gathered;
    if wildcard.Some? {
      for k := 0 to |supported|
        invariant forall c :: c in best <==> (c in gathered || c in supported[..k])
        invariant forall c :: c in best ==> best[c].0 == Weight(entries, c).value
      {
        if supported[k] !in best {
          best := best[supported[k] := (wildcard.value, |entries|)];
        }
      }
      assert supported[..|supported|] == supported;
    }
  }

  /** Comes first when the candidates are sorted: greater weight, then the server's
      order, then the order of the entries. */
  predicate Before(a: (real, nat), placeA: nat, b: (real, nat), placeB: nat) {
    a.0 > b.0 || (a.0 == b.0 && (placeA < placeB || (placeA == placeB && a.1 < b.1)))
  }

  /** The first of the candidates of positive weight. */
  method Select(entries: seq<Entry>, supported: seq<bytes>, best: map<bytes, (real, nat)>) returns (r: Option<bytes>)
    requires forall c :: c in best <==> (c in supported && Weight(entries, c).Some?)
    requires forall c :: c in best ==> best[c].0 == Weight(entries, c).value
    ensures r.Some? ==> r.value in best && best[r.value].0 > 0.0
    ensures forall c :: c in best && best[c].0 > 0.0 ==> r.Some? && Preferred(entries, supported, r.value, c)
  {
    var rest := best.Keys;
    r := None;
    while rest != {}
      invariant rest <= best.Keys
      invariant r.Some? ==> r.value in best && best[r.value].0 > 0.0
      invariant forall c :: c in best && c !in rest && best[c].0 > 0.0 ==> r.Some? && Preferred(entries, supported, r.value, c)
      decreases |rest|
    {
      var c :| c in rest;
      rest := rest - {c};
      if best[c].0 > 0.0 && (r.None? || Before(best[c], Place(supported, c), best[r.value], Place(supported, r.value))) {
        r := Some(c);
      }
    }
  }

  /** The selection is the best of the acceptable codings. */
  method Negotiate(entries: seq<Entry>, supported: seq<bytes>) returns (r: Option<bytes>)
    ensures Chosen(entries, supported, r) && Right(entries, supported, r)
  {
    if entries == [] {
      return None;
    }
    var gathered, wildcard := Gather(entries, supported);
    var best := FillIn(entries, supported, gathered, wildcard);
    r := Select(entries, supported, best);
    ChosenIsRight(entries, supported, r);
  }
}
