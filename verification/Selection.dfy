/** What it means that exactly certain elements of a sequence are kept, in order. */
module Selection {
  ghost predicate Increasing(at: seq<nat>) {
    forall i, j :: 0 <= i < j < |at| ==> at[i] < at[j]
  }

  /** Every position in `at` holds an element to keep. */
  ghost predicate Sound<T>(all: seq<T>, at: seq<nat>, keep: T -> bool) {
    forall i :: 0 <= i < |at| ==> at[i] < |all| && keep(all[at[i]])
  }

  /** Every element to keep is at one of the positions. */
  ghost predicate Exhaustive<T>(all: seq<T>, at: seq<nat>, keep: T -> bool) {
    forall j :: 0 <= j < |all| && keep(all[j]) ==> j in at
  }

  ghost predicate PickedAt<T>(all: seq<T>, at: seq<nat>, picked: seq<T>) {
    |at| == |picked| && forall i :: 0 <= i < |at| ==> at[i] < |all| && picked[i] == all[at[i]]
  }

  /** `picked` are the elements of `all` at an increasing list of positions, which are
      exactly the positions of the elements to keep. */
  ghost predicate Selects<T>(all: seq<T>, picked: seq<T>, keep: T -> bool) {
    exists at: seq<nat> :: Increasing(at) && Sound(all, at, keep) && Exhaustive(all, at, keep) && PickedAt(all, at, picked)
  }

  /** The elements to keep, one after the other. */
  ghost function Filtered<T>(all: seq<T>, keep: T -> bool): seq<T> {
    if all == [] then []
    else
      var front, last := Filtered(all[..|all| - 1], keep), all[|all| - 1];
      if keep(last) then front + [last] else front
  }

  lemma {:induction false} FilteredConcat<T>(a: seq<T>, b: seq<T>, keep: T -> bool)
    ensures Filtered(a + b, keep) == Filtered(a, keep) + Filtered(b, keep)
  {
    if b == [] {
      assert a + b == a && Filtered(a, keep) + [] == Filtered(a, keep);
    } else {
      assert (a + b)[..|a + b| - 1] == a + b[..|b| - 1];
      FilteredConcat(a, b[..|b| - 1], keep);
    }
  }

  lemma FilteredOne<T>(x: T, keep: T -> bool)
    ensures Filtered([x], keep) == if keep(x) then [x] else []
  {
    assert [x][..0] == [];
  }

  ghost function PositionsOf<T>(all: seq<T>, keep: T -> bool): (at: seq<nat>)
    ensures forall i :: 0 <= i < |at| ==> at[i] < |all|
  {
    if all == [] then []
    else
      var n := |all| - 1;
      var front := PositionsOf(all[..n], keep);
      if keep(all[n]) then front + [n] else front
  }

  lemma {:induction false} PositionsIncrease<T>(all: seq<T>, keep: T -> bool)
    ensures Increasing(PositionsOf(all, keep))
  {
    if all != [] {
      PositionsIncrease(all[..|all| - 1], keep);
    }
  }

  lemma {:induction false} PositionsAreSound<T>(all: seq<T>, keep: T -> bool)
    ensures Sound(all, PositionsOf(all, keep), keep) && PickedAt(all, PositionsOf(all, keep), Filtered(all, keep))
  {
    if all != [] {
      var front := all[..|all| - 1];
      PositionsAreSound(front, keep);
      assert forall j :: 0 <= j < |front| ==> front[j] == all[j];
    }
  }

  lemma {:induction false} PositionsAreComplete<T>(all: seq<T>, keep: T -> bool, j: nat)
    requires j < |all| && keep(all[j])
    ensures j in PositionsOf(all, keep)
  {
    if j < |all| - 1 {
      PositionsAreComplete(all[..|all| - 1], keep, j);
    }
  }

  lemma FilteredSelects<T>(all: seq<T>, keep: T -> bool)
    ensures Selects(all, Filtered(all, keep), keep)
  {
    PositionsIncrease(all, keep);
    PositionsAreSound(all, keep);
    forall j | 0 <= j < |all| && keep(all[j]) ensures j in PositionsOf(all, keep) {
      PositionsAreComplete(all, keep, j);
    }
    assert Exhaustive(all, PositionsOf(all, keep), keep);
  }
}
