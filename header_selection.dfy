/**
 * What updateSelectedHeaderIndices does to the list of selected column indices, as values: one
 * step per flag position, and the closed form of the whole pass (the entries that stay, in their
 * order, followed by the newly selected positions in increasing order).
 */
module HeaderSelection {
  import opened Sequences

  /** Position `i`'s step: append it when selected and absent, remove its first copy when deselected. */
  function SyncStep(selected: seq<bool>, indices: seq<int>, i: nat): (r: seq<int>)
    requires i < |selected|
  {
    if selected[i] && i !in indices then indices + [i]
    else if !selected[i] && i in indices then RemoveFirst(indices, i)
    else indices
  }

  /** The index list after the loop has handled positions 0 .. n-1. */
  function SyncUpTo(selected: seq<bool>, indices: seq<int>, n: nat): seq<int>
    requires n <= |selected|
  {
    if n == 0 then indices else SyncStep(selected, SyncUpTo(selected, indices, n - 1), n - 1)
  }

  /** The index list after the whole pass. */
  function Synced(selected: seq<bool>, indices: seq<int>): seq<int> {
    SyncUpTo(selected, indices, |selected|)
  }

  /** Entry `x` is dropped once the pass has reached beyond it and found its flag false. */
  predicate Dropped(x: int, selected: seq<bool>, n: nat) {
    0 <= x < n && x < |selected| && !selected[x]
  }

  /** The entries of `indices` that survive positions 0 .. n-1, in their original order. */
  function Kept(indices: seq<int>, selected: seq<bool>, n: nat): (r: seq<int>)
    ensures |r| <= |indices|
  {
    if indices == [] then []
    else
      var x := indices[|indices| - 1];
      Kept(indices[..|indices| - 1], selected, n) + (if Dropped(x, selected, n) then [] else [x])
  }

  /** The positions below `n` that are selected and were not listed, in increasing order. */
  function NewlySelected(selected: seq<bool>, indices: seq<int>, n: nat): (r: seq<int>)
    requires n <= |selected|
    ensures forall k :: 0 <= k < |r| ==> 0 <= r[k] < n
  {
    if n == 0 then []
    else
      NewlySelected(selected, indices, n - 1)
        + (if selected[n - 1] && n - 1 !in indices then [n - 1] else [])
  }

  lemma {:induction false} KeptMembers(indices: seq<int>, selected: seq<bool>, n: nat)
    ensures forall x :: x in Kept(indices, selected, n) <==> x in indices && !Dropped(x, selected, n)
  {
    if indices != [] {
      var p := indices[..|indices| - 1];
      KeptMembers(p, selected, n);
      assert indices == p + [indices[|indices| - 1]];
    }
  }

  lemma LastNotInFront(s: seq<int>)
    requires s != [] && NoDuplicates(s)
    ensures s[|s| - 1] !in s[..|s| - 1]
  {
  }

  lemma {:induction false} KeptNoDuplicates(indices: seq<int>, selected: seq<bool>, n: nat)
    requires NoDuplicates(indices)
    ensures NoDuplicates(Kept(indices, selected, n))
  {
    if indices != [] {
      var p := indices[..|indices| - 1];
      var x := indices[|indices| - 1];
      assert NoDuplicates(p);
      KeptNoDuplicates(p, selected, n);
      KeptMembers(p, selected, n);
      LastNotInFront(indices);
      NoDuplicatesAppend(Kept(p, selected, n), if Dropped(x, selected, n) then [] else [x]);
    }
  }

  lemma {:induction false} NewlySelectedMembers(selected: seq<bool>, indices: seq<int>, n: nat)
    requires n <= |selected|
    ensures forall x :: x in NewlySelected(selected, indices, n) <==>
      0 <= x < n && selected[x] && x !in indices
  {
    if n > 0 {
      NewlySelectedMembers(selected, indices, n - 1);
    }
  }

  lemma {:induction false} NewlySelectedNoDuplicates(selected: seq<bool>, indices: seq<int>, n: nat)
    requires n <= |selected|
    ensures NoDuplicates(NewlySelected(selected, indices, n))
  {
    if n > 0 {
      NewlySelectedNoDuplicates(selected, indices, n - 1);
      NoDuplicatesAppend(NewlySelected(selected, indices, n - 1),
                         if selected[n - 1] && n - 1 !in indices then [n - 1] else []);
    }
  }

  /** A position nobody lists leaves the surviving entries alone. */
  lemma {:induction false} KeptUnlisted(indices: seq<int>, selected: seq<bool>, n: nat)
    requires n < |selected| && n !in indices
    ensures Kept(indices, selected, n + 1) == Kept(indices, selected, n)
  {
    if indices != [] {
      KeptUnlisted(indices[..|indices| - 1], selected, n);
    }
  }

  /** A selected position is never dropped, so the surviving entries stay the same. */
  lemma {:induction false} KeptSelected(indices: seq<int>, selected: seq<bool>, n: nat)
    requires n < |selected| && selected[n]
    ensures Kept(indices, selected, n + 1) == Kept(indices, selected, n)
  {
    if indices != [] {
      KeptSelected(indices[..|indices| - 1], selected, n);
    }
  }

  lemma RemoveFirstLast(a: seq<int>, x: int)
    requires x !in a
    ensures RemoveFirst(a + [x], x) == a
  {
    assert FirstIndexOf(a + [x], x) == |a|;
  }

  /**
   * A deselected position that is listed once: dropping it from the surviving entries is removing
   * its first copy.
   */
  lemma {:induction false} KeptDeselected(indices: seq<int>, selected: seq<bool>, n: nat)
    requires n < |selected| && !selected[n] && n in indices && NoDuplicates(indices)
    ensures Kept(indices, selected, n + 1) == RemoveFirst(Kept(indices, selected, n), n)
  {
    var p := indices[..|indices| - 1];
    var y := indices[|indices| - 1];
    assert NoDuplicates(p);
    assert indices == p + [y];
    KeptMembers(p, selected, n);
    if y == n {
      LastNotInFront(indices);
      KeptUnlisted(p, selected, n);
      RemoveFirstLast(Kept(p, selected, n), n);
    } else {
      assert n in p;
      KeptDeselected(p, selected, n);
      RemoveFirstAppend(Kept(p, selected, n), if Dropped(y, selected, n) then [] else [y], n);
    }
  }

  /** Position m is listed in the closed form for 0 .. m-1 iff it was listed to begin with. */
  lemma ListedBeforeStep(selected: seq<bool>, indices: seq<int>, m: nat)
    requires m < |selected|
    ensures m in Kept(indices, selected, m) + NewlySelected(selected, indices, m) <==> m in indices
  {
    KeptMembers(indices, selected, m);
    NewlySelectedMembers(selected, indices, m);
  }

  lemma StepSelected(selected: seq<bool>, indices: seq<int>, m: nat)
    requires m < |selected| && selected[m]
    ensures SyncStep(selected, Kept(indices, selected, m) + NewlySelected(selected, indices, m), m)
         == Kept(indices, selected, m + 1) + NewlySelected(selected, indices, m + 1)
  {
    ListedBeforeStep(selected, indices, m);
    KeptSelected(indices, selected, m);
  }

  lemma StepDeselectedListed(selected: seq<bool>, indices: seq<int>, m: nat)
    requires m < |selected| && !selected[m] && m in indices && NoDuplicates(indices)
    ensures SyncStep(selected, Kept(indices, selected, m) + NewlySelected(selected, indices, m), m)
         == Kept(indices, selected, m + 1) + NewlySelected(selected, indices, m + 1)
  {
    var kept := Kept(indices, selected, m);
    var added := NewlySelected(selected, indices, m);
    ListedBeforeStep(selected, indices, m);
    KeptMembers(indices, selected, m);
    assert m in kept;
    KeptDeselected(indices, selected, m);
    RemoveFirstAppend(kept, added, m);
    assert NewlySelected(selected, indices, m + 1) == added;
  }

  lemma StepDeselectedUnlisted(selected: seq<bool>, indices: seq<int>, m: nat)
    requires m < |selected| && !selected[m] && m !in indices
    ensures SyncStep(selected, Kept(indices, selected, m) + NewlySelected(selected, indices, m), m)
         == Kept(indices, selected, m + 1) + NewlySelected(selected, indices, m + 1)
  {
    ListedBeforeStep(selected, indices, m);
    KeptUnlisted(indices, selected, m);
  }

  /** One step of the pass keeps the closed form. */
  lemma SyncStepKeptThenNew(selected: seq<bool>, indices: seq<int>, m: nat)
    requires m < |selected| && NoDuplicates(indices)
    ensures SyncStep(selected, KeptThenNew(selected, indices, m), m) == KeptThenNew(selected, indices, m + 1)
  {
    if selected[m] {
      StepSelected(selected, indices, m);
    } else if m in indices {
      StepDeselectedListed(selected, indices, m);
    } else {
      StepDeselectedUnlisted(selected, indices, m);
    }
  }

  /** The closed form: the surviving entries in their order, then the newly selected positions. */
  function KeptThenNew(selected: seq<bool>, indices: seq<int>, n: nat): seq<int>
    requires n <= |selected|
  {
    Kept(indices, selected, n) + NewlySelected(selected, indices, n)
  }

  /** Before any position is handled the closed form is the list itself. */
  lemma KeptThenNewNone(selected: seq<bool>, indices: seq<int>)
    ensures KeptThenNew(selected, indices, 0) == indices
  {
    KeptNone(indices, selected);
    assert indices + [] == indices;
  }

  /**
   * The closed form of the pass over positions 0 .. n-1 on a duplicate-free list: the surviving
   * entries in their order, then the newly selected positions in increasing order.
   */
  lemma {:induction false} SyncUpToIsKeptThenNew(selected: seq<bool>, indices: seq<int>, n: nat)
    requires n <= |selected| && NoDuplicates(indices)
    ensures SyncUpTo(selected, indices, n) == KeptThenNew(selected, indices, n)
  {
    if n == 0 {
      KeptThenNewNone(selected, indices);
    } else {
      SyncUpToIsKeptThenNew(selected, indices, n - 1);
      SyncUpToStep(selected, indices, n);
    }
  }

  /** The induction step: if the closed form holds for n-1 positions it holds for n. */
  lemma SyncUpToStep(selected: seq<bool>, indices: seq<int>, n: nat)
    requires 0 < n <= |selected| && NoDuplicates(indices)
    requires SyncUpTo(selected, indices, n - 1) == KeptThenNew(selected, indices, n - 1)
    ensures SyncUpTo(selected, indices, n) == KeptThenNew(selected, indices, n)
  {
    SyncStepKeptThenNew(selected, indices, n - 1);
  }

  lemma {:induction false} KeptNone(indices: seq<int>, selected: seq<bool>)
    ensures Kept(indices, selected, 0) == indices
  {
    if indices != [] {
      KeptNone(indices[..|indices| - 1], selected);
    }
  }

  /**
   * On a duplicate-free list, after the pass: position i < |selected| is listed iff its flag is
   * set, entries outside the flag range are listed exactly as before, and no entry is repeated.
   */
  lemma SyncedIsConsistent(selected: seq<bool>, indices: seq<int>)
    requires NoDuplicates(indices)
    ensures forall i :: 0 <= i < |selected| ==> (i in Synced(selected, indices) <==> selected[i])
    ensures forall x :: !(0 <= x < |selected|) ==> (x in Synced(selected, indices) <==> x in indices)
    ensures NoDuplicates(Synced(selected, indices))
  {
    var n := |selected|;
    SyncUpToIsKeptThenNew(selected, indices, n);
    var kept := Kept(indices, selected, n);
    var added := NewlySelected(selected, indices, n);
    KeptMembers(indices, selected, n);
    NewlySelectedMembers(selected, indices, n);
    KeptNoDuplicates(indices, selected, n);
    NewlySelectedNoDuplicates(selected, indices, n);
    NoDuplicatesAppend(kept, added);
  }

  /** The documented example: from no indices, [false, true, false, false, true] gives [1, 4]. */
  lemma DocumentedExample()
    ensures Synced([false, true, false, false, true], []) == [1, 4]
  {
    var selected := [false, true, false, false, true];
    assert SyncUpTo(selected, [], 1) == [];
    assert SyncUpTo(selected, [], 2) == [1];
    assert SyncUpTo(selected, [], 3) == [1];
    assert SyncUpTo(selected, [], 4) == [1];
  }

  /**
   * With a repeated entry the pass removes one copy only, so a deselected position can stay
   * listed: [1, 1] against two cleared flags leaves [1].
   */
  lemma StaleDuplicate()
    ensures Synced([false, false], [1, 1]) == [1]
    ensures !NoDuplicates([1, 1])
  {
    assert SyncUpTo([false, false], [1, 1], 1) == [1, 1];
    assert FirstIndexOf([1, 1], 1) == 0;
    assert RemoveFirst([1, 1], 1) == [1];
    assert [1, 1][0] == [1, 1][1];
  }
}
