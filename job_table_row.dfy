/** The state a combined row is in, and the combined row itself. */
module JobTableRows {
  import opened Sequences

  /** JobTableRowState::State; `Value` is the enumerator's integer value. */
  datatype RowState = Invalid | Added | Removed | Remained {
    function Value(): (v: int)
      ensures -1 <= v <= 2
      ensures v == -1 <==> this == Invalid
    {
      match this
      case Invalid => -1
      case Added => 0
      case Removed => 1
      case Remained => 2
    }
  }

  /** JobTableRow: a state together with the row's cells. */
  datatype JobTableRow = JobTableRow(state: RowState, columns: seq<string>)

  /** Every pair of rows is ordered by the states' enumerator values. */
  predicate SortedByState(rows: seq<JobTableRow>) {
    forall i, j :: 0 <= i < j < |rows| ==> rows[i].state.Value() <= rows[j].state.Value()
  }

  /** The number of rows whose state is `st`. */
  function CountState(rows: seq<JobTableRow>, st: RowState): (n: nat)
    ensures n <= |rows|
  {
    if rows == [] then 0
    else CountState(rows[..|rows| - 1], st) + (if rows[|rows| - 1].state == st then 1 else 0)
  }

  /** One more row adds one to the count of its own state and nothing to the others. */
  lemma CountStateSnoc(a: seq<JobTableRow>, r: JobTableRow, st: RowState)
    ensures CountState(a + [r], st) == CountState(a, st) + (if r.state == st then 1 else 0)
  {
    assert (a + [r])[..|a|] == a;
  }

  lemma {:induction false} CountStateAppend(a: seq<JobTableRow>, b: seq<JobTableRow>, st: RowState)
    ensures CountState(a + b, st) == CountState(a, st) + CountState(b, st)
  {
    if b != [] {
      assert (a + b)[..|a + b| - 1] == a + b[..|b| - 1];
      CountStateAppend(a, b[..|b| - 1], st);
    } else {
      assert a + b == a;
    }
  }

  lemma CountStateRemoveAt(b: seq<JobTableRow>, k: nat, st: RowState)
    requires k < |b|
    ensures CountState(b, st) == CountState(RemoveAt(b, k), st) + (if b[k].state == st then 1 else 0)
  {
    assert b == b[..k] + ([b[k]] + b[k + 1..]);
    CountStateAppend(b[..k], [b[k]] + b[k + 1..], st);
    CountStateAppend([b[k]], b[k + 1..], st);
    CountStateAppend(b[..k], b[k + 1..], st);
    assert [b[k]][..0] == [];
  }

  lemma MultisetRemoveAt(b: seq<JobTableRow>, k: nat)
    requires k < |b|
    ensures multiset(RemoveAt(b, k)) == multiset(b) - multiset{b[k]}
  {
    assert b == b[..k] + [b[k]] + b[k + 1..];
  }

  /** Counting by state depends only on the multiset of rows, so a sort does not change it. */
  lemma {:induction false} CountStateMultiset(a: seq<JobTableRow>, b: seq<JobTableRow>, st: RowState)
    requires multiset(a) == multiset(b)
    ensures CountState(a, st) == CountState(b, st)
    decreases |a|
  {
    if a == [] {
      assert b == [] by {
        assert |b| == |multiset(b)| == 0;
      }
    } else {
      var front := a[..|a| - 1];
      var last := a[|a| - 1];
      assert last in b by {
        assert last in multiset(a);
      }
      var k := FirstIndexOf(b, last);
      var rest := RemoveAt(b, k);
      MultisetRemoveAt(b, k);
      MultisetRemoveAt(a, |a| - 1);
      assert RemoveAt(a, |a| - 1) == front;
      assert multiset(front) == multiset(rest);
      CountStateMultiset(front, rest, st);
      CountStateRemoveAt(b, k, st);
    }
  }
}
