/**
 * What getCSVCombinedData computes, as values: the matching strategy, the Added/Remained pass
 * over the second document, the Removed pass over the first, and the properties of their
 * concatenation (counts, one record per second-document row, self-comparison, swapping).
 */
module Reconciliation {
  import opened JobTableRows
  import opened CsvDocuments
  import opened CsvHandling

  /** CombineCSVDocumentsError: the only two ways a combination fails. */
  datatype CombineError = DifferentFormat | BothEmpty

  /** How rows are matched: by the cell at one job-number column, or by their sets of cells. */
  datatype Strategy = ByJobNumber(index: nat) | ByCellSet

  /** Key matching iff both documents have the same single job-number column. */
  function MatchingStrategy(first: CsvDocument, second: CsvDocument): (s: Strategy)
    ensures s.ByJobNumber? <==>
      SingleJobNumberColumnIndex(first) != -1 && SingleJobNumberColumnIndex(first) == SingleJobNumberColumnIndex(second)
    ensures s.ByJobNumber? ==>
      && s.index == SingleJobNumberColumnIndex(first)
      && first.RowCount() > 0 && s.index < |first.data[0]|
      && second.RowCount() > 0 && s.index < |second.data[0]|
  {
    var firstIndex := SingleJobNumberColumnIndex(first);
    var secondIndex := SingleJobNumberColumnIndex(second);
    if firstIndex == -1 || secondIndex == -1 || firstIndex != secondIndex then ByCellSet
    else ByJobNumber(firstIndex)
  }

  lemma MatchingStrategySymmetric(first: CsvDocument, second: CsvDocument)
    ensures MatchingStrategy(first, second) == MatchingStrategy(second, first)
  {
  }

  /** The documents get past both error checks. */
  predicate Comparable(first: CsvDocument, second: CsvDocument) {
    !(first.IsEmpty() && second.IsEmpty()) && first.ColumnCount() == second.ColumnCount()
  }

  /** Under key matching, every data row of both documents has the key cell. */
  predicate KeyCellsReadable(first: CsvDocument, second: CsvDocument) {
    var s := MatchingStrategy(first, second);
    s.ByJobNumber? ==> KeyCellsPresent(first, s.index) && KeyCellsPresent(second, s.index)
  }

  /** `row` can be looked up in `doc` with strategy `s` without reading a missing cell. */
  predicate Searchable(row: seq<string>, doc: CsvDocument, s: Strategy) {
    s.ByJobNumber? ==> doc.RowCount() > 0 && KeyCellsPresent(doc, s.index) && s.index < |row|
  }

  predicate AllSearchable(rows: seq<seq<string>>, doc: CsvDocument, s: Strategy) {
    forall k :: 0 <= k < |rows| ==> Searchable(rows[k], doc, s)
  }

  /** Whether `row` has a matching row in `doc` under strategy `s`. */
  function RowExists(row: seq<string>, doc: CsvDocument, s: Strategy): bool
    requires Searchable(row, doc, s)
  {
    match s
    case ByCellSet => RowExistsByCellSet(row, doc)
    case ByJobNumber(i) => RowExistsByJobNumber(row, doc, i)
  }

  /** The number of `rows` that have no match in `doc`. */
  function Unmatched(rows: seq<seq<string>>, doc: CsvDocument, s: Strategy): (n: nat)
    requires AllSearchable(rows, doc, s)
    ensures n <= |rows|
  {
    if rows == [] then 0
    else Unmatched(rows[..|rows| - 1], doc, s) + (if RowExists(rows[|rows| - 1], doc, s) then 0 else 1)
  }

  /**
   * The first loop: one record per row of the second document, in order, with the row's cells
   * unchanged; Added when the row has no match in the first document, Remained otherwise.
   */
  function AddedOrRemained(rows: seq<seq<string>>, first: CsvDocument, s: Strategy): (records: seq<JobTableRow>)
    requires AllSearchable(rows, first, s)
    ensures |records| == |rows|
  {
    if rows == [] then []
    else
      AddedOrRemained(rows[..|rows| - 1], first, s)
        + [JobTableRow(if RowExists(rows[|rows| - 1], first, s) then Remained else Added, rows[|rows| - 1])]
  }

  /**
   * Record k of the first loop carries row k's cells, and it is Added exactly when row k has no
   * match; otherwise it is Remained.
   */
  lemma {:induction false} AddedOrRemainedRecords(rows: seq<seq<string>>, first: CsvDocument, s: Strategy)
    requires AllSearchable(rows, first, s)
    ensures forall k :: 0 <= k < |rows| ==>
      && AddedOrRemained(rows, first, s)[k].columns == rows[k]
      && (AddedOrRemained(rows, first, s)[k].state == Added || AddedOrRemained(rows, first, s)[k].state == Remained)
      && (AddedOrRemained(rows, first, s)[k].state == Added <==> !RowExists(rows[k], first, s))
  {
    if rows != [] {
      var prefix := rows[..|rows| - 1];
      assert AllSearchable(prefix, first, s);
      AddedOrRemainedRecords(prefix, first, s);
    }
  }

  /** The first loop's counter equals the number of Added records, and no record is Removed. */
  lemma {:induction false} AddedOrRemainedCounts(rows: seq<seq<string>>, first: CsvDocument, s: Strategy)
    requires AllSearchable(rows, first, s)
    ensures CountState(AddedOrRemained(rows, first, s), Added) == Unmatched(rows, first, s)
    ensures CountState(AddedOrRemained(rows, first, s), Remained) == |rows| - Unmatched(rows, first, s)
    ensures CountState(AddedOrRemained(rows, first, s), Removed) == 0
    ensures CountState(AddedOrRemained(rows, first, s), Invalid) == 0
  {
    if rows != [] {
      var prefix := rows[..|rows| - 1];
      var last := rows[|rows| - 1];
      assert AllSearchable(prefix, first, s);
      AddedOrRemainedCounts(prefix, first, s);
      var record := JobTableRow(if RowExists(last, first, s) then Remained else Added, last);
      assert AddedOrRemained(rows, first, s) == AddedOrRemained(prefix, first, s) + [record];
      forall st {
        CountStateSnoc(AddedOrRemained(prefix, first, s), record, st);
      }
    }
  }

  /** Handling one more row of the first loop appends that row's record and may count it. */
  lemma AddedOrRemainedPrefix(rows: seq<seq<string>>, first: CsvDocument, s: Strategy, i: nat)
    requires AllSearchable(rows, first, s) && i < |rows|
    ensures AddedOrRemained(rows[..i + 1], first, s)
         == AddedOrRemained(rows[..i], first, s)
            + [JobTableRow(if RowExists(rows[i], first, s) then Remained else Added, rows[i])]
    ensures Unmatched(rows[..i + 1], first, s)
         == Unmatched(rows[..i], first, s) + (if RowExists(rows[i], first, s) then 0 else 1)
  {
    assert rows[..i + 1][..i] == rows[..i];
  }

  /**
   * The second loop: a Removed record for each row of the first document that has no match in the
   * second, in order; matched rows give nothing.
   */
  function RemovedRecords(rows: seq<seq<string>>, second: CsvDocument, s: Strategy): (records: seq<JobTableRow>)
    requires AllSearchable(rows, second, s)
    ensures |records| == Unmatched(rows, second, s)
    ensures forall k :: 0 <= k < |records| ==> records[k].state == Removed
  {
    if rows == [] then []
    else if RowExists(rows[|rows| - 1], second, s) then RemovedRecords(rows[..|rows| - 1], second, s)
    else RemovedRecords(rows[..|rows| - 1], second, s) + [JobTableRow(Removed, rows[|rows| - 1])]
  }

  /** Handling one more row of the second loop appends a Removed record iff it has no match. */
  lemma RemovedRecordsPrefix(rows: seq<seq<string>>, second: CsvDocument, s: Strategy, i: nat)
    requires AllSearchable(rows, second, s) && i < |rows|
    ensures RemovedRecords(rows[..i + 1], second, s)
         == RemovedRecords(rows[..i], second, s)
            + (if RowExists(rows[i], second, s) then [] else [JobTableRow(Removed, rows[i])])
    ensures Unmatched(rows[..i + 1], second, s)
         == Unmatched(rows[..i], second, s) + (if RowExists(rows[i], second, s) then 0 else 1)
  {
    assert rows[..i + 1][..i] == rows[..i];
  }

  /**
   * At most one Removed record per first-document row: the records are exactly the unmatched rows,
   * each once, with their cells copied.
   */
  lemma {:induction false} RemovedRecordsAreUnmatchedRows(rows: seq<seq<string>>, second: CsvDocument, s: Strategy)
    requires AllSearchable(rows, second, s)
    ensures |RemovedRecords(rows, second, s)| <= |rows|
    ensures forall r :: r in RemovedRecords(rows, second, s) ==>
      r.state == Removed && exists j :: 0 <= j < |rows| && r.columns == rows[j] && !RowExists(rows[j], second, s)
    ensures forall j :: 0 <= j < |rows| && !RowExists(rows[j], second, s) ==>
      JobTableRow(Removed, rows[j]) in RemovedRecords(rows, second, s)
  {
    if rows != [] {
      var n := |rows| - 1;
      var prefix := rows[..n];
      RemovedRecordsAreUnmatchedRows(prefix, second, s);
      assert forall j :: 0 <= j < n ==> prefix[j] == rows[j];
      forall r | r in RemovedRecords(rows, second, s)
        ensures exists j :: 0 <= j < |rows| && r.columns == rows[j] && !RowExists(rows[j], second, s)
      {
        if r !in RemovedRecords(prefix, second, s) {
          assert r.columns == rows[n];
        }
      }
    }
  }

  lemma AllSearchableFromKeyCells(first: CsvDocument, second: CsvDocument)
    requires KeyCellsReadable(first, second)
    ensures AllSearchable(second.data, first, MatchingStrategy(first, second))
    ensures AllSearchable(first.data, second, MatchingStrategy(first, second))
  {
  }

  /** The records before the sort: the Added/Remained records, then the Removed ones. */
  function Accumulated(first: CsvDocument, second: CsvDocument): (records: seq<JobTableRow>)
    requires KeyCellsReadable(first, second)
  {
    var s := MatchingStrategy(first, second);
    AllSearchableFromKeyCells(first, second);
    AddedOrRemained(second.data, first, s) + RemovedRecords(first.data, second, s)
  }

  /** The number of Added records the engine reports: second-document rows without a match. */
  function AddedCount(first: CsvDocument, second: CsvDocument): nat
    requires KeyCellsReadable(first, second)
  {
    AllSearchableFromKeyCells(first, second);
    Unmatched(second.data, first, MatchingStrategy(first, second))
  }

  /** The number of Removed records the engine reports: first-document rows without a match. */
  function RemovedCount(first: CsvDocument, second: CsvDocument): nat
    requires KeyCellsReadable(first, second)
  {
    AllSearchableFromKeyCells(first, second);
    Unmatched(first.data, second, MatchingStrategy(first, second))
  }

  lemma CountStateAllSame(records: seq<JobTableRow>, st: RowState)
    requires forall k :: 0 <= k < |records| ==> records[k].state == st
    ensures CountState(records, st) == |records|
    ensures forall other :: other != st ==> CountState(records, other) == 0
  {
    if records != [] {
      CountStateAllSame(records[..|records| - 1], st);
    }
  }

  lemma CountStatesSum(records: seq<JobTableRow>)
    ensures CountState(records, Invalid) + CountState(records, Added)
          + CountState(records, Removed) + CountState(records, Remained) == |records|
  {
    if records != [] {
      CountStatesSum(records[..|records| - 1]);
    }
  }

  /**
   * The counters equal the number of Added and of Removed records; every record is Added, Removed
   * or Remained; there is one record per second-document row plus one per removed row.
   */
  lemma AccumulatedCounts(first: CsvDocument, second: CsvDocument)
    requires KeyCellsReadable(first, second)
    ensures CountState(Accumulated(first, second), Added) == AddedCount(first, second)
    ensures CountState(Accumulated(first, second), Removed) == RemovedCount(first, second)
    ensures CountState(Accumulated(first, second), Invalid) == 0
    ensures CountState(Accumulated(first, second), Remained) == second.RowCount() - AddedCount(first, second)
    ensures |Accumulated(first, second)| == second.RowCount() + RemovedCount(first, second)
    ensures AddedCount(first, second) + RemovedCount(first, second) <= |Accumulated(first, second)|
  {
    var s := MatchingStrategy(first, second);
    AllSearchableFromKeyCells(first, second);
    var front := AddedOrRemained(second.data, first, s);
    var back := RemovedRecords(first.data, second, s);
    AddedOrRemainedCounts(second.data, first, s);
    CountStateAllSame(back, Removed);
    CountStatesSum(front + back);
    forall st {
      CountStateAppend(front, back, st);
    }
  }

  /**
   * Each second-document row gives exactly one Added-or-Remained record, at its own position and
   * with its cells copied; everything after them is Removed.
   */
  lemma AccumulatedShape(first: CsvDocument, second: CsvDocument)
    requires KeyCellsReadable(first, second)
    ensures |Accumulated(first, second)| >= second.RowCount()
    ensures forall k :: 0 <= k < second.RowCount() ==>
      && Accumulated(first, second)[k].columns == second.data[k]
      && (Accumulated(first, second)[k].state == Added || Accumulated(first, second)[k].state == Remained)
    ensures forall k :: second.RowCount() <= k < |Accumulated(first, second)| ==>
      Accumulated(first, second)[k].state == Removed
  {
    var s := MatchingStrategy(first, second);
    AllSearchableFromKeyCells(first, second);
    AddedOrRemainedRecords(second.data, first, s);
  }

  /** All data rows have the width of the first one. */
  predicate UniformWidth(doc: CsvDocument) {
    forall j :: 0 <= j < |doc.data| ==> |doc.data[j]| == |doc.data[0]|
  }

  lemma {:induction false} AllMatchedWhenPresent(rows: seq<seq<string>>, doc: CsvDocument, s: Strategy)
    requires AllSearchable(rows, doc, s)
    requires forall k :: 0 <= k < |rows| ==> RowExists(rows[k], doc, s)
    ensures Unmatched(rows, doc, s) == 0
  {
    if rows != [] {
      AllMatchedWhenPresent(rows[..|rows| - 1], doc, s);
    }
  }

  /**
   * Comparing a non-empty document of uniform width with itself: every row finds itself, so
   * nothing is Added or Removed and every record is Remained.
   */
  lemma SelfComparison(doc: CsvDocument)
    requires !doc.IsEmpty() && UniformWidth(doc)
    ensures Comparable(doc, doc) && KeyCellsReadable(doc, doc)
    ensures AddedCount(doc, doc) == 0 && RemovedCount(doc, doc) == 0
    ensures |Accumulated(doc, doc)| == doc.RowCount()
    ensures forall k :: 0 <= k < |Accumulated(doc, doc)| ==> Accumulated(doc, doc)[k].state == Remained
  {
    var s := MatchingStrategy(doc, doc);
    assert KeyCellsReadable(doc, doc) by {
      if s.ByJobNumber? {
        assert KeyCellsPresent(doc, s.index);
      }
    }
    AllSearchableFromKeyCells(doc, doc);
    forall k | 0 <= k < |doc.data| ensures RowExists(doc.data[k], doc, s) {
      RowFindsItself(doc, s, k);
    }
    AllMatchedWhenPresent(doc.data, doc, s);
    AddedOrRemainedRecords(doc.data, doc, s);
    var front := AddedOrRemained(doc.data, doc, s);
    var back := RemovedRecords(doc.data, doc, s);
    assert back == [];
    assert Accumulated(doc, doc) == front + back;
    assert front + back == front;
  }

  lemma RowFindsItself(doc: CsvDocument, s: Strategy, k: nat)
    requires k < |doc.data| && Searchable(doc.data[k], doc, s)
    requires s.ByJobNumber? ==> |doc.data[k]| == |doc.data[0]|
    ensures RowExists(doc.data[k], doc, s)
  {
    if s.ByJobNumber? {
      assert doc.data[k][s.index] == doc.data[k][s.index];
    } else {
      assert SameCells(doc.data[k], doc.data[k]);
    }
  }

  /**
   * Swapping the documents swaps the two counters: Added for (first, second) is Removed for
   * (second, first) and the other way round.
   */
  lemma SwapExchangesCounts(first: CsvDocument, second: CsvDocument)
    requires Comparable(first, second) && KeyCellsReadable(first, second)
    ensures Comparable(second, first) && KeyCellsReadable(second, first)
    ensures AddedCount(first, second) == RemovedCount(second, first)
    ensures RemovedCount(first, second) == AddedCount(second, first)
  {
    MatchingStrategySymmetric(first, second);
  }
}
