/**
 * CSVCombinedData: the reconciled table (header names, state-tagged rows, two counters, the format
 * identifier) and getCSVCombinedData, the engine that builds one from two documents.
 */
module CombinedData {
  import opened Wrappers
  import opened JobTableRows
  import opened CsvDocuments
  import opened CsvHandling
  import opened Reconciliation

  class CsvCombinedData {
    var formatIdentifier: string
    var headerNames: seq<string>
    var rows: seq<JobTableRow>
    var newAddedCount: int
    var removedCount: int

    /** The default constructor: no headers, no rows, both counters zero, no identifier. */
    constructor ()
      ensures formatIdentifier == "" && headerNames == [] && rows == []
      ensures newAddedCount == 0 && removedCount == 0
      ensures RowCount() == 0 && ColumnCount() == 0
    {
      formatIdentifier := "";
      headerNames := [];
      rows := [];
      newAddedCount := 0;
      removedCount := 0;
    }

    /** The engine's result, filled in after the default construction. */
    constructor Filled(id: string, names: seq<string>, records: seq<JobTableRow>, added: int, removed: int)
      ensures formatIdentifier == id && headerNames == names && rows == records
      ensures newAddedCount == added && removedCount == removed
    {
      formatIdentifier := id;
      headerNames := names;
      rows := records;
      newAddedCount := added;
      removedCount := removed;
    }

    /** The number of combined rows (headers not counted). */
    function RowCount(): nat
      reads this
    {
      |rows|
    }

    /** The number of header names. */
    function ColumnCount(): nat
      reads this
    {
      |headerNames|
    }

    /** headerHash: the same digest of the held header names as computeFormatIdentifier. */
    function HeaderHash(hash: string -> string): (h: string)
      reads this
      ensures headerNames == [] ==> h == ""
      ensures h == ComputeFormatIdentifier(hash, headerNames)
    {
      if headerNames == [] then "" else hash(Concat(headerNames))
    }

    /** clear: empties headers and rows and zeroes both counters; the format identifier stays. */
    method Clear()
      modifies this
      ensures headerNames == [] && rows == [] && newAddedCount == 0 && removedCount == 0
      ensures formatIdentifier == old(formatIdentifier)
      ensures RowCount() == 0 && ColumnCount() == 0
    {
      headerNames := [];
      rows := [];
      newAddedCount := 0;
      removedCount := 0;
    }
  }

  /** Exchanges two cells of the array; the contents stay the same multiset. */
  method Swap(a: array<JobTableRow>, i: nat, j: nat)
    requires i < a.Length && j < a.Length
    modifies a
    ensures a[..] == old(a[..])[i := old(a[j])][j := old(a[i])]
    ensures multiset(a[..]) == multiset(old(a[..]))
  {
    a[i], a[j] := a[j], a[i];
  }

  /**
   * The Dutch-national-flag layout: Added rows before `lo`, Removed rows in [lo, mid), rows not yet
   * looked at in [mid, hi), Remained rows from `hi` on.
   */
  predicate Bands(s: seq<JobTableRow>, lo: nat, mid: nat, hi: nat) {
    && lo <= mid <= hi <= |s|
    && (forall k :: 0 <= k < lo ==> s[k].state == Added)
    && (forall k :: lo <= k < mid ==> s[k].state == Removed)
    && (forall k :: mid <= k < hi ==> s[k].state != Invalid)
    && (forall k :: hi <= k < |s| ==> s[k].state == Remained)
  }

  lemma BandsTakeAdded(s: seq<JobTableRow>, lo: nat, mid: nat, hi: nat)
    requires Bands(s, lo, mid, hi) && mid < hi && s[mid].state == Added
    ensures Bands(s[lo := s[mid]][mid := s[lo]], lo + 1, mid + 1, hi)
  {
  }

  lemma BandsTakeRemoved(s: seq<JobTableRow>, lo: nat, mid: nat, hi: nat)
    requires Bands(s, lo, mid, hi) && mid < hi && s[mid].state == Removed
    ensures Bands(s, lo, mid + 1, hi)
  {
  }

  lemma BandsTakeRemained(s: seq<JobTableRow>, lo: nat, mid: nat, hi: nat)
    requires Bands(s, lo, mid, hi) && mid < hi && s[mid].state == Remained
    ensures Bands(s[mid := s[hi - 1]][hi - 1 := s[mid]], lo, mid, hi - 1)
  {
  }

  /** With nothing left to look at, the bands are sorted by state. */
  lemma BandsSorted(s: seq<JobTableRow>, lo: nat, mid: nat)
    requires Bands(s, lo, mid, mid)
    ensures SortedByState(s)
  {
  }

  /** One step of the partition: the row at `mid` joins the band its state belongs to. */
  method PlaceOne(a: array<JobTableRow>, lo: nat, mid: nat, hi: nat) returns (lo': nat, mid': nat, hi': nat)
    requires Bands(a[..], lo, mid, hi) && mid < hi
    modifies a
    ensures Bands(a[..], lo', mid', hi')
    ensures hi' - mid' < hi - mid
    ensures multiset(a[..]) == multiset(old(a[..]))
  {
    if a[mid].state == Added {
      BandsTakeAdded(a[..], lo, mid, hi);
      Swap(a, lo, mid);
      lo', mid', hi' := lo + 1, mid + 1, hi;
    } else if a[mid].state == Removed {
      BandsTakeRemoved(a[..], lo, mid, hi);
      lo', mid', hi' := lo, mid + 1, hi;
    } else {
      BandsTakeRemained(a[..], lo, mid, hi);
      Swap(a, mid, hi - 1);
      lo', mid', hi' := lo, mid, hi - 1;
    }
  }

  /**
   * The ordering step: rows end up non-decreasing in their state values (Added, Removed, Remained)
   * and are a permutation of the input. Order within one state is not promised.
   */
  method SortByState(a: array<JobTableRow>)
    requires forall k :: 0 <= k < a.Length ==> a[k].state != Invalid
    modifies a
    ensures SortedByState(a[..])
    ensures multiset(a[..]) == multiset(old(a[..]))
  {
    var lo: nat, mid: nat, hi: nat := 0, 0, a.Length;
    while mid < hi
      invariant Bands(a[..], lo, mid, hi)
      invariant multiset(a[..]) == multiset(old(a[..]))
      decreases hi - mid
    {
      lo, mid, hi := PlaceOne(a, lo, mid, hi);
    }
    BandsSorted(a[..], lo, mid);
  }

  /** The sort of getCSVCombinedData applied to a list of records, through an array. */
  method SortRecords(records: seq<JobTableRow>) returns (sorted: seq<JobTableRow>)
    requires forall k :: 0 <= k < |records| ==> records[k].state != Invalid
    ensures SortedByState(sorted)
    ensures multiset(sorted) == multiset(records)
    ensures |sorted| == |records|
    ensures forall st :: CountState(sorted, st) == CountState(records, st)
  {
    var a := new JobTableRow[|records|](k requires 0 <= k < |records| => records[k]);
    assert a[..] == records;
    SortByState(a);
    sorted := a[..];
    forall st ensures CountState(sorted, st) == CountState(records, st) {
      CountStateMultiset(sorted, records, st);
    }
  }

  /**
   * The search both loops run for one row: the cell-set search under the fallback, the search on
   * the job-number column otherwise.
   */
  method LookUpRow(row: seq<string>, doc: CsvDocument, s: Strategy, useFallback: bool, index: int)
    returns (found: bool)
    requires Searchable(row, doc, s)
    requires useFallback <==> s.ByCellSet?
    requires s.ByJobNumber? ==> index == s.index
    ensures found == RowExists(row, doc, s)
  {
    if useFallback {
      found := RowExistsByCellSet(row, doc);
    } else {
      found := RowExistsByJobNumber(row, doc, index);
    }
  }

  /**
   * The first loop of getCSVCombinedData: one Added-or-Remained record per second-document row,
   * and the number of Added ones.
   */
  method CollectAddedOrRemained(first: CsvDocument, second: CsvDocument, s: Strategy, useFallback: bool, index: int)
    returns (rows: seq<JobTableRow>, newAddedCount: int)
    requires AllSearchable(second.data, first, s)
    requires useFallback <==> s.ByCellSet?
    requires s.ByJobNumber? ==> index == s.index
    ensures rows == AddedOrRemained(second.data, first, s)
    ensures newAddedCount == Unmatched(second.data, first, s)
  {
    rows := [];
    newAddedCount := 0;
    var i := 0;
    while i < |second.data|
      invariant 0 <= i <= |second.data|
      invariant AllSearchable(second.data[..i], first, s)
      invariant rows == AddedOrRemained(second.data[..i], first, s)
      invariant newAddedCount == Unmatched(second.data[..i], first, s)
    {
      var row := second.data[i];
      var found := LookUpRow(row, first, s, useFallback, index);
      var newAdded := !found;
      AddedOrRemainedPrefix(second.data, first, s, i);
      if newAdded {
        newAddedCount := newAddedCount + 1;
      }
      rows := rows + [JobTableRow(if newAdded then Added else Remained, row)];
      i := i + 1;
    }
    assert second.data[..i] == second.data;
  }

  /**
   * The second loop of getCSVCombinedData: a Removed record for each first-document row without a
   * match in the second document, and their number.
   */
  method CollectRemoved(first: CsvDocument, second: CsvDocument, s: Strategy, useFallback: bool, index: int)
    returns (rows: seq<JobTableRow>, removedCount: int)
    requires AllSearchable(first.data, second, s)
    requires useFallback <==> s.ByCellSet?
    requires s.ByJobNumber? ==> index == s.index
    ensures rows == RemovedRecords(first.data, second, s)
    ensures removedCount == Unmatched(first.data, second, s)
  {
    rows := [];
    removedCount := 0;
    var i := 0;
    while i < |first.data|
      invariant 0 <= i <= |first.data|
      invariant AllSearchable(first.data[..i], second, s)
      invariant rows == RemovedRecords(first.data[..i], second, s)
      invariant removedCount == Unmatched(first.data[..i], second, s)
    {
      var row := first.data[i];
      var found := LookUpRow(row, second, s, useFallback, index);
      var removed := !found;
      RemovedRecordsPrefix(first.data, second, s, i);
      if removed {
        removedCount := removedCount + 1;
        rows := rows + [JobTableRow(Removed, row)];
      }
      i := i + 1;
    }
    assert first.data[..i] == first.data;
  }

  /**
   * getCSVCombinedData. Both documents empty fails with BothEmpty (checked first); different column
   * counts fail with DifferentFormat. Otherwise the result holds the second document's headers and
   * format identifier, the accumulated records sorted by state, and the two counters, which equal
   * the numbers of Added and of Removed records.
   */
  method GetCsvCombinedData(hash: string -> string, first: CsvDocument, second: CsvDocument)
    returns (r: Result<CsvCombinedData, CombineError>)
    requires Comparable(first, second) ==> KeyCellsReadable(first, second)
    ensures first.IsEmpty() && second.IsEmpty() ==> r == Failure(BothEmpty)
    ensures !(first.IsEmpty() && second.IsEmpty()) && first.ColumnCount() != second.ColumnCount() ==>
      r == Failure(DifferentFormat)
    ensures r.Success? <==> Comparable(first, second)
    ensures r.Success? ==> r.value.headerNames == second.headerNames
    ensures r.Success? ==> r.value.formatIdentifier == ComputeFormatIdentifier(hash, second.headerNames)
    ensures r.Success? ==> r.value.HeaderHash(hash) == r.value.formatIdentifier
    ensures r.Success? ==> multiset(r.value.rows) == multiset(Accumulated(first, second))
    ensures r.Success? ==> SortedByState(r.value.rows)
    ensures r.Success? ==> r.value.newAddedCount == AddedCount(first, second) == CountState(r.value.rows, Added)
    ensures r.Success? ==> r.value.removedCount == RemovedCount(first, second) == CountState(r.value.rows, Removed)
    ensures r.Success? ==> r.value.RowCount() == second.RowCount() + r.value.removedCount
    ensures r.Success? ==> CountState(r.value.rows, Remained) == second.RowCount() - r.value.newAddedCount
  {
    if first.IsEmpty() && second.IsEmpty() {
      return Failure(BothEmpty);
    }
    if first.ColumnCount() != second.ColumnCount() {
      return Failure(DifferentFormat);
    }
    var firstIndex := FindSingleJobNumberColumnIndex(first);
    var secondIndex := FindSingleJobNumberColumnIndex(second);
    var useFallback := firstIndex == -1 || secondIndex == -1 || firstIndex != secondIndex;
    var s := MatchingStrategy(first, second);
    AllSearchableFromKeyCells(first, second);

    var front, newAddedCount := CollectAddedOrRemained(first, second, s, useFallback, firstIndex);
    var back, removedCount := CollectRemoved(first, second, s, useFallback, firstIndex);
    var accumulated := front + back;
    assert accumulated == Accumulated(first, second);
    assert forall k :: 0 <= k < |accumulated| ==> accumulated[k].state != Invalid by {
      AccumulatedShape(first, second);
    }
    AccumulatedCounts(first, second);

    var sorted := SortRecords(accumulated);

    var id := ComputeFormatIdentifier(hash, second.headerNames);
    var result := new CsvCombinedData.Filled(id, second.headerNames, sorted, newAddedCount, removedCount);
    r := Success(result);
  }
}
