/**
 * HeaderListModel: the list of a table's header names with one "selected" flag each, and the
 * list of selected column indices that follows the flags.
 */
module HeaderListModels {
  import opened Sequences
  import opened HeaderSelection
  import opened CombinedData
  import opened JobTables

  /** Qt::UserRole, and the two roles the model answers to. */
  const UserRole: int := 0x0100
  const SelectedRole: int := UserRole + 1
  const HeaderNameRole: int := UserRole + 2

  /** The flag every header gets when a table is (re)loaded. */
  const DefaultSelectValue: bool := false

  /** A model index: either invalid, or a valid one at a row (valid rows are never negative). */
  datatype ModelIndex = NoIndex | Index(row: nat)

  /** What data() hands back: an empty variant, a flag or a header name. */
  datatype Variant = NoValue | BoolValue(flag: bool) | StringValue(text: string)

  /**
   * The outcome of data(): a value, or an out-of-range read of a header name or a flag, which
   * the list's at() does not allow.
   */
  datatype ReadOutcome = Value(v: Variant) | OutOfRange

  /** n headers, none of them selected. */
  function NoneSelected(n: nat): (flags: seq<bool>)
    ensures |flags| == n && forall i :: 0 <= i < n ==> !flags[i]
  {
    seq(n, _ => DefaultSelectValue)
  }

  /** The flags and the index list agree: a position is listed iff its flag is set. */
  predicate Agree(selected: seq<bool>, indices: seq<int>) {
    && (forall i :: 0 <= i < |selected| ==> (selected[i] <==> i in indices))
    && (forall x :: x in indices ==> 0 <= x < |selected|)
  }

  /** When flags and indices already agree, the update pass changes nothing. */
  lemma {:induction false} AgreeIsFixed(selected: seq<bool>, indices: seq<int>, n: nat)
    requires n <= |selected| && Agree(selected, indices)
    ensures SyncUpTo(selected, indices, n) == indices
  {
    if n > 0 {
      AgreeIsFixed(selected, indices, n - 1);
      assert selected[n - 1] <==> n - 1 in indices;
    }
  }

  /** After the pass over a duplicate-free list the flags and the indices agree. */
  lemma SyncedAgrees(selected: seq<bool>, indices: seq<int>)
    requires NoDuplicates(indices)
    requires forall x :: x in indices ==> 0 <= x < |selected|
    ensures Agree(selected, Synced(selected, indices))
    ensures NoDuplicates(Synced(selected, indices))
  {
    SyncedIsConsistent(selected, indices);
  }

  /** With every flag cleared, no position is newly selected. */
  lemma {:induction false} NoneNewlySelected(n: nat, m: nat)
    requires m <= n
    ensures NewlySelected(NoneSelected(n), [], m) == []
  {
    if m > 0 {
      NoneNewlySelected(n, m - 1);
    }
  }

  /** Starting from no indices and no selected header, the pass lists nothing. */
  lemma NoneSelectedSyncsToEmpty(n: nat)
    ensures Synced(NoneSelected(n), []) == []
  {
    SyncUpToIsKeptThenNew(NoneSelected(n), [], n);
    NoneNewlySelected(n, n);
  }

  class HeaderListModel {
    var table: JobTable?
    var selectedHeaders: seq<bool>
    var selectedHeaderIndices: seq<int>

    /** A new model has no table, no flags and no indices. */
    constructor ()
      ensures table == null && selectedHeaders == [] && selectedHeaderIndices == []
    {
      table := null;
      selectedHeaders := [];
      selectedHeaderIndices := [];
    }

    /** The model is attached to a table that holds data. */
    predicate TableHasData()
      reads this, table
    {
      table != null && table.HasData()
    }

    /** The guard of data() and setData(): a table with data and at least one flag. */
    predicate Ready()
      reads this, table
    {
      TableHasData() && |selectedHeaders| > 0
    }

    /** rowCount: one row per column of the table, none for a child index or without data. */
    function RowCount(parentValid: bool): (n: int)
      reads this, table, if table != null then {table.data} else {}
      ensures parentValid || !TableHasData() ==> n == 0
      ensures !parentValid && TableHasData() ==> n == |table.data.headerNames|
    {
      if parentValid || table == null || !table.HasData() then 0 else table.data.ColumnCount()
    }

    /**
     * data: an empty variant unless the index is valid and the model is ready; otherwise the
     * header name and the flag at the row are both read (which needs the row to be in range of
     * each), and the role picks one of them.
     */
    function Data(index: ModelIndex, role: int): (r: ReadOutcome)
      reads this, table, if table != null then {table.data} else {}
      ensures !index.Index? || !Ready() ==> r == Value(NoValue)
      ensures index.Index? && Ready() && (index.row >= |table.data.headerNames| || index.row >= |selectedHeaders|) ==>
        r == OutOfRange
      ensures index.Index? && Ready() && index.row < |table.data.headerNames| && index.row < |selectedHeaders| ==>
        && (role == SelectedRole ==> r == Value(BoolValue(selectedHeaders[index.row])))
        && (role == HeaderNameRole ==> r == Value(StringValue(table.data.headerNames[index.row])))
        && (role != SelectedRole && role != HeaderNameRole ==> r == Value(NoValue))
    {
      if !index.Index? || !Ready() then Value(NoValue)
      else if index.row >= |table.data.headerNames| || index.row >= |selectedHeaders| then OutOfRange
      else if role == SelectedRole then Value(BoolValue(selectedHeaders[index.row]))
      else if role == HeaderNameRole then Value(StringValue(table.data.headerNames[index.row]))
      else Value(NoValue)
    }

    /**
     * updateSelectedHeaderIndices: one pass over the flags; a set flag whose position is not
     * listed appends it, a cleared flag whose position is listed removes its first copy.
     */
    method UpdateSelectedHeaderIndices()
      modifies this
      ensures table == old(table) && selectedHeaders == old(selectedHeaders)
      ensures selectedHeaderIndices == Synced(selectedHeaders, old(selectedHeaderIndices))
    {
      var i := 0;
      while i < |selectedHeaders|
        invariant 0 <= i <= |selectedHeaders|
        invariant table == old(table) && selectedHeaders == old(selectedHeaders)
        invariant selectedHeaderIndices == SyncUpTo(selectedHeaders, old(selectedHeaderIndices), i)
      {
        if selectedHeaders[i] && i !in selectedHeaderIndices {
          selectedHeaderIndices := selectedHeaderIndices + [i];
        } else if !selectedHeaders[i] && i in selectedHeaderIndices {
          selectedHeaderIndices := RemoveFirst(selectedHeaderIndices, i);
        }
        i := i + 1;
      }
    }

    /**
     * setData: only the selected role on a valid index of a ready model can change anything; it
     * changes exactly the flag at the row, and only when the new value differs, and then brings
     * the index list up to date. The result says whether a change was made.
     */
    method SetData(index: ModelIndex, value: bool, role: int) returns (changed: bool)
      requires index.Index? && Ready() && role == SelectedRole ==> index.row < |selectedHeaders|
      modifies this
      ensures changed <==>
        index.Index? && old(Ready()) && role == SelectedRole && value != old(selectedHeaders)[index.row]
      ensures !changed ==> unchanged(this)
      ensures changed ==>
        && table == old(table)
        && selectedHeaders == old(selectedHeaders)[index.row := value]
        && selectedHeaderIndices == Synced(selectedHeaders, old(selectedHeaderIndices))
    {
      if !index.Index? || table == null || !table.HasData() || |selectedHeaders| <= 0 {
        return false;
      }
      if role == SelectedRole {
        if value != selectedHeaders[index.row] {
          selectedHeaders := selectedHeaders[index.row := value];
          UpdateSelectedHeaderIndices();
          return true;
        }
        return false;
      }
      return false;
    }

    /** setSelectedHeaders: the flags are replaced and the index list follows them. */
    method SetSelectedHeaders(headers: seq<bool>)
      modifies this
      ensures table == old(table) && selectedHeaders == headers
      ensures selectedHeaderIndices == Synced(headers, old(selectedHeaderIndices))
    {
      selectedHeaders := headers;
      UpdateSelectedHeaderIndices();
    }

    /**
     * setSelectedHeaderIndices: the index list is stored as given; every flag is cleared and
     * then the flag of each listed position set, so a flag is set iff its position is listed.
     * Each listed position must be a flag position.
     */
    method SetSelectedHeaderIndices(indices: seq<int>)
      requires forall k :: 0 <= k < |indices| ==> 0 <= indices[k] < |selectedHeaders|
      modifies this
      ensures table == old(table) && selectedHeaderIndices == indices
      ensures |selectedHeaders| == |old(selectedHeaders)|
      ensures Agree(selectedHeaders, selectedHeaderIndices)
    {
      selectedHeaderIndices := indices;
      var i := 0;
      while i < |selectedHeaders|
        invariant 0 <= i <= |selectedHeaders| == |old(selectedHeaders)|
        invariant table == old(table) && selectedHeaderIndices == indices
        invariant forall j :: 0 <= j < i ==> !selectedHeaders[j]
      {
        selectedHeaders := selectedHeaders[i := false];
        i := i + 1;
      }
      var k := 0;
      while k < |indices|
        invariant 0 <= k <= |indices|
        invariant |selectedHeaders| == |old(selectedHeaders)|
        invariant table == old(table) && selectedHeaderIndices == indices
        invariant forall j :: 0 <= j < |selectedHeaders| ==> (selectedHeaders[j] <==> j in indices[..k])
      {
        selectedHeaders := selectedHeaders[indices[k] := true];
        assert indices[..k + 1] == indices[..k] + [indices[k]];
        k := k + 1;
      }
      assert indices[..k] == indices;
    }

    /** The table is about to be reset: flags and indices are dropped. */
    method PreTableReset()
      modifies this
      ensures table == old(table) && selectedHeaders == [] && selectedHeaderIndices == []
    {
      selectedHeaders := [];
      selectedHeaderIndices := [];
    }

    /**
     * The table has been reset: one default flag is appended per column of the table, and the
     * index list follows the flags.
     */
    method PostTableReset()
      requires table != null
      modifies this
      ensures table == old(table)
      ensures selectedHeaders == old(selectedHeaders) + NoneSelected(table.ColumnCount())
      ensures selectedHeaderIndices == Synced(selectedHeaders, old(selectedHeaderIndices))
    {
      var columnCount := table.ColumnCount();
      var i := 0;
      while i < columnCount
        invariant 0 <= i <= columnCount
        invariant table == old(table)
        invariant selectedHeaders == old(selectedHeaders) + NoneSelected(i)
        invariant selectedHeaderIndices == old(selectedHeaderIndices)
      {
        selectedHeaders := selectedHeaders + [DefaultSelectValue];
        assert NoneSelected(i + 1) == NoneSelected(i) + [DefaultSelectValue];
        i := i + 1;
      }
      UpdateSelectedHeaderIndices();
    }

    /** setJobTable: a null table or the table already held changes nothing; another is taken. */
    method SetJobTable(t: JobTable?)
      modifies this
      ensures t == null || t == old(table) ==> unchanged(this)
      ensures t != null && t != old(table) ==>
        table == t && selectedHeaders == old(selectedHeaders) && selectedHeaderIndices == old(selectedHeaderIndices)
    {
      if t == null || t == table {
        return;
      }
      table := t;
    }
  }

  /**
   * Setting the data of the model's table, with the model following the table's reset signals:
   * when the data changes, every header of the new data starts unselected and no index is
   * listed; the same data changes nothing.
   */
  method ReloadTable(model: HeaderListModel, p: CsvCombinedData?)
    requires model.table != null
    modifies model, model.table, model.table.data
    ensures model.table == old(model.table) && model.table.data == p
    ensures p == old(model.table.data) ==>
      model.selectedHeaders == old(model.selectedHeaders)
      && model.selectedHeaderIndices == old(model.selectedHeaderIndices)
    ensures p != old(model.table.data) ==>
      && model.selectedHeaders == NoneSelected(model.table.ColumnCount())
      && model.selectedHeaderIndices == []
  {
    var table := model.table;
    if p == table.data {
      return;
    }
    model.PreTableReset();
    table.SetTableData(p);
    model.PostTableReset();
    NoneSelectedSyncsToEmpty(table.ColumnCount());
  }

  /**
   * On flags and indices that agree, selecting or deselecting a header through setData keeps them
   * agreeing: the position is listed iff the new value is set, and reading it back gives the value.
   */
  method SelectThenRead(model: HeaderListModel, row: nat, value: bool)
    requires model.Ready() && row < |model.selectedHeaders|
    requires Agree(model.selectedHeaders, model.selectedHeaderIndices)
    requires NoDuplicates(model.selectedHeaderIndices)
    modifies model
    ensures model.table == old(model.table) && model.Ready()
    ensures row < |model.table.data.headerNames| ==> model.Data(Index(row), SelectedRole) == Value(BoolValue(value))
    ensures row in model.selectedHeaderIndices <==> value
    ensures Agree(model.selectedHeaders, model.selectedHeaderIndices)
    ensures NoDuplicates(model.selectedHeaderIndices)
  {
    var changed := model.SetData(Index(row), value, SelectedRole);
    if changed {
      SyncedAgrees(model.selectedHeaders, old(model.selectedHeaderIndices));
    }
  }
}
