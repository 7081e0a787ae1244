/**
 * JobTableModel: the table view over a JobTable. It shows the columns listed in columnsToShow, in
 * that order, and reads cells, header names and row states through that list.
 */
module JobTableModels {
  import opened JobTableRows
  import opened CombinedData
  import opened JobTables

  /** Qt::DisplayRole, the one role the model answers. */
  const DisplayRole: int := 0

  datatype Orientation = Horizontal | Vertical

  /** A model index: either invalid, or a valid one at a row and a column. */
  datatype TableIndex = NoIndex | Index(row: int, column: int)

  /** The outcome of a read: a text, or an out-of-range read that the list's at() does not allow. */
  datatype CellRead = Text(text: string) | OutOfRange

  /** Every listed column lies in 0 .. columnCount-1. */
  predicate ColumnsWithin(columns: seq<int>, columnCount: int) {
    forall k :: 0 <= k < |columns| ==> 0 <= columns[k] < columnCount
  }

  class JobTableModel {
    var table: JobTable?
    var columnsToShow: seq<int>

    /** A new model has no table and shows no column. */
    constructor ()
      ensures table == null && columnsToShow == []
    {
      table := null;
      columnsToShow := [];
    }

    predicate TableHasData()
      reads this, table
    {
      table != null && table.HasData()
    }

    /** While the table has data, every shown column is one of its columns. */
    predicate ShownColumnsValid()
      reads this, table, if table != null then {table.data} else {}
    {
      TableHasData() ==> ColumnsWithin(columnsToShow, table.ColumnCount())
    }

    /** rowCount: the table's row count, none without a table. */
    function RowCount(): (n: int)
      reads this, table, if table != null then {table.data} else {}
      ensures !TableHasData() ==> n == 0
      ensures TableHasData() ==> n == |table.data.rows|
    {
      if table == null then 0 else table.RowCount()
    }

    /** columnCount: the number of shown columns, whatever the table holds. */
    function ColumnCount(): (n: nat)
      reads this
      ensures n == |columnsToShow|
    {
      |columnsToShow|
    }

    /** mapColumnIndex: the table column shown at view column `index`, which must exist. */
    function MapColumnIndex(index: int): (c: int)
      reads this
      requires 0 <= index < |columnsToShow|
      ensures c in columnsToShow
    {
      columnsToShow[index]
    }

    /** rowState: Invalid without data or for a row out of range; otherwise the row's state. */
    function RowState(index: int): (st: RowState)
      reads this, table, if table != null then {table.data} else {}
      ensures !TableHasData() || index < 0 || index >= RowCount() ==> st == Invalid
      ensures TableHasData() && 0 <= index < RowCount() ==> st == table.data.rows[index].state
    {
      if table == null || !table.HasData() || index < 0 || index >= table.RowCount() then Invalid
      else table.data.rows[index].state
    }

    /**
     * headerData: an empty text without data, for a section outside the table's columns or when
     * no column is shown; for the horizontal display role, the name of the table column shown at
     * `section`; otherwise an empty text.
     */
    function HeaderData(section: int, orientation: Orientation, role: int): (r: CellRead)
      reads this, table, if table != null then {table.data} else {}
      ensures !TableHasData() || section < 0 || section >= table.ColumnCount() || columnsToShow == [] ==>
        r == Text("")
      ensures r.OutOfRange? <==>
        && TableHasData() && 0 <= section < table.ColumnCount() && columnsToShow != []
        && role == DisplayRole && orientation == Horizontal
        && !(section < |columnsToShow| && 0 <= columnsToShow[section] < |table.data.headerNames|)
      ensures !(role == DisplayRole && orientation == Horizontal) ==> r == Text("")
      ensures (&& TableHasData() && 0 <= section < table.ColumnCount() && columnsToShow != []
               && role == DisplayRole && orientation == Horizontal && r.Text?) ==>
        && section < |columnsToShow| && 0 <= columnsToShow[section] < |table.data.headerNames|
        && r.text == table.data.headerNames[columnsToShow[section]]
    {
      if table == null || !table.HasData() || section < 0 || section >= table.ColumnCount() || columnsToShow == [] then
        Text("")
      else if role == DisplayRole && orientation == Horizontal then
        if section >= |columnsToShow| then OutOfRange
        else
          var column := MapColumnIndex(section);
          if column < 0 || column >= |table.data.headerNames| then OutOfRange
          else Text(table.data.headerNames[column])
      else Text("")
    }

    /**
     * data: an empty text without data, for an invalid index, a row outside the table, a column
     * outside the table's columns or when no column is shown; for the display role, the cell of
     * the row in the table column shown at the index's column; otherwise an empty text.
     */
    function Data(index: TableIndex, role: int): (r: CellRead)
      reads this, table, if table != null then {table.data} else {}
      ensures (|| !TableHasData() || !index.Index? || index.row < 0 || index.row >= RowCount()
               || index.column < 0 || index.column >= table.ColumnCount() || columnsToShow == []) ==>
        r == Text("")
      ensures r.OutOfRange? <==>
        && TableHasData() && index.Index? && 0 <= index.row < RowCount()
        && 0 <= index.column < table.ColumnCount() && columnsToShow != [] && role == DisplayRole
        && !(index.column < |columnsToShow|
             && 0 <= columnsToShow[index.column] < |table.data.rows[index.row].columns|)
      ensures role != DisplayRole ==> r == Text("")
      ensures (&& TableHasData() && index.Index? && 0 <= index.row < RowCount()
               && 0 <= index.column < table.ColumnCount() && columnsToShow != [] && role == DisplayRole && r.Text?) ==>
        && index.column < |columnsToShow|
        && 0 <= columnsToShow[index.column] < |table.data.rows[index.row].columns|
        && r.text == table.data.rows[index.row].columns[columnsToShow[index.column]]
    {
      if table == null || !table.HasData() || !index.Index? || index.row < 0 || index.row >= table.RowCount()
        || index.column < 0 || index.column >= table.ColumnCount() || columnsToShow == []
      then
        Text("")
      else if role == DisplayRole then
        if index.column >= |columnsToShow| then OutOfRange
        else
          var cells := table.data.rows[index.row].columns;
          var column := MapColumnIndex(index.column);
          if column < 0 || column >= |cells| then OutOfRange
          else Text(cells[column])
      else Text("")
    }

    /** setJobTable: the table is taken (it must not be null) and no column is shown any more. */
    method SetJobTable(t: JobTable)
      modifies this
      ensures table == t && columnsToShow == []
      ensures ShownColumnsValid()
    {
      table := t;
      columnsToShow := [];
    }

    /**
     * setColumnsToShow: an equal list changes nothing. While the table has data, a list with an
     * index outside its columns is refused and changes nothing. Otherwise the list is stored as
     * given, unsorted.
     */
    method SetColumnsToShow(columns: seq<int>)
      modifies this
      ensures table == old(table)
      ensures columns == old(columnsToShow) ==> columnsToShow == old(columnsToShow)
      ensures TableHasData() && !ColumnsWithin(columns, table.ColumnCount()) ==>
        columnsToShow == old(columnsToShow)
      ensures (!TableHasData() || ColumnsWithin(columns, table.ColumnCount())) ==> columnsToShow == columns
      ensures old(ShownColumnsValid()) ==> ShownColumnsValid()
    {
      if columnsToShow == columns {
        return;
      }
      if table != null && table.HasData() {
        var columnCount := table.ColumnCount();
        var k := 0;
        while k < |columns|
          invariant 0 <= k <= |columns|
          invariant ColumnsWithin(columns[..k], columnCount)
        {
          if columns[k] >= columnCount || columns[k] < 0 {
            assert !ColumnsWithin(columns, columnCount);
            return;
          }
          k := k + 1;
        }
        assert columns[..k] == columns;
      }
      columnsToShow := columns;
    }

    /** The table is about to be reset: no column is shown. */
    method PreTableReset()
      modifies this
      ensures table == old(table) && columnsToShow == []
      ensures ShownColumnsValid()
    {
      columnsToShow := [];
    }
  }

  /** With valid shown columns, the header of every shown column can be read. */
  lemma HeaderDataInRange(model: JobTableModel, section: int)
    requires model.TableHasData() && model.ShownColumnsValid()
    requires 0 <= section < |model.columnsToShow| && section < model.table.ColumnCount()
    ensures model.HeaderData(section, Horizontal, DisplayRole)
         == Text(model.table.data.headerNames[model.columnsToShow[section]])
  {
    assert 0 <= model.columnsToShow[section] < model.table.ColumnCount();
  }

  /**
   * With valid shown columns, a cell of a row as wide as the header can be read at every shown
   * column that is also a table column.
   */
  lemma DataInRange(model: JobTableModel, row: int, column: int)
    requires model.TableHasData() && model.ShownColumnsValid()
    requires 0 <= row < model.RowCount() && 0 <= column < |model.columnsToShow|
    requires column < model.table.ColumnCount()
    requires |model.table.data.rows[row].columns| >= |model.table.data.headerNames|
    ensures model.Data(Index(row, column), DisplayRole)
         == Text(model.table.data.rows[row].columns[model.columnsToShow[column]])
  {
    assert 0 <= model.columnsToShow[column] < model.table.ColumnCount();
  }

  /**
   * Setting the data of the model's table, with the model following the table's reset signal:
   * when the data changes, no column is shown any more; the same data changes nothing. Either
   * way the shown columns stay valid.
   */
  method ReloadTable(model: JobTableModel, p: CsvCombinedData?)
    requires model.table != null && model.ShownColumnsValid()
    modifies model, model.table, model.table.data
    ensures model.table == old(model.table) && model.table.data == p
    ensures p == old(model.table.data) ==> model.columnsToShow == old(model.columnsToShow)
    ensures p != old(model.table.data) ==> model.columnsToShow == []
    ensures model.ShownColumnsValid()
  {
    var table := model.table;
    if p == table.data {
      return;
    }
    model.PreTableReset();
    table.SetTableData(p);
  }
}
