/**
 * JobTable: a holder that either has no data or shares one CsvCombinedData with other holders.
 * Its getters read through to the data and default to zero or empty without it.
 */
module JobTables {
  import opened JobTableRows
  import opened CombinedData

  class JobTable {
    var data: CsvCombinedData?

    /** A new holder has no data. */
    constructor ()
      ensures data == null && !HasData()
    {
      data := null;
    }

    predicate HasData()
      reads this
    {
      data != null
    }

    function RowCount(): (n: int)
      reads this, data
      ensures !HasData() ==> n == 0
      ensures HasData() ==> n == |data.rows|
    {
      if data != null then data.RowCount() else 0
    }

    function ColumnCount(): (n: int)
      reads this, data
      ensures !HasData() ==> n == 0
      ensures HasData() ==> n == |data.headerNames|
    {
      if data != null then data.ColumnCount() else 0
    }

    function NewAddedCount(): (n: int)
      reads this, data
      ensures !HasData() ==> n == 0
      ensures HasData() ==> n == data.newAddedCount
    {
      if data != null then data.newAddedCount else 0
    }

    function RemovedCount(): (n: int)
      reads this, data
      ensures !HasData() ==> n == 0
      ensures HasData() ==> n == data.removedCount
    {
      if data != null then data.removedCount else 0
    }

    function HeaderNames(): (names: seq<string>)
      reads this, data
      ensures !HasData() ==> names == []
      ensures HasData() ==> names == data.headerNames
    {
      if data != null then data.headerNames else []
    }

    function FormatIdentifier(): (id: string)
      reads this, data
      ensures !HasData() ==> id == ""
      ensures HasData() ==> id == data.formatIdentifier
    {
      if data != null then data.formatIdentifier else ""
    }

    /** Every getter reports nothing: zero counts, no headers, no identifier. */
    predicate ReportsNothing()
      reads this, data
    {
      RowCount() == 0 && ColumnCount() == 0 && NewAddedCount() == 0 && RemovedCount() == 0
      && HeaderNames() == [] && FormatIdentifier() == ""
    }

    /**
     * clearTable: with no data, nothing happens. Otherwise the shared data is cleared in place
     * (headers, rows and counters; its identifier stays) and then let go of.
     */
    method ClearTable()
      modifies this, data
      ensures data == null && ReportsNothing()
      ensures old(data) != null ==>
        && old(data).headerNames == [] && old(data).rows == []
        && old(data).newAddedCount == 0 && old(data).removedCount == 0
        && old(data).formatIdentifier == old(data.formatIdentifier)
    {
      if data == null {
        return;
      }
      data.Clear();
      data := null;
    }

    /**
     * setTableData: the data already held changes nothing; null clears the table as
     * clearTable does; any other data replaces the held data, which is left as it was.
     */
    method SetTableData(p: CsvCombinedData?)
      modifies this, data
      ensures p == old(data) ==> data == old(data) && (data != null ==> unchanged(data))
      ensures p == null && old(data) != null ==>
        && data == null
        && old(data).headerNames == [] && old(data).rows == []
        && old(data).newAddedCount == 0 && old(data).removedCount == 0
        && old(data).formatIdentifier == old(data.formatIdentifier)
      ensures p != null && p != old(data) ==>
        data == p && (old(data) != null ==> unchanged(old(data)))
    {
      if p == data {
        return;
      }
      if p == null {
        ClearTable();
        return;
      }
      data := p;
    }
  }

  /**
   * Clearing one holder empties the data every other holder of the same data sees: the other
   * holder still has data, but all of it reads as zero or empty except the identifier.
   */
  method ClearIsSharedWithOtherHolders(one: JobTable, other: JobTable)
    requires one != other && one.data != null && one.data == other.data
    modifies one, one.data
    ensures !one.HasData() && one.ReportsNothing()
    ensures other.HasData()
    ensures other.RowCount() == 0 && other.ColumnCount() == 0
    ensures other.NewAddedCount() == 0 && other.RemovedCount() == 0 && other.HeaderNames() == []
  {
    one.ClearTable();
  }
}
