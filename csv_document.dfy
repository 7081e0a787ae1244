/**
 * CSVDocument: a header row and data rows, split from the rows the CSV reader produced.
 * The reader itself (file access and tokenising) is not part of this model: a document is built
 * from the already-split rows.
 */
module CsvDocuments {

  /** The header names and the data rows; a document never changes once built. */
  datatype CsvDocument = CsvDocument(headerNames: seq<string>, data: seq<seq<string>>) {

    /** The number of data rows (the header row is not counted). */
    function RowCount(): nat {
      |data|
    }

    /** The number of header names. */
    function ColumnCount(): nat {
      |headerNames|
    }

    /** Empty means: no data rows and no header names. */
    predicate IsEmpty() {
      RowCount() <= 0 && headerNames == []
    }

    /** The cell at data row `row`, column `column`; rows may be ragged, so the column is bounded by that row. */
    function At(row: int, column: int): (cell: string)
      requires 0 <= row < RowCount() && 0 <= column < |data[row]|
      ensures cell in data[row]
    {
      data[row][column]
    }
  }

  /**
   * The constructor's split: no rows give the empty document; otherwise the first row becomes the
   * headers and the remaining rows, unchecked against the header width, become the data.
   */
  function FromRows(rows: seq<seq<string>>): (d: CsvDocument)
    ensures rows == [] ==> d.headerNames == [] && d.data == []
    ensures rows != [] ==> [d.headerNames] + d.data == rows
    ensures rows != [] ==> d.RowCount() == |rows| - 1 && d.ColumnCount() == |rows[0]|
    ensures d.IsEmpty() <==> rows == [] || (|rows| == 1 && rows[0] == [])
  {
    if |rows| <= 0 then CsvDocument([], [])
    else CsvDocument(rows[0], rows[1..])
  }

  /** A cell of a built document is the cell one row further down in the reader's rows. */
  lemma AtFromRows(rows: seq<seq<string>>, r: int, c: int)
    requires rows != [] && 0 <= r < |rows| - 1 && 0 <= c < |rows[r + 1]|
    ensures 0 <= c < |FromRows(rows).data[r]|
    ensures FromRows(rows).At(r, c) == rows[r + 1][c]
  {
  }

  /** A document holding only a non-empty header row has no data rows but is not empty. */
  lemma HeaderOnlyIsNotEmpty(header: seq<string>)
    requires header != []
    ensures FromRows([header]).RowCount() == 0
    ensures !FromRows([header]).IsEmpty()
  {
  }
}
