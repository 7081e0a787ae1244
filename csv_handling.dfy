/**
 * The static helpers of CSVCombinedData: the job-number test, the job-number column heuristic,
 * the two row-existence searches and the format identifier of a header row.
 */
module CsvHandling {
  import opened CsvDocuments

  /** One position of the job-number pattern: an ASCII digit or one literal character. */
  datatype CharClass = Digit | Literal(literal: char)

  predicate ClassMatches(cc: CharClass, ch: char) {
    if cc.Digit? then '0' <= ch <= '9' else ch == cc.literal
  }

  /** The pattern ^[0-9]{9}CL: nine digits, then "CL"; there is no end anchor. */
  const JobNumberPattern: seq<CharClass> :=
    [Digit, Digit, Digit, Digit, Digit, Digit, Digit, Digit, Digit, Literal('C'), Literal('L')]

  /** Whether `s` starts with a match of `pattern`; what follows the match is not looked at. */
  function MatchesAtStart(s: string, pattern: seq<CharClass>): (r: bool)
    ensures r <==> |s| >= |pattern| && forall i :: 0 <= i < |pattern| ==> ClassMatches(pattern[i], s[i])
  {
    if pattern == [] then true
    else |s| > 0 && ClassMatches(pattern[0], s[0]) && MatchesAtStart(s[1..], pattern[1..])
  }

  /** isJobNumber: at least 11 characters, the first nine ASCII digits, then 'C' and 'L'. */
  function IsJobNumber(s: string): (r: bool)
    ensures r <==> |s| >= 11 && (forall i :: 0 <= i < 9 ==> '0' <= s[i] <= '9') && s[9] == 'C' && s[10] == 'L'
  {
    assert |JobNumberPattern| == 11;
    assert forall i :: 0 <= i < 9 ==> JobNumberPattern[i] == Digit;
    assert JobNumberPattern[9] == Literal('C') && JobNumberPattern[10] == Literal('L');
    MatchesAtStart(s, JobNumberPattern)
  }

  /** Without an end anchor, anything may follow a job number. */
  lemma JobNumberIgnoresSuffix(s: string, t: string)
    requires |s| >= 11
    ensures IsJobNumber(s + t) == IsJobNumber(s)
  {
    assert forall i :: 0 <= i < 11 ==> (s + t)[i] == s[i];
  }

  /** Nine digits followed by "CL" form a job number. */
  lemma DigitsThenCL(digits: string)
    requires |digits| == 9 && forall i :: 0 <= i < 9 ==> '0' <= digits[i] <= '9'
    ensures IsJobNumber(digits + "CL")
  {
    assert forall i :: 0 <= i < 9 ==> (digits + "CL")[i] == digits[i];
  }

  lemma JobNumberExample()
    ensures IsJobNumber("123456789CL")
  {
    DigitsThenCL("123456789");
    assert "123456789" + "CL" == "123456789CL";
  }

  lemma NotJobNumberExamples()
    ensures !IsJobNumber("12345678CL")
    ensures !IsJobNumber("123456789cl")
  {
    assert "12345678CL"[9] == 'L';
    assert "123456789cl"[9] == 'c';
  }

  /** The number of columns of `row` holding a job number. */
  function JobNumberCount(row: seq<string>): (n: nat)
    ensures n <= |row|
  {
    if row == [] then 0
    else JobNumberCount(row[..|row| - 1]) + (if IsJobNumber(row[|row| - 1]) then 1 else 0)
  }

  /** The column the scan remembers: the last one holding a job number, 0 if none does. */
  function LastJobNumberIndex(row: seq<string>): (i: nat)
    ensures row != [] ==> i < |row|
    ensures JobNumberCount(row) > 0 ==> i < |row| && IsJobNumber(row[i])
    ensures forall k :: i < k < |row| ==> !IsJobNumber(row[k])
  {
    if row == [] then 0
    else if IsJobNumber(row[|row| - 1]) then |row| - 1
    else LastJobNumberIndex(row[..|row| - 1])
  }

  /** Column `i` is the one and only column of `row` holding a job number. */
  predicate IsSingleJobNumberColumn(row: seq<string>, i: int) {
    && 0 <= i < |row|
    && IsJobNumber(row[i])
    && forall k :: 0 <= k < |row| && k != i ==> !IsJobNumber(row[k])
  }

  lemma {:induction false} NoJobNumber(row: seq<string>)
    ensures JobNumberCount(row) == 0 <==> forall k :: 0 <= k < |row| ==> !IsJobNumber(row[k])
  {
    if row != [] {
      var p := row[..|row| - 1];
      NoJobNumber(p);
      assert forall k :: 0 <= k < |p| ==> p[k] == row[k];
    }
  }

  lemma {:induction false} SingleColumnIffCountOne(row: seq<string>, i: int)
    ensures IsSingleJobNumberColumn(row, i) <==> JobNumberCount(row) == 1 && LastJobNumberIndex(row) == i
  {
    if row != [] {
      var n := |row| - 1;
      var p := row[..n];
      assert forall k :: 0 <= k < n ==> p[k] == row[k];
      if IsJobNumber(row[n]) {
        NoJobNumber(p);
      } else {
        SingleColumnIffCountOne(p, i);
        if IsSingleJobNumberColumn(row, i) {
          assert IsSingleJobNumberColumn(p, i);
        }
      }
    }
  }

  lemma SingleColumnCharacterization(row: seq<string>)
    ensures forall i :: IsSingleJobNumberColumn(row, i) <==> JobNumberCount(row) == 1 && LastJobNumberIndex(row) == i
  {
    forall i ensures IsSingleJobNumberColumn(row, i) <==> JobNumberCount(row) == 1 && LastJobNumberIndex(row) == i {
      SingleColumnIffCountOne(row, i);
    }
  }

  /**
   * findSingleJobNumberColumnIndex, as a value: only the first data row is inspected; the result is
   * the index of its unique job-number column, or -1 when there are no data rows or when no column
   * or more than one column holds a job number.
   */
  function SingleJobNumberColumnIndex(doc: CsvDocument): (r: int)
    ensures r == -1 || (doc.RowCount() > 0 && IsSingleJobNumberColumn(doc.data[0], r))
    ensures doc.RowCount() > 0 ==> forall i :: IsSingleJobNumberColumn(doc.data[0], i) ==> r == i
  {
    if doc.RowCount() <= 0 then -1
    else
      SingleColumnCharacterization(doc.data[0]);
      if JobNumberCount(doc.data[0]) == 1 then LastJobNumberIndex(doc.data[0]) else -1
  }

  /** findSingleJobNumberColumnIndex: the column scan over the first data row. */
  method FindSingleJobNumberColumnIndex(doc: CsvDocument) returns (r: int)
    ensures r == SingleJobNumberColumnIndex(doc)
  {
    if doc.RowCount() <= 0 {
      return -1;
    }
    var firstRow := doc.data[0];
    var singleJobNumberColumnIndex := 0;
    var foundJobNumberColumns := 0;
    var column := 0;
    while column < |firstRow|
      invariant 0 <= column <= |firstRow|
      invariant foundJobNumberColumns == JobNumberCount(firstRow[..column])
      invariant singleJobNumberColumnIndex == LastJobNumberIndex(firstRow[..column])
    {
      assert firstRow[..column + 1][..column] == firstRow[..column];
      if IsJobNumber(firstRow[column]) {
        singleJobNumberColumnIndex := column;
        foundJobNumberColumns := foundJobNumberColumns + 1;
      }
      column := column + 1;
    }
    assert firstRow[..column] == firstRow;
    r := if foundJobNumberColumns == 1 then singleJobNumberColumnIndex else -1;
  }

  /** Every data row of `doc` has a cell at `index`. */
  predicate KeyCellsPresent(doc: CsvDocument, index: int) {
    forall j :: 0 <= j < |doc.data| ==> 0 <= index < |doc.data[j]|
  }

  /** The scan of rowExistsInCSVDocumentRowJobNumberSearch, stopping at the first equal cell. */
  function AnyRowHasCell(rows: seq<seq<string>>, index: nat, cell: string): (found: bool)
    requires forall j :: 0 <= j < |rows| ==> index < |rows[j]|
    ensures found <==> exists j :: 0 <= j < |rows| && rows[j][index] == cell
  {
    if rows == [] then false
    else rows[0][index] == cell || AnyRowHasCell(rows[1..], index, cell)
  }

  /**
   * rowExistsInCSVDocumentRowJobNumberSearch: false when the row's width differs from that of the
   * document's first data row or the index is negative or beyond the row; otherwise whether some
   * data row has an equal cell at the index. The guard lets index == |row| through, where the
   * source would read past the row, so that case (and every scanned row having the cell) is required.
   */
  function RowExistsByJobNumber(row: seq<string>, doc: CsvDocument, jobNumberIndex: int): (found: bool)
    requires doc.RowCount() > 0
    requires |row| == |doc.data[0]| && 0 <= jobNumberIndex <= |row| ==>
               jobNumberIndex < |row| && KeyCellsPresent(doc, jobNumberIndex)
    ensures found <==>
      && |row| == |doc.data[0]|
      && 0 <= jobNumberIndex <= |row|
      && exists j :: 0 <= j < |doc.data| && doc.data[j][jobNumberIndex] == row[jobNumberIndex]
  {
    if |row| != |doc.data[0]| || jobNumberIndex < 0 || jobNumberIndex > |row| then false
    else AnyRowHasCell(doc.data, jobNumberIndex, row[jobNumberIndex])
  }

  /** The set of distinct cell values of a row (QSet built from the row). */
  function CellSet(row: seq<string>): set<string> {
    set c | c in row
  }

  /** Two rows hold the same cell values, ignoring order and repetition. */
  ghost predicate SameCells(a: seq<string>, b: seq<string>) {
    forall c :: c in a <==> c in b
  }

  lemma CellSetsEqual(a: seq<string>, b: seq<string>)
    ensures CellSet(a) == CellSet(b) <==> SameCells(a, b)
  {
    if CellSet(a) == CellSet(b) {
      forall c ensures c in a <==> c in b {
        assert c in a <==> c in CellSet(a);
        assert c in b <==> c in CellSet(b);
      }
    }
  }

  lemma CellSetsEqualIn(rows: seq<seq<string>>, row: seq<string>)
    ensures forall j :: 0 <= j < |rows| ==> (CellSet(rows[j]) == CellSet(row) <==> SameCells(rows[j], row))
  {
    forall j | 0 <= j < |rows| ensures CellSet(rows[j]) == CellSet(row) <==> SameCells(rows[j], row) {
      CellSetsEqual(rows[j], row);
    }
  }

  /** The scan of rowExistsInCSVDocumentRowHashSearch, stopping at the first equal cell set. */
  function AnyRowHasCellSet(rows: seq<seq<string>>, cells: set<string>): (found: bool)
    ensures found <==> exists j :: 0 <= j < |rows| && CellSet(rows[j]) == cells
  {
    if rows == [] then false
    else CellSet(rows[0]) == cells || AnyRowHasCellSet(rows[1..], cells)
  }

  /**
   * rowExistsInCSVDocumentRowHashSearch: whether some data row holds the same set of cell values
   * as `row`; a document without data rows never matches.
   */
  function RowExistsByCellSet(row: seq<string>, doc: CsvDocument): (found: bool)
    ensures found <==> exists j :: 0 <= j < |doc.data| && SameCells(doc.data[j], row)
    ensures doc.RowCount() == 0 ==> !found
  {
    CellSetsEqualIn(doc.data, row);
    AnyRowHasCellSet(doc.data, CellSet(row))
  }

  /** QStringList::join(""): the names one after another, with no separator. */
  function Concat(names: seq<string>): string {
    if names == [] then "" else names[0] + Concat(names[1..])
  }

  lemma {:induction false} ConcatEmpty(names: seq<string>)
    ensures Concat(names) == "" <==> forall k :: 0 <= k < |names| ==> names[k] == ""
  {
    if names != [] {
      ConcatEmpty(names[1..]);
      assert forall k :: 1 <= k < |names| ==> names[k] == names[1..][k - 1];
    }
  }

  /**
   * computeFormatIdentifier: the empty string for no headers, otherwise the digest of the
   * concatenated names. `hash` stands for SHA-256 of the UTF-8 bytes, hex-encoded.
   */
  function ComputeFormatIdentifier(hash: string -> string, headerNames: seq<string>): (id: string)
    ensures headerNames == [] ==> id == ""
    ensures headerNames != [] ==> id == hash(Concat(headerNames))
  {
    if headerNames == [] then "" else hash(Concat(headerNames))
  }

  /**
   * The identifier depends only on the concatenation, so header rows that split the same text
   * differently share it, whatever the digest.
   */
  lemma FormatIdentifierIgnoresSplit(hash: string -> string)
    ensures ComputeFormatIdentifier(hash, ["a", "bc"]) == ComputeFormatIdentifier(hash, ["ab", "c"])
  {
    assert Concat(["a", "bc"]) == "abc" by {
      assert ["a", "bc"][1..] == ["bc"];
      assert ["bc"][1..] == [];
    }
    assert Concat(["ab", "c"]) == "abc" by {
      assert ["ab", "c"][1..] == ["c"];
      assert ["c"][1..] == [];
    }
  }
}
