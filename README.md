# Arrival: CSV reconciliation core, modelled in Dafny

Arrival compares two CSV exports of a job list: an older ("first") document and a newer
("second") one. It produces one combined table. Each row is tagged:

- **Added**: present only in the second document;
- **Removed**: present only in the first document;
- **Remained**: present in both.

Two rows match by the cell in the single "job number" column (nine digits followed by `CL`)
when both documents agree on which column that is. Otherwise two rows match when they hold the
same set of cell values.

The combined table (`CSVCombinedData`) keeps these fields:

- the second document's header names;
- a format identifier (a digest of the concatenated header names);
- the tagged rows, ordered Added, Removed, Remained;
- a counter of new rows and a counter of removed rows.

Users can save named templates of selected columns (`SelectedHeadersTemplate`) as a JSON
array. Two Qt list/table models sit on top of a `JobTable` holder:

- `HeaderListModel` holds one "selected" flag per header and the list of selected column
  indices that follows those flags;
- `JobTableModel` shows a chosen list of columns.

The project models, module by module:

| module | file | models |
|---|---|---|
| `CsvDocuments` | `csv_document.dfy` | a CSV document as a header row and data rows |
| `CsvHandling` | `csv_handling.dfy` | the job-number test, the job-number column search, the two row searches and the format identifier |
| `Reconciliation` | `reconciliation.dfy` | what the reconciliation computes, as values, and its properties |
| `CombinedData` | `combined_data.dfy` | the `CSVCombinedData` class and `getCSVCombinedData`: its two loops and the sort (on an array) |
| `JobTableRows` | `job_table_row.dfy` | the row state enum, the combined row, counting rows by state |
| `JobTables` | `job_table.dfy` | the `JobTable` holder of a shared `CSVCombinedData` |
| `SelectedHeadersTemplates` | `selected_headers_template.dfy` | templates, their JSON object form and identifier generation |
| `SelectedHeadersTemplateLists` | `selected_headers_template_list.dfy` | the template list and its JSON array form |
| `HeaderSelection` | `header_selection.dfy` | the index-list update pass of the header model, as values |
| `HeaderListModels` | `header_list_model.dfy` | the `HeaderListModel` class |
| `JobTableModels` | `job_table_model.dfy` | the `JobTableModel` class |
| `Sequences`, `Wrappers` | `sequences.dfy`, `wrappers.dfy` | `QList` operations (`removeAt`, `removeOne`), `Option` and `Result` |

State that the source changes in place is modelled by classes with `modifies` clauses:

- `CSVCombinedData`, `JobTable`, `SelectedHeadersTemplateList`, `HeaderListModel` and `JobTableModel`;
- the sort, which works on an `array`.

Value types are datatypes: `CSVDocument`, `JobTableRow` and `SelectedHeadersTemplate`.

## Model

| member | source | states |
|---|---|---|
| CsvDocuments.FromRows | src/app/src/data/csvdocument.cpp:15-54 | No rows give the empty document. Otherwise the header row followed by the data rows is exactly the rows read. Row count is rows-1 and column count is the header width. A document is empty iff there were no rows or only an empty header row. |
| CsvDocuments.CsvDocument.At | src/app/src/data/csvdocument.cpp:56-59 | An in-range read of the stored cell: reading needs the row and column in range, and the value is one of that data row's cells. AtFromRows pins it to the cell of the rows read. |
| CsvDocuments.AtFromRows | src/app/src/data/csvdocument.cpp:35-53 | Cell (r, c) of a built document is cell c of read row r+1; the header row shifts data down by one. |
| CsvDocuments.HeaderOnlyIsNotEmpty | src/app/include/data/csvdocument.h:69-72 | A document with a non-empty header row and no data rows has zero rows but is not empty. |
| CsvHandling.MatchesAtStart | src/app/src/data/csvhandling.cpp:22-29 | The regular expression is unanchored at the end: a match needs exactly the first 11 characters to fit, and nothing after them is checked. |
| CsvHandling.IsJobNumber | src/app/src/data/csvhandling.cpp:22-29 | A cell is a job number iff it has at least 11 characters, the first nine are digits and the next two are `C`, `L`. |
| CsvHandling.JobNumberIgnoresSuffix | src/app/src/data/csvhandling.cpp:22-29 | Appending anything to a job number keeps it a job number. |
| CsvHandling.DigitsThenCL | src/app/src/data/csvhandling.cpp:22-29 | Any nine digits followed by `CL` form a job number. |
| CsvHandling.JobNumberExample | src/app/src/data/csvhandling.cpp:22-29 | `123456789CL` is a job number. |
| CsvHandling.NotJobNumberExamples | src/app/src/data/csvhandling.cpp:22-29 | Eight digits before `CL`, and nine digits followed by a lower-case `cl`, are not job numbers. |
| CsvHandling.JobNumberCount | src/app/src/data/csvhandling.cpp:43-52 | The number of job-number cells in a row is at most the row's length. |
| CsvHandling.NoJobNumber | src/app/src/data/csvhandling.cpp:43-56 | The scan counts no match iff no cell of the row is a job number. |
| CsvHandling.LastJobNumberIndex | src/app/src/data/csvhandling.cpp:43-52 | The remembered column lies within a non-empty row. When some cell matches, the column holds a job number, and no later column does. |
| CsvHandling.SingleColumnIffCountOne | src/app/src/data/csvhandling.cpp:31-57 | Column i is the only job-number column of a row iff the scan counts exactly one match and remembers i. Both directions are proved. |
| CsvHandling.SingleJobNumberColumnIndex | src/app/src/data/csvhandling.cpp:31-57 | The result is -1 or the unique job-number column of the first data row. When that row has a unique job-number column, the result is that column. |
| CsvHandling.FindSingleJobNumberColumnIndex | src/app/src/data/csvhandling.cpp:31-57 | The column scan with its counter returns the value of SingleJobNumberColumnIndex; the loop invariants tie the counter and the remembered index to the prefix scanned. |
| CsvHandling.AnyRowHasCell | src/app/src/data/csvhandling.cpp:67-74 | The linear scan finds a row iff some row's key cell equals the searched cell. |
| CsvHandling.RowExistsByJobNumber | src/app/src/data/csvhandling.cpp:59-78 | A row matches iff three things hold: its width equals that of the first data row, the index lies in 0..width (the guard's bound), and some data row has the same cell at the index. |
| CsvHandling.CellSetsEqual | src/app/src/data/csvhandling.cpp:80-94 | Two rows have equal cell sets iff every value of one occurs in the other; order and repetition do not matter. |
| CsvHandling.CellSetsEqualIn | src/app/src/data/csvhandling.cpp:80-94 | The same equivalence, for every row of a document at once. |
| CsvHandling.AnyRowHasCellSet | src/app/src/data/csvhandling.cpp:84-90 | The scan finds a row iff some row's cell set equals the searched set. |
| CsvHandling.RowExistsByCellSet | src/app/src/data/csvhandling.cpp:80-94 | A row matches iff some data row holds the same cell values (as sets). A document without data rows never matches. |
| CsvHandling.ConcatEmpty | src/app/src/data/csvhandling.cpp:96-109 | Joining the names gives "" iff every name is "". |
| CsvHandling.ComputeFormatIdentifier | src/app/src/data/csvhandling.cpp:96-109 | No headers give ""; otherwise the identifier is the digest of the names joined without separator. |
| CsvHandling.FormatIdentifierIgnoresSplit | src/app/src/data/csvhandling.cpp:96-109 | Header rows `a,bc` and `ab,c` share an identifier, whatever the digest. |
| JobTableRows.RowState.Value | src/app/include/data/jobtablerow.h:22-28 | Enumerator values lie in -1..2, and -1 is Invalid only. |
| JobTableRows.CountState | src/app/include/data/jobtablerow.h:32-36 | The count of rows in a state is at most the number of rows. |
| JobTableRows.CountStateAppend | src/app/src/data/csvhandling.cpp:220-228 | Counting by state distributes over concatenation. |
| JobTableRows.CountStateMultiset | src/app/src/data/csvhandling.cpp:216-218 | Two row lists with the same multiset have the same count for every state, so a sort keeps the counts. |
| Reconciliation.MatchingStrategy | src/app/src/data/csvhandling.cpp:141-149 | Matching by key is chosen iff both documents have the same single job-number column, never -1. The chosen column is then readable in the first data row of both. |
| Reconciliation.MatchingStrategySymmetric | src/app/src/data/csvhandling.cpp:141-149 | The choice of strategy does not depend on the order of the documents. |
| Reconciliation.Unmatched | src/app/src/data/csvhandling.cpp:158-214 | At most every row is unmatched. |
| Reconciliation.AddedOrRemained | src/app/src/data/csvhandling.cpp:158-185 | The first loop gives one record per second-document row. |
| Reconciliation.AddedOrRemainedRecords | src/app/src/data/csvhandling.cpp:158-185 | Record k holds row k's cells. It is Added or Remained, and Added iff row k has no match in the first document. |
| Reconciliation.AddedOrRemainedCounts | src/app/src/data/csvhandling.cpp:158-185 | The new-row counter equals the number of Added records. The rest are Remained, and none are Removed or Invalid. |
| Reconciliation.RemovedRecords | src/app/src/data/csvhandling.cpp:187-214 | The second loop gives exactly as many records as there are unmatched first-document rows, all Removed. |
| Reconciliation.RemovedRecordsAreUnmatchedRows | src/app/src/data/csvhandling.cpp:187-214 | Every Removed record copies an unmatched first-document row. Every unmatched row appears as a Removed record. |
| Reconciliation.AllSearchableFromKeyCells | src/app/src/data/csvhandling.cpp:158-214 | If the key cells can be read, every row of either document can be looked up in the other. |
| Reconciliation.CountStatesSum | src/app/include/data/jobtablerow.h:22-28 | The counts of the four states add up to the number of rows. |
| Reconciliation.CountStateAllSame | src/app/src/data/csvhandling.cpp:187-214 | Rows all in one state count fully there and zero elsewhere. |
| Reconciliation.AccumulatedCounts | src/app/src/data/csvhandling.cpp:158-228 | In the accumulated records, the counters equal the Added and the Removed counts. No record is Invalid. Remained rows are the second document's rows minus the Added ones. The total is second rows plus removed rows. |
| Reconciliation.AccumulatedShape | src/app/src/data/csvhandling.cpp:158-214 | The first |second| records copy the second document's rows in order and are Added or Remained; every later record is Removed. |
| Reconciliation.AllMatchedWhenPresent | src/app/src/data/csvhandling.cpp:158-214 | Rows that all have a match leave nothing unmatched. |
| Reconciliation.RowFindsItself | src/app/src/data/csvhandling.cpp:59-94 | Under either strategy, a row of a document matches that same document. |
| Reconciliation.SelfComparison | src/app/src/data/csvhandling.cpp:121-228 | Reconciling a non-empty, uniform-width document with itself passes both checks. Nothing is Added or Removed, and every record is Remained. |
| Reconciliation.SwapExchangesCounts | src/app/src/data/csvhandling.cpp:121-228 | Swapping the documents exchanges the new-row and removed-row counts. |
| CombinedData.CsvCombinedData.constructor | src/app/include/data/csvhandling.h:95-103 | A new combined table has no headers, no rows, zero counters and an empty identifier. |
| CombinedData.CsvCombinedData.Filled | src/app/src/data/csvhandling.cpp:220-228 | The result table holds exactly the identifier, headers, rows and counters it is given. |
| CombinedData.CsvCombinedData.HeaderHash | src/app/include/data/csvhandling.h:105-118 | headerHash agrees with computeFormatIdentifier on the held headers; no headers give "". |
| CombinedData.CsvCombinedData.Clear | src/app/src/data/csvhandling.cpp:252-261 | Headers and rows are emptied and both counters zeroed. The format identifier is kept. |
| CombinedData.Swap | src/app/src/data/csvhandling.cpp:216-218 | Two cells are exchanged and the contents stay a permutation. |
| CombinedData.BandsSorted | src/app/src/data/csvhandling.cpp:216-218 | Once no unexamined band remains, the rows are sorted by state value. |
| CombinedData.PlaceOne | src/app/src/data/csvhandling.cpp:216-218 | One partition step keeps the Added/Removed/unexamined/Remained bands. It shrinks the unexamined band and keeps a permutation. |
| CombinedData.SortByState | src/app/src/data/csvhandling.cpp:216-218 | In place on the array, rows end non-decreasing by state value and are a permutation of the input. |
| CombinedData.SortRecords | src/app/src/data/csvhandling.cpp:216-218 | The sorted list is ordered by state, a permutation of the input, and has the same count for every state. |
| CombinedData.LookUpRow | src/app/src/data/csvhandling.cpp:162-171 | The cell-set search under the fallback, or the key search otherwise, reports exactly whether the row has a match. |
| CombinedData.CollectAddedOrRemained | src/app/src/data/csvhandling.cpp:158-185 | The first loop builds exactly the Added/Remained records, and its counter is the number of unmatched second-document rows. |
| CombinedData.CollectRemoved | src/app/src/data/csvhandling.cpp:187-214 | The second loop builds exactly the Removed records, and its counter is the number of unmatched first-document rows. |
| CombinedData.GetCsvCombinedData | src/app/src/data/csvhandling.cpp:121-250 | See the note below the table. |
| JobTables.JobTable.constructor | src/app/src/data/jobtable.cpp:9-13 | A new holder has no data. |
| JobTables.JobTable.RowCount | src/app/include/data/jobtable.h:56-63 | 0 without data, else the combined row count. |
| JobTables.JobTable.ColumnCount | src/app/include/data/jobtable.h:69-76 | 0 without data, else the number of header names. |
| JobTables.JobTable.NewAddedCount | src/app/include/data/jobtable.h:82-89 | 0 without data, else the new-row counter. |
| JobTables.JobTable.RemovedCount | src/app/include/data/jobtable.h:95-102 | 0 without data, else the removed-row counter. |
| JobTables.JobTable.HeaderNames | src/app/include/data/jobtable.h:108-115 | Empty without data, else the held header names. |
| JobTables.JobTable.FormatIdentifier | src/app/include/data/jobtable.h:121-128 | "" without data, else the held identifier. |
| JobTables.JobTable.ClearTable | src/app/src/data/jobtable.cpp:42-64 | Afterwards the holder has no data and every getter reports nothing. The previously shared data is cleared in place, keeping its identifier. |
| JobTables.JobTable.SetTableData | src/app/src/data/jobtable.cpp:15-40 | See the note below the table. |
| JobTables.ClearIsSharedWithOtherHolders | src/app/src/data/jobtable.cpp:42-64 | Clearing one holder empties the data every other holder of the same data sees: zero counts, no headers. |
| SelectedHeadersTemplates.Default | src/app/src/data/selectedheaderstemplate.cpp:15-19 | The default template has every field empty. |
| SelectedHeadersTemplates.GenerateUniqueIdentifierFromHeaderList | src/app/src/data/selectedheaderstemplate.cpp:96-115 | No names fail with ListEmpty; all-empty names fail with StringsEmpty. It succeeds iff some name is non-empty, and then gives computeFormatIdentifier's value. |
| SelectedHeadersTemplates.FromHeaderNames | src/app/src/data/selectedheaderstemplate.cpp:27-47 | Name and indices are stored as given. The identifier is the format identifier when some name is non-empty, else "". |
| SelectedHeadersTemplates.EmptyNamesIdentifiersDiffer | src/app/src/data/selectedheaderstemplate.cpp:27-47 | For names `"",""` the format identifier is the digest of "", while a template built from them gets "". |
| SelectedHeadersTemplates.Equals | src/app/include/data/selectedheaderstemplate.h:110-113 | operator== holds iff the templates are the same value. |
| SelectedHeadersTemplates.NotEquals | src/app/include/data/selectedheaderstemplate.h:115-118 | operator!= is the negation of operator== and of value equality. |
| SelectedHeadersTemplates.ToInt | src/app/src/data/selectedheaderstemplate.cpp:85 | A number in the 32-bit range converts to itself; anything else converts to 0. |
| SelectedHeadersTemplates.ElementRejected | src/app/src/data/selectedheaderstemplate.cpp:81-84 | The element check never rejects. |
| SelectedHeadersTemplates.DecodeIndices | src/app/src/data/selectedheaderstemplate.cpp:74-87 | One index per array element, in order, each the element's toInt. |
| SelectedHeadersTemplates.DecodeTemplate | src/app/src/data/selectedheaderstemplate.cpp:49-94 | ParseError iff "headerId" or "templateName" is missing or not a string, or "indices" is missing or not an array. On success the fields are the strings read. The indices are DecodeIndices of the array: one per element, in array order, each the element's toInt. |
| SelectedHeadersTemplates.FromJson | src/app/src/data/selectedheaderstemplate.cpp:49-94 | The field checks and the element loop compute DecodeTemplate. |
| SelectedHeadersTemplates.EncodeIndices | src/app/src/data/selectedheaderstemplate.cpp:117-131 | One number per index, in order. |
| SelectedHeadersTemplates.EncodeTemplate | src/app/src/data/selectedheaderstemplate.cpp:117-131 | The object holds the identifier and name strings and the index array under the three key names. |
| SelectedHeadersTemplates.EncodedKeys | src/app/include/data/selectedheaderstemplate.h:30-32 | toJson writes exactly the three distinct keys. |
| SelectedHeadersTemplates.ToJson | src/app/src/data/selectedheaderstemplate.cpp:117-131 | The loop building the index array computes EncodeTemplate. |
| SelectedHeadersTemplates.DecodeEncodeIndices | src/app/src/data/selectedheaderstemplate.cpp:74-87 | Decoding encoded indices gives them back. |
| SelectedHeadersTemplates.RoundTrip | src/app/src/data/selectedheaderstemplate.cpp:49-131 | fromJson(toJson(t)) succeeds with t. |
| SelectedHeadersTemplates.DecodeErrors | src/app/src/data/selectedheaderstemplate.cpp:54-91 | Each of these fails with ParseError: the empty object, a missing identifier, a numeric name, and a string in place of the index array. |
| SelectedHeadersTemplates.DecodeIndicesExample | src/app/src/data/selectedheaderstemplate.cpp:74-87 | Strings, null and out-of-range numbers decode to 0; no element is skipped. |
| SelectedHeadersTemplateLists.DocumentArray | src/app/src/data/selectedheaderstemplatelist.cpp:89 | An array document gives its elements; an object document gives none. |
| SelectedHeadersTemplateLists.ParseTemplates | src/app/src/data/selectedheaderstemplatelist.cpp:86-106 | Loading keeps at most one template per element. |
| SelectedHeadersTemplateLists.EncodeTemplates | src/app/src/data/selectedheaderstemplatelist.cpp:34-38 | Saving writes one object per template, in order. |
| SelectedHeadersTemplateLists.ParseEncodeTemplates | src/app/src/data/selectedheaderstemplatelist.cpp:26-110 | Loading the array that saving wrote gives back the same templates. |
| SelectedHeadersTemplateLists.ParseTemplatesSkips | src/app/src/data/selectedheaderstemplatelist.cpp:90-106 | A number element and an object without fields are skipped; a valid template object is kept. |
| SelectedHeadersTemplateLists.SelectedHeadersTemplateList.constructor | src/app/src/data/selectedheaderstemplatelist.cpp:17-19 | A new list is empty. |
| SelectedHeadersTemplateLists.SelectedHeadersTemplateList.GetTemplateIndices | src/app/src/data/selectedheaderstemplatelist.cpp:21-24 | The indices of the entry at an existing position. |
| SelectedHeadersTemplateLists.SelectedHeadersTemplateList.AppendItem | src/app/src/data/selectedheaderstemplatelist.cpp:120-125 | The template is appended and earlier entries stay. |
| SelectedHeadersTemplateLists.SelectedHeadersTemplateList.AddNewTemplate | src/app/src/data/selectedheaderstemplatelist.cpp:112-118 | Appends the template holding exactly the given identifier, name and indices. |
| SelectedHeadersTemplateLists.SelectedHeadersTemplateList.RemoveItemAt | src/app/src/data/selectedheaderstemplatelist.cpp:127-139 | An index out of range changes nothing; otherwise exactly that entry goes and the others keep their order. |
| SelectedHeadersTemplateLists.SelectedHeadersTemplateList.RemoveItem | src/app/src/data/selectedheaderstemplatelist.cpp:141-156 | Removes the first equal entry and keeps the rest in order. The list is unchanged when no entry is equal; otherwise it is one shorter. |
| SelectedHeadersTemplateLists.SelectedHeadersTemplateList.ClearList | src/app/src/data/selectedheaderstemplatelist.cpp:158-163 | No entries remain. |
| SelectedHeadersTemplateLists.SelectedHeadersTemplateList.SaveToJson | src/app/src/data/selectedheaderstemplatelist.cpp:34-39 | The loop writes the array of the entries' JSON objects, in list order. |
| SelectedHeadersTemplateLists.SelectedHeadersTemplateList.LoadFromJson | src/app/src/data/selectedheaderstemplatelist.cpp:51-110 | An empty name, a missing file, a failed open or a null document leaves the list unchanged. Otherwise the list becomes the templates parsed from the array. |
| SelectedHeadersTemplateLists.SaveThenLoad | src/app/src/data/selectedheaderstemplatelist.cpp:26-110 | Loading what saving wrote restores the list exactly. |
| Sequences.RemoveAt | src/app/src/data/selectedheaderstemplatelist.cpp:127-139 | One entry shorter; entries before i are kept and later ones move down by one. |
| Sequences.FirstIndexOf | src/app/src/data/selectedheaderstemplatelist.cpp:141-156 | The position holds the value and no earlier position does. |
| Sequences.RemoveFirstAppend | src/app/src/ui/headerlistmodel.cpp:103-118 | removeOne of a value found in the front part leaves the back part untouched. |
| HeaderSelection.Kept | src/app/src/ui/headerlistmodel.cpp:103-118 | The surviving entries are never more than the list had. |
| HeaderSelection.NewlySelected | src/app/src/ui/headerlistmodel.cpp:103-118 | Newly listed positions lie below the number of positions handled. |
| HeaderSelection.KeptMembers | src/app/src/ui/headerlistmodel.cpp:103-118 | An entry survives iff it was listed and its flag was not found cleared. |
| HeaderSelection.NewlySelectedMembers | src/app/src/ui/headerlistmodel.cpp:103-118 | A position is newly listed iff it is handled, selected and was not listed. |
| HeaderSelection.KeptNoDuplicates | src/app/src/ui/headerlistmodel.cpp:103-118 | Survivors of a duplicate-free list are duplicate-free. |
| HeaderSelection.NewlySelectedNoDuplicates | src/app/src/ui/headerlistmodel.cpp:103-118 | Newly listed positions are duplicate-free. |
| HeaderSelection.KeptDeselected | src/app/src/ui/headerlistmodel.cpp:111-114 | On a duplicate-free list, clearing a listed flag removes exactly its first copy from the survivors. |
| HeaderSelection.SyncStepKeptThenNew | src/app/src/ui/headerlistmodel.cpp:105-115 | One loop step keeps the closed form: survivors in order, then newly selected positions in increasing order. |
| HeaderSelection.SyncUpToIsKeptThenNew | src/app/src/ui/headerlistmodel.cpp:103-118 | On a duplicate-free list, the pass over positions 0..n-1 gives the survivors in their order, then the newly selected positions in increasing order. |
| HeaderSelection.SyncedIsConsistent | src/app/src/ui/headerlistmodel.cpp:103-118 | On a duplicate-free list, after the pass a position is listed iff its flag is set. Entries outside the flag range stay as they were, and nothing is repeated. |
| HeaderSelection.DocumentedExample | src/app/include/ui/headerlistmodel.h:141-149 | From no indices, flags `false,true,false,false,true` give `[1, 4]`. |
| HeaderSelection.StaleDuplicate | src/app/src/ui/headerlistmodel.cpp:111-114 | A repeated index loses one copy only: `[1, 1]` with cleared flags gives `[1]`. |
| HeaderListModels.NoneSelected | src/app/src/ui/headerlistmodel.cpp:157-170 | n default flags, all cleared. |
| HeaderListModels.AgreeIsFixed | src/app/src/ui/headerlistmodel.cpp:103-118 | When flags and indices already agree, the pass changes nothing. |
| HeaderListModels.SyncedAgrees | src/app/src/ui/headerlistmodel.cpp:103-118 | After the pass over a duplicate-free, in-range list, flags and indices agree and nothing is repeated. |
| HeaderListModels.NoneSelectedSyncsToEmpty | src/app/src/ui/headerlistmodel.cpp:157-170 | From no indices, all-cleared flags give no indices. |
| HeaderListModels.HeaderListModel.constructor | src/app/src/ui/headerlistmodel.cpp:14-18 | A new model has no table, no flags and no indices. |
| HeaderListModels.HeaderListModel.RowCount | src/app/src/ui/headerlistmodel.cpp:20-28 | 0 for a valid parent or without data, else the number of header names. |
| HeaderListModels.HeaderListModel.Data | src/app/src/ui/headerlistmodel.cpp:30-47 | See the note below the table. |
| HeaderListModels.HeaderListModel.UpdateSelectedHeaderIndices | src/app/src/ui/headerlistmodel.cpp:103-118 | The loop computes Synced (whose meaning the HeaderSelection lemmas give); the flags and table are unchanged. |
| HeaderListModels.HeaderListModel.SetData | src/app/src/ui/headerlistmodel.cpp:67-101 | See the note below the table. |
| HeaderListModels.HeaderListModel.SetSelectedHeaders | src/app/src/ui/headerlistmodel.cpp:176-188 | The flags are replaced and the indices follow them. |
| HeaderListModels.HeaderListModel.SetSelectedHeaderIndices | src/app/src/ui/headerlistmodel.cpp:190-212 | The indices are stored as given, the flag count stays, and afterwards a flag is set iff its position is listed. |
| HeaderListModels.HeaderListModel.PreTableReset | src/app/src/ui/headerlistmodel.cpp:149-155 | Flags and indices are dropped. |
| HeaderListModels.HeaderListModel.PostTableReset | src/app/src/ui/headerlistmodel.cpp:157-170 | One cleared flag is appended per table column, then the indices follow the flags. |
| HeaderListModels.HeaderListModel.SetJobTable | src/app/src/ui/headerlistmodel.cpp:135-174 | A null table or the table already held changes nothing; another table is taken and the flags are kept. |
| HeaderListModels.ReloadTable | src/app/src/ui/headerlistmodel.cpp:149-170 | When the table's data changes, every new header starts unselected and no index is listed. The same data changes nothing. |
| HeaderListModels.SelectThenRead | src/app/src/ui/headerlistmodel.cpp:67-118 | See the note below the table. |
| JobTableModels.JobTableModel.constructor | src/app/src/ui/jobtablemodel.cpp:13-17 | A new model has no table and shows no column. |
| JobTableModels.JobTableModel.RowCount | src/app/src/ui/jobtablemodel.cpp:19-26 | 0 without data, else the table's row count. |
| JobTableModels.JobTableModel.ColumnCount | src/app/src/ui/jobtablemodel.cpp:28-31 | The number of shown columns. |
| JobTableModels.JobTableModel.MapColumnIndex | src/app/src/ui/jobtablemodel.cpp:38-41 | An in-range read of the shown-column list: the index must be a view column, and the result is one of the shown columns (the entry at that position). |
| JobTableModels.JobTableModel.RowState | src/app/src/ui/jobtablemodel.cpp:48-56 | Invalid without data or out of range, else the row's state. |
| JobTableModels.JobTableModel.HeaderData | src/app/src/ui/jobtablemodel.cpp:58-71 | See the note below the table. |
| JobTableModels.JobTableModel.Data | src/app/src/ui/jobtablemodel.cpp:73-87 | See the note below the table. |
| JobTableModels.JobTableModel.SetJobTable | src/app/src/ui/jobtablemodel.cpp:99-134 | The table is taken, no column is shown, and shown columns are valid. |
| JobTableModels.JobTableModel.SetColumnsToShow | src/app/src/ui/jobtablemodel.cpp:136-168 | See the note below the table. |
| JobTableModels.JobTableModel.PreTableReset | src/app/src/ui/jobtablemodel.cpp:119-125 | No column is shown. |
| JobTableModels.HeaderDataInRange | src/app/src/ui/jobtablemodel.cpp:58-71 | With valid shown columns, every shown column's header name can be read. |
| JobTableModels.DataInRange | src/app/src/ui/jobtablemodel.cpp:73-87 | With valid shown columns and a full-width row, every shown cell can be read. |
| JobTableModels.ReloadTable | src/app/src/ui/jobtablemodel.cpp:99-134 | When the table's data changes, no column is shown. The same data changes nothing. Either way the shown columns stay valid. |

Notes on the rows that point here:

- **CombinedData.GetCsvCombinedData** (`csvhandling.cpp:121-250`):
  - Two empty documents fail with BothEmpty; this is checked first.
  - Different column counts fail with DifferentFormat.
  - It succeeds iff neither check fails.
  - On success it holds:
    - the second document's headers, and the digest of them as its identifier (headerHash agrees with it);
    - a permutation of the accumulated records, sorted by state;
    - counters equal to the numbers of Added and of Removed records;
    - second-document rows plus removed rows;
    - Remained records equal to the second document's rows minus the new ones.
- **JobTables.JobTable.SetTableData** (`jobtable.cpp:15-40`):
  - Passing the data already held changes nothing.
  - Null clears the shared data in place, as clearTable does.
  - Other data replaces the held data, leaving the old one untouched.
- **HeaderListModels.HeaderListModel.Data** (`headerlistmodel.cpp:30-47`):
  - An invalid index or a model that is not ready gives an empty variant.
  - A row outside the headers or the flags is an out-of-range read.
  - Otherwise the selected role gives the flag, the name role gives the header name, and other roles give an empty variant.
- **HeaderListModels.HeaderListModel.SetData** (`headerlistmodel.cpp:67-101`):
  - It reports a change iff: the index is valid, the model is ready, the role is the selected role, and the value differs.
  - Without a change, nothing changes.
  - With a change, exactly that flag changes and the indices follow the flags.
- **HeaderListModels.SelectThenRead** (`headerlistmodel.cpp:67-118`):
  - The starting flags and indices agree and are duplicate-free.
  - After selecting or deselecting a header: it is listed iff it is selected, reading the flag back gives the value, and agreement and duplicate-freedom are kept.
- **JobTableModels.JobTableModel.HeaderData** (`jobtablemodel.cpp:58-71`):
  - The guards (no data, a section out of range, no column shown) give "".
  - Any role other than the display role, or the vertical orientation, gives "".
  - An out-of-range read happens iff the horizontal display role names a section or mapped column outside the lists.
  - Otherwise, for the horizontal display role, the text is the header name of the column shown at that section.
- **JobTableModels.JobTableModel.Data** (`jobtablemodel.cpp:73-87`):
  - The guards give "".
  - Any role other than the display role gives "".
  - An out-of-range read happens iff the display role hits a column or cell outside the lists.
  - Otherwise, for the display role, the text is the row's cell at the mapped column.
- **JobTableModels.JobTableModel.SetColumnsToShow** (`jobtablemodel.cpp:136-168`):
  - An equal list changes nothing.
  - With data, a list holding a column outside the table is refused.
  - Otherwise the list is stored as given.
  - Shown columns stay valid.

## Left out

- The SHA-256 hex digest is a parameter `hash: string -> string`, treated as an uninterpreted function. No property of the digest itself (collision resistance, length, hex form) is modelled.
- The CSV reader and file access of the `CSVDocument` constructor are not modelled. A document is built by `FromRows` from already-split rows.
- Header-name indices (`ARRIVAL_CSVDOCUMENT_SUPPORTS_HEADER_INDICES`) are not modelled; the switch is off in the source.
- `CSVDocument` stores its row and column counts. The model derives them from the data: the constructor always sets them that way and nothing changes them afterwards.
- File handling in `saveToJson`/`loadFromJson` is abstracted:
  - opening, reading, writing and JSON text parsing are not modelled;
  - `LoadFromJson` takes the outcome of those steps as a `LoadOutcome` value;
  - `SaveToJson` returns the document it would write.
- `addNewTemplate`, `removeItemAt` and `removeItem` also re-save the list to the template file. That write is not modelled.
- JSON numbers are integers: fractional numbers and the double conversion are not modelled. The element check in `fromJson` is therefore proved never to reject, which holds for non-number elements in the source as well.
- Qt signals, connections, `beginResetModel`/`endResetModel`, `dataChanged`, `roleNames` and `flags` are not modelled, nor are the threads and minimum execution time around the reconciliation. A reset that follows a table change is modelled by `ReloadTable`, which calls the pre- and post-reset steps in the order the connections run them.
- `JobTableModel`'s post-reset handler only ends the model reset, so it has no model counterpart.
- `appmodel`, `app` and `selectedheaderstemplatemodel` are not part of this model.
- Trivial getters are not modelled separately: `jobTable()`, `columns()`, `headerNames()` and `data()` of `CSVDocument`. Their fields are read directly.
- Counters and row indices are unbounded integers. The source's 32-bit `int` cannot overflow on a table that fits in memory, so wrap-around is not modelled (template indices are the exception: `Int32`).
- Reconciliation.MatchingStrategy: the flag and column index of the source are one `Strategy` value. `CombinedData.LookUpRow` and the two collecting loops take the source's flag and index as well, and require them to agree with the strategy.
- CombinedData.SortByState: `std::sort` is modelled by a three-way partition. Both sort by the state value and give a permutation. Neither is stable, so the order within one state is not fixed by either.
- CsvHandling.RowExistsByJobNumber: reading the key cell of a row without one is undefined in the source. The model requires every data row of the searched document to have the key cell (`KeyCellsPresent`), a little more than the rows scanned before a match.
- CombinedData.GetCsvCombinedData: the key-cell requirement above is its only precondition. It does not state `fresh` of the result.
- JobTableModels.JobTableModel.Data: an out-of-range `at()` (undefined behaviour in Qt) is the `OutOfRange` outcome rather than a precondition. The same holds for `HeaderData` and `HeaderListModels.HeaderListModel.Data`.
- HeaderListModels.HeaderListModel.SetData: requires the row to be within the flags when the role is the selected role on a ready model. The source indexes the flag list there without a bounds check.
- HeaderListModels.HeaderListModel.SetSelectedHeaderIndices: requires each index to be a flag position. The source writes the flag with an unchecked index.
- HeaderListModels.HeaderListModel.PostTableReset: requires a table, as the source dereferences it.
- HeaderSelection.SyncedIsConsistent: the iff between flags and indices is proved only for duplicate-free lists. With repeated indices it does not hold: `removeOne` drops one copy, which `StaleDuplicate` exhibits.
