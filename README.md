# Excel/CSV merger: the column-reconciliation and merge pipeline

This project models the core of `ExcelCSVMergerApp` (`src/neutralino/index.ts`),
a desktop tool. The tool:

- loads several CSV and Excel files;
- finds the column names they all share;
- stacks every file's data rows under those shared columns;
- exports the result as CSV.

With the window, dialogs and file system removed, what remains is a set of
string and sequence algorithms over one piece of mutable state.

Each algorithm is modelled in the form the source gives it:

- **Line splitter** (`parseCSVLine`): modelled as a quote-aware character
  loop (`CsvLine.ParseLine`). It is proved equal to a declarative
  definition, `CsvLine.Fields`, which cuts the line at every comma preceded
  by an even number of quotes, drops the quotes and trims each field.
- **CSV reader** (`readCSV` / `readCSVFromBuffer`): splits the text on
  `\n` and drops blank lines. It parses every line, then cleans the first
  row into the column names (`CsvReader.ReadCsv`, `CsvReader.ParseRows`).
- **Worksheet reader**: reduced to its rule, "no rows is an error; otherwise
  the columns are the cleaned first row" (`CsvReader.SheetTable`). The
  decoded sheet is an input.
- **Column-name cleaner** (`cleanColumnName`): a trim, three regex rewrites
  and the `Unnamed_Column` fallback, as functions (`ColumnName`).
- **Extension filter and record building** (`processFilePath(s)` /
  `processFile(s)`): modelled as functions over a `Source` (a dialog path or
  a dropped file) and its `Content`. `Loading.ProcessFile` is the method
  form.
- **Column analysis** (`analyzeColumns`): a set intersection by repeated
  filtering, then the default string sort (`Analysis`, `Ordering`).
- **Merge** (`mergeFilesData` and the loaded filter of `mergeFiles`):
  functions, with nested-loop methods proved equal to them (`Merge`).
- **CSV serializer** (`exportToCSV`): functions (`CsvWriter`). Lemmas state
  what the line splitter makes of the exported text.
- **Removal** (`removeSelectedFile`): sorts the checked positions highest
  first, then applies `splice(index, 1)` to each in turn (`Removal`).
- **Registry**: the fields `uploadedFiles`, `sharedColumns` and
  `mergedData` are the class `Registry.MergerApp`. Its methods `AddFiles`,
  `Admit`, `AnalyzeColumns`, `MergeFiles` and `RemoveSelected` update the
  fields in place and keep the invariant `Valid()`; `ExportCsv` only reads
  `mergedData`. The invariant says
  that every record is well formed, and that the shared columns are clean
  names in strictly ascending order.
- **Examples** (`Scenario`): a few worked examples.

Cells are `Text`, `Num` (carrying the text `String(n)` gives), `Bool` or
`Undefined`. `String(cell)` is `Cells.Show`, and JavaScript falsiness is
`Cells.IsFalsy`. Whitespace (`trim`, `\s`) is the full ECMAScript
WhiteSpace and LineTerminator set.

Behaviour of the code a reader may not expect:

- **Analysis with no files** returns early, so `sharedColumns` is left as it
  was. It does not become empty.
- **Analysis uses every uploaded file**, without filtering on status. The
  loaders only ever build `loaded` records.
- **Quotes are lost on re-import.** The export doubles every inner quote.
  The line splitter never reads `""` back as `"`; it drops every quote. So
  a cell holding `"` does not survive export and re-import
  (`CsvWriter.QuoteInCellLost`). Also, a cell with leading or trailing
  whitespace comes back trimmed. The round trip holds exactly for cells
  without quotes, newlines or surrounding whitespace
  (`CsvWriter.RowRoundTripExact`).
- **Removal keeps the merge result.** `removeSelectedFile` clears
  `sharedColumns` but not `mergedData`.
- **A file named `csv` is accepted.** `split('.').pop()` of a name without
  a dot is the whole name, so the extension filter accepts a file named
  exactly `csv` (`Loading.BareNameIsItsOwnExtension`).

## Model

| member | source | states |
|---|---|---|
| CsvLine.ParseLine | src/neutralino/index.ts:347-367 | The character loop returns exactly `Fields(line)`: the pieces between the commas seen outside quotes, with quotes removed and each piece trimmed |
| CsvLine.FieldsShape | src/neutralino/index.ts:347-367 | There is one field more than there are commas outside quotes; no field contains `"` and every field is trimmed |
| CsvLine.PiecesCount | src/neutralino/index.ts:357-365 | The raw pieces number one more than the separating commas |
| CsvLine.PiecesJoin | src/neutralino/index.ts:352-363 | Joining the raw pieces with `,` gives the line back: only separating commas are consumed |
| CsvLine.QuotedFieldKeepsCommas | src/neutralino/index.ts:355-359 | A comma inside a quoted span does not split: `a,"b",d` (with `b` free of quotes) has exactly the three pieces `a`, `"b"` and `d` |
| CsvLine.QuotedMiddleField | src/neutralino/index.ts:347-367 | Such a line yields the fields `[a, b, d]`, with the quotes around `b` gone and its commas kept |
| CsvLine.DropQuotesNoQuote | src/neutralino/index.ts:355-356 | Quotes toggle the state and are never appended, so no quote remains |
| Scenario.QuotedCommaStaysInField | src/neutralino/index.ts:347-367 | `a,"b,c",d` yields `["a", "b,c", "d"]` |
| Strings.Trim | src/neutralino/index.ts:358 | `trim()` gives a string with no leading or trailing whitespace, and leaves a trimmed string unchanged |
| Strings.TrimEmpty | src/neutralino/index.ts:270 | A line trims to `''` exactly when every character is whitespace |
| Strings.TrimStartDropsSpaces | src/neutralino/index.ts:374 | Trimming the start drops a prefix made only of whitespace and keeps the rest |
| Strings.TrimEndDropsSpaces | src/neutralino/index.ts:374 | Trimming the end drops a suffix made only of whitespace and keeps the rest |
| Strings.JoinSplit | src/neutralino/index.ts:270 | Splitting on a separator and joining the pieces with it gives the text back |
| Strings.SplitJoin | src/neutralino/index.ts:270 | Splitting the join of separator-free pieces gives the pieces back |
| Strings.SplitPiecesFree | src/neutralino/index.ts:270 | No piece of a split contains the separator |
| Strings.LastPieceIsLastOfSplit | src/neutralino/index.ts:160 | The text after the last separator is what `split(sep).pop()` returns |
| Strings.ToLowerAscii | src/neutralino/index.ts:160 | Lower-casing keeps the length, maps each upper-case ASCII letter to its lower-case letter (code point plus 32) and changes nothing else |
| CsvReader.ReadCsv | src/neutralino/index.ts:290-310 | The reader returns exactly `CsvTable(text)` |
| CsvReader.ParseRows | src/neutralino/index.ts:279-285 | The `forEach` yields one parsed row per kept line, in order, and the cleaned fields of the first line as the columns |
| CsvReader.CsvTableShape | src/neutralino/index.ts:268-288 | Reading fails with `Empty CSV file` exactly when every line is blank. Otherwise there is one row per non-blank line, header included and in order, and one clean column name per header field, each the cleaned field |
| CsvReader.NonBlankKeeps | src/neutralino/index.ts:270 | The filter keeps only non-blank lines of the input, and keeps none exactly when all are blank |
| CsvReader.NonBlankAppend | src/neutralino/index.ts:270 | The filter works line by line: filtering a concatenation concatenates the filtered parts, so order is kept |
| CsvReader.NonBlankKeepsAll | src/neutralino/index.ts:270 | Text without blank lines keeps every line |
| CsvReader.SheetTable | src/neutralino/index.ts:312-327 | A sheet without rows is `Empty Excel file`. Otherwise the data is the sheet's rows and the columns are its first row, each cleaned |
| ColumnName.CleanColumnName | src/neutralino/index.ts:369-380 | The result is always a non-empty string of ASCII letters, digits, `_` and `-`. A falsy cell (`''`, `0`, `NaN`, `false`, `undefined`) gives `Unnamed_Column` |
| ColumnName.CleanText | src/neutralino/index.ts:374-379 | The rewritten text is a clean name, or `Unnamed_Column` when the rewriting leaves nothing |
| ColumnName.CleanColumnNameIdempotent | src/neutralino/index.ts:369-380 | Cleaning a cleaned name again changes nothing |
| ColumnName.CleanColumnNameFixedPoints | src/neutralino/index.ts:369-380 | Cleaning leaves a text unchanged exactly when it already is a clean name |
| ColumnName.CleanTextKeepsSignificant | src/neutralino/index.ts:374-379 | When the text holds any letter, digit or hyphen, cleaning keeps all of them, in order, and adds none |
| ColumnName.SignificantCollapse | src/neutralino/index.ts:375 | Collapsing whitespace runs keeps every letter, digit and hyphen |
| ColumnName.SignificantStrip | src/neutralino/index.ts:376 | Dropping the disallowed characters keeps every letter, digit and hyphen |
| ColumnName.StripDisallowed | src/neutralino/index.ts:376 | After stripping, only word characters, hyphens and whitespace remain |
| ColumnName.StripIsFilter | src/neutralino/index.ts:376 | Stripping is exactly the in-order filter on `[\w\s-]`: a character is in the result if and only if it is in the input and allowed, and the kept characters stay in their order |
| ColumnName.StripAllowed | src/neutralino/index.ts:376 | Text made only of allowed characters is left unchanged |
| ColumnName.CollapsedSpacesSingle | src/neutralino/index.ts:375 | After collapsing, every whitespace character is a plain space and no two whitespace characters are adjacent |
| ColumnName.CollapseRun | src/neutralino/index.ts:375 | A non-empty whitespace run in front of text that does not start with whitespace becomes exactly one space, and the text after it is collapsed in turn |
| ColumnName.CollapseSingleSpaces | src/neutralino/index.ts:375 | Text whose whitespace is single plain spaces is left unchanged |
| ColumnName.SpacesToUnderscores | src/neutralino/index.ts:377 | Same length; every whitespace character becomes `_`, so none is left; every non-whitespace character is kept in place |
| ColumnName.CleanHeader | src/neutralino/index.ts:282 | One column name per header cell, each that cell cleaned |
| Scenario.CleanSpacedName | src/neutralino/index.ts:369-380 | `"  a   b  "` cleans to `a_b` |
| Scenario.CleanPunctuatedName | src/neutralino/index.ts:369-380 | `"First Name!"` cleans to `First_Name` |
| Loading.ExtensionIsLastPiece | src/neutralino/index.ts:160 | The extension is the last `.`-separated piece of the name, lower-cased |
| Loading.ExtensionAfterDot | src/neutralino/index.ts:159-162 | Whatever comes before it, the text after the last dot decides the extension |
| Loading.OnlyLastDotCounts | src/neutralino/index.ts:159-162 | `report.v2.xlsx` is accepted; `data.csv.bak` is not |
| Loading.AcceptsAnyCase | src/neutralino/index.ts:181-184 | `data.CSV` is accepted |
| Loading.BareNameIsItsOwnExtension | src/neutralino/index.ts:181-184 | A name without a dot is its own extension, so a file named `csv` is accepted |
| Loading.DisplayName | src/neutralino/index.ts:201 | The record name has no `/`, or is the whole path (when the path ends in `/`) |
| Loading.AcceptedPathExtension | src/neutralino/index.ts:200-202 | For a path that passed the filter, the file name has the path's extension |
| Loading.AcceptedPathNotUnsupported | src/neutralino/index.ts:215-221 | A path that passed the filter never reaches the `Unsupported file type` branch |
| Loading.LoadRecordWellFormed | src/neutralino/index.ts:223-231 | A built record is well formed: `loaded`, at least a header row, `rows = data.length - 1`, and one clean column per header cell. Its name and path are those of the source, and its kind is `csv` exactly for the `csv` extension. `Unsupported file type` arises only for an unsupported extension |
| Loading.CsvLoadFails | src/neutralino/index.ts:245-248 | A readable `.csv` file fails to load exactly when all its lines are blank |
| Loading.ProcessFile | src/neutralino/index.ts:238-266 | The loader returns exactly `LoadRecord(src, content)`: the record, or the error that stopped it |
| Loading.AdmittedAppend | src/neutralino/index.ts:164-171 | A batch admits what its parts admit, in input order |
| Loading.FailureIsolated | src/neutralino/index.ts:164-171 | A file that is filtered out or fails to load does not stop the files before or after it |
| Loading.AdmittedOne | src/neutralino/index.ts:159-171 | One input is admitted exactly when it passes the filter and loads |
| Loading.AdmittedWellFormed | src/neutralino/index.ts:164-171 | Every admitted record is well formed |
| Seqs.Filter | src/neutralino/index.ts:159-162 | An element is in the result exactly when it is in the input and satisfies the predicate |
| Seqs.FilterAppend | src/neutralino/index.ts:159-162 | Filtering works element by element, keeping order |
| Seqs.CollectAppend | src/neutralino/index.ts:164-171 | Collecting the loaded results works input by input, keeping order |
| Seqs.CollectFrom | src/neutralino/index.ts:164-171 | Every collected record comes from some input |
| Registry.MergerApp.constructor | src/neutralino/index.ts:6-8 | The registry starts empty and valid |
| Registry.MergerApp.AddFiles | src/neutralino/index.ts:156-171 | The accepted inputs that load are appended in order, and nothing else: `uploadedFiles = old + Admitted(batch)`. The other fields are unchanged and the registry stays valid |
| Registry.MergerApp.Admit | src/neutralino/index.ts:165-170 | One turn of the loop appends the file's record if it loads, and otherwise nothing |
| Analysis.Dedup | src/neutralino/index.ts:462 | `new Set(columns)` as a list: no repeats, same members |
| Analysis.Keep | src/neutralino/index.ts:464 | The filter step keeps exactly the names in both lists, without repeats |
| Analysis.Intersection | src/neutralino/index.ts:462-465 | The reduce yields, without repeats, exactly the names in every file's columns |
| Analysis.SharedColumns | src/neutralino/index.ts:462-467 | The result is strictly ascending and holds a name exactly when every file has it |
| Analysis.SharedColumnsUnique | src/neutralino/index.ts:467 | That is the only such list: any strictly ascending list with these members is the result |
| Analysis.SharedOfOne | src/neutralino/index.ts:459-467 | With one file the result is that file's column set, sorted |
| Analysis.SharedOfOneSorted | src/neutralino/index.ts:459-467 | A file whose columns are already strictly ascending has exactly them as the result |
| Analysis.SharedOrderIndependent | src/neutralino/index.ts:462-467 | Reordering the files does not change the result |
| Analysis.SharedRegroup | src/neutralino/index.ts:463-465 | Intersecting a prefix first and then the rest gives the same result, so the reduce regroups freely |
| Analysis.SharedRepeat | src/neutralino/index.ts:462-467 | Adding a copy of a file's columns changes nothing |
| Analysis.SharedShrinks | src/neutralino/index.ts:462-467 | Adding a file can only remove names |
| Ordering.Sort | src/neutralino/index.ts:467 | `sort()` returns a permutation of its input, in ascending order |
| Ordering.SortDistinct | src/neutralino/index.ts:467 | Sorting names without repeats gives a strictly ascending list |
| Ordering.BelowTotal | src/neutralino/index.ts:467 | Any two different strings are ordered one way or the other |
| Ordering.BelowTransitive | src/neutralino/index.ts:467 | The string order is transitive |
| Ordering.BelowIrreflexive | src/neutralino/index.ts:467 | No string is below itself |
| Ordering.StrictlyIncreasingUnique | src/neutralino/index.ts:467 | Two strictly ascending lists with the same members are equal |
| Registry.SharedOfFiles | src/neutralino/index.ts:459-467 | The shared columns of well-formed files are clean names, and exactly the names every file has |
| Registry.MergerApp.AnalyzeColumns | src/neutralino/index.ts:459-467 | With no files nothing changes. Otherwise `sharedColumns` holds a name exactly when every uploaded file has it, in strictly ascending order and clean. The files and the merge result are unchanged |
| Scenario.TwoFilesShare | src/neutralino/index.ts:459-467 | Files with columns `Name, Age, City` and `Name, City, Zip` share `["City", "Name"]` |
| Merge.IndexOf | src/neutralino/index.ts:531 | `indexOf` is -1 exactly when the name is absent, and otherwise the position of its first occurrence |
| Merge.MergedShape | src/neutralino/index.ts:514-540 | No files give `[]`. Otherwise row 0 is the shared columns, there is one row more than the contributing files have data rows, and every row has one cell per shared column |
| Merge.MergedCell | src/neutralino/index.ts:527-533 | Data row `r` of file `f` is merged row `1 + (rows of the files before f) + r`. Its cell under shared column `j` is the row's value at the first index of that name in the file's columns, or `''` when the file lacks it |
| Merge.MergedRow | src/neutralino/index.ts:521-536 | File order and row order are kept: each data row lands at that position as its projection |
| Merge.MergedCellAfterAnalysis | src/neutralino/index.ts:530-532 | When the file has the shared column, the cell is the row's value under a column of that very name |
| Merge.BodySnoc | src/neutralino/index.ts:521-537 | One more file appends exactly its projected rows |
| Merge.BodyCell | src/neutralino/index.ts:521-537 | A file's rows follow the rows of the files before it |
| Merge.LoadedOnly | src/neutralino/index.ts:501 | A file is kept exactly when it is in the input and `loaded` |
| Merge.LoadedOnlyBody | src/neutralino/index.ts:501-502 | Filtering out unloaded files first does not change the merged rows, which skip them anyway |
| Merge.ProjectRow | src/neutralino/index.ts:528-533 | The inner loop builds exactly the row's projection onto the shared columns |
| Merge.ProjectFile | src/neutralino/index.ts:522-536 | The per-file loop adds nothing for an unloaded or empty file, and otherwise one projected row per data row |
| Merge.MergeFilesData | src/neutralino/index.ts:514-540 | The nested loops return exactly `MergedRows(files, shared)` |
| Registry.MergerApp.MergeFiles | src/neutralino/index.ts:497-505 | With no files nothing happens. Otherwise `mergedData` becomes the merge of the loaded files, and the report gives their count, `mergedData.length - 1` and the header width. The other fields are unchanged |
| Scenario.TwoFilesMerge | src/neutralino/index.ts:514-540 | Those two files merge to the header, `[NYC, Alice]` and `[LA, Bob]` |
| CsvWriter.UnescapeEscape | src/neutralino/index.ts:590 | Doubling quotes loses nothing: undoubling gives the text back |
| CsvWriter.EscapeQuoteCount | src/neutralino/index.ts:590 | Doubling makes twice as many quotes |
| CsvWriter.EscapeDropQuotes | src/neutralino/index.ts:590 | Apart from quotes, the escaped text is the original |
| CsvWriter.QuoteCellSealed | src/neutralino/index.ts:590 | A written cell has an even number of quotes, and every comma in it is inside quotes |
| CsvWriter.PiecesOfSealedJoin | src/neutralino/index.ts:589-591 | The line splitter cuts a written row exactly at the commas between cells |
| CsvWriter.RowRoundTrip | src/neutralino/index.ts:589-591 | Splitting a written row gives one field per cell: the cell's text without quotes, trimmed |
| CsvWriter.RowRoundTripExact | src/neutralino/index.ts:589-591 | For cells without quotes or surrounding whitespace, splitting a written row gives back the cells' texts |
| CsvWriter.QuoteInCellLost | src/neutralino/index.ts:589-591 | A quote inside a cell does not survive: `x"y` reads back as `xy` |
| CsvWriter.QuotesAreLost | src/neutralino/index.ts:589-591 | The cell `a"b` reads back as `ab` |
| CsvWriter.RowTextNewlineFree | src/neutralino/index.ts:589-591 | A row of newline-free cells is written on one line |
| CsvWriter.RowTextNotBlank | src/neutralino/index.ts:589-591 | A written row with a cell is never a blank line |
| CsvWriter.ExportLines | src/neutralino/index.ts:588-591 | The lines the reader keeps from an export are exactly the written rows |
| CsvWriter.ExportReimport | src/neutralino/index.ts:588-591 | Reading an export back gives one row per exported row, each the cells read back. The columns are the read-back header, cleaned |
| Registry.MergedExportReimports | src/neutralino/index.ts:588-591 | Exporting a merge result and reading it back succeeds, with the shared columns as its columns and one row per merged row |
| Registry.CleanNameReadsBack | src/neutralino/index.ts:590 | A clean name survives export and re-import unchanged |
| Registry.MergerApp.ExportCsv | src/neutralino/index.ts:542-547 | There is no export exactly when there is no merge result; otherwise the export is the merge result written as CSV |
| Removal.Splice | src/neutralino/index.ts:633 | `splice(k, 1)` removes one element when its start is a position of the list, and none otherwise |
| Removal.SpliceStart | src/neutralino/index.ts:633 | A non-negative start is itself; a negative start `k` is `n + k`, clamped at 0 |
| Removal.SpliceValid | src/neutralino/index.ts:633 | At a valid index it removes exactly that element and keeps the rest in order |
| Removal.SortCounts | src/neutralino/index.ts:632 | Sorting the indices keeps every index with its multiplicity |
| Removal.SortSorted | src/neutralino/index.ts:632 | The indices come out highest first |
| Removal.SortDescendingDistinct | src/neutralino/index.ts:632 | Distinct indices come out strictly descending |
| Removal.SpliceAllDescending | src/neutralino/index.ts:632-634 | Splicing strictly descending valid indices removes exactly those positions and keeps the rest in order |
| Removal.RemoveChecked | src/neutralino/index.ts:629-634 | Sorting distinct valid indices highest first and splicing them removes exactly those positions |
| Removal.UnselectedMembers | src/neutralino/index.ts:632-634 | Every element at an unselected position remains |
| Removal.AscendingOrderWouldMisremove | src/neutralino/index.ts:631-634 | Lowest first, removing positions 0 and 1 of three would remove the wrong element; highest first keeps the right one |
| Registry.RemoveSelectedExactly | src/neutralino/index.ts:627-641 | Removing distinct valid indices deletes exactly those files, keeps the others in order and shortens the list by their number |
| Registry.UnselectedLength | src/neutralino/index.ts:632-634 | Removing distinct valid positions leaves the list shorter by exactly their number |
| Registry.MergerApp.RemoveSelected | src/neutralino/index.ts:627-641 | The files become the descending-order splice of the old list. `sharedColumns` becomes empty, `mergedData` is unchanged and the registry stays valid |

## Left out

- ColumnName.StripDisallowed states in its own contract only which characters
  remain, so that the scenario proofs over literal strings stay cheap; that
  every allowed character is kept, in order, is the lemma
  `ColumnName.StripIsFilter`.
- Neutralino dialogs and file access, browser `File` reading, the write of
  the export and the download fallbacks are I/O. They are left out. What a
  read yields is the input `Loading.Content`, and `Registry.MergerApp.ExportCsv`
  returns the text instead of writing it.
- The workbook library (`XLSX.read`, `sheet_to_json`) is a foreign library.
  The decoded first sheet is an input (`Some(rows)`, or `None` when
  decoding fails). `exportToExcel` is left out for the same reason.
- UTF-8 decoding (`TextDecoder`): the text is taken as already decoded.
- DOM rendering, status text, `alert` and button states are left out.
  `Registry.MergerApp.MergeFiles` returns the figures its message reports.
- Checkbox reading and `parseInt` of `dataset.index` are UI. The checked
  indices are a parameter of `Registry.MergerApp.RemoveSelected`.
- The `isDialogOpen` guard only matters around an asynchronous dialog, so
  concurrency is not modelled.
- The timestamped export file name depends on the clock.
- JavaScript dynamic typing: cells are the four kinds of `Cells.Cell`.
  Numbers are the text `String(n)` gives (floating point is not modelled).
  Sparse sheet rows (array holes) are taken as dense.
- Ordering.Below compares Unicode scalar values, while JavaScript's `sort()` compares UTF-16
  code units. The two differ only beyond the Basic Multilingual Plane. The sorted names are
  clean names, which are ASCII.
- Strings.ToLowerAscii lower-cases ASCII letters only, while `toLowerCase`
  also maps other letters. No non-ASCII letter lower-cases to a letter of
  `csv`, `xls` or `xlsx`, so acceptance is unaffected, but the kept
  `Unsupported file type` extension text can differ.
- The Bun launcher (`src/bun/index.ts`) is not part of this model.
