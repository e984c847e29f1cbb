/** `mergeFilesData` and the loaded-status filter of `mergeFiles`: the shared
    columns become the header row, and every data row of every loaded file
    is re-projected onto them. */
module Merge {
  import opened Cells
  import opened Records

  /** `columns.indexOf(name)`: the first position of `name`, or -1. */
  function IndexOf(columns: seq<string>, name: string): (r: int)
    ensures -1 <= r < |columns|
    ensures r == -1 <==> name !in columns
    ensures r >= 0 ==> columns[r] == name && forall k :: 0 <= k < r ==> columns[k] != name
    decreases |columns|
  {
    if columns == [] then -1
    else if columns[0] == name then 0
    else
      var r := IndexOf(columns[1..], name);
      assert columns == [columns[0]] + columns[1..];
      if r == -1 then -1 else r + 1
  }

  /** `row[i]`: indexing past the end of a short row yields `undefined`. */
  function CellAt(row: seq<Cell>, i: nat): Cell {
    if i < |row| then row[i] else Undefined
  }

  /** The merged cell for one shared column: the value under the column's
      first occurrence in this file, or `''` when the file lacks it. */
  function Pick(row: seq<Cell>, columns: seq<string>, name: string): Cell {
    var i := IndexOf(columns, name);
    if i != -1 then CellAt(row, i) else Text("")
  }

  /** One data row projected onto the shared columns. */
  function Project(row: seq<Cell>, columns: seq<string>, shared: seq<string>): (r: seq<Cell>)
    ensures |r| == |shared|
  {
    seq(|shared|, j requires 0 <= j < |shared| => Pick(row, columns, shared[j]))
  }

  /** A file takes part in the merge when it is loaded and has at least one row. */
  predicate Contributes(f: FileRecord) {
    f.status == Loaded && |f.data| > 0
  }

  /** The number of data rows a file adds, the header row excluded. */
  function DataRows(f: FileRecord): nat {
    if Contributes(f) then |f.data| - 1 else 0
  }

  /** The rows one file adds: its data rows after the header, projected. */
  function FileRows(f: FileRecord, shared: seq<string>): (r: seq<seq<Cell>>)
    ensures |r| == DataRows(f)
  {
    if Contributes(f) then
      seq(|f.data| - 1, r requires 0 <= r < |f.data| - 1 => Project(f.data[r + 1], f.columns, shared))
    else []
  }

  /** The data rows of several files, summed. */
  function TotalDataRows(files: seq<FileRecord>): nat
    decreases |files|
  {
    if files == [] then 0
    else TotalDataRows(files[..|files| - 1]) + DataRows(files[|files| - 1])
  }

  /** Every contributing file's rows, file after file. */
  function Body(files: seq<FileRecord>, shared: seq<string>): (r: seq<seq<Cell>>)
    ensures |r| == TotalDataRows(files)
    decreases |files|
  {
    if files == [] then []
    else Body(files[..|files| - 1], shared) + FileRows(files[|files| - 1], shared)
  }

  /** What `mergeFilesData(files, sharedColumns)` returns. */
  function MergedRows(files: seq<FileRecord>, shared: seq<string>): seq<seq<Cell>> {
    if files == [] then [] else [TextRow(shared)] + Body(files, shared)
  }

  /** `uploadedFiles.filter(f => f.status === 'loaded')`. */
  function LoadedOnly(files: seq<FileRecord>): (r: seq<FileRecord>)
    ensures |r| <= |files|
    ensures forall k :: 0 <= k < |r| ==> r[k].status == Loaded && r[k] in files
    ensures forall f :: f in files && f.status == Loaded ==> f in r
    decreases |files|
  {
    if files == [] then []
    else
      var init := LoadedOnly(files[..|files| - 1]);
      var f := files[|files| - 1];
      assert forall k :: 0 <= k < |files| - 1 ==> files[..|files| - 1][k] == files[k];
      if f.status == Loaded then init + [f] else init
  }

  lemma BodySnoc(files: seq<FileRecord>, f: FileRecord, shared: seq<string>)
    ensures Body(files + [f], shared) == Body(files, shared) + FileRows(f, shared)
  {
    assert (files + [f])[..|files|] == files;
  }

  /** The shape of the merge: no files give no rows; otherwise the header row
      is the shared columns, there is one row more than the contributing
      files have data rows, and every row has one cell per shared column. */
  lemma {:induction false} MergedShape(files: seq<FileRecord>, shared: seq<string>)
    ensures files == [] ==> MergedRows(files, shared) == []
    ensures files != [] ==>
      var m := MergedRows(files, shared);
      |m| == 1 + TotalDataRows(files) && m[0] == TextRow(shared) &&
      forall r :: 0 <= r < |m| ==> |m[r]| == |shared|
  {
    if files != [] {
      BodyRowWidths(files, shared);
    }
  }

  lemma {:induction false} BodyRowWidths(files: seq<FileRecord>, shared: seq<string>)
    ensures forall r :: 0 <= r < |Body(files, shared)| ==> |Body(files, shared)[r]| == |shared|
    decreases |files|
  {
    if files != [] {
      var init, last := files[..|files| - 1], files[|files| - 1];
      BodyRowWidths(init, shared);
      var a, b := Body(init, shared), FileRows(last, shared);
      forall r | 0 <= r < |a + b| ensures |(a + b)[r]| == |shared| {
        if r >= |a| {
          assert (a + b)[r] == b[r - |a|];
          assert b[r - |a|] == Project(last.data[r - |a| + 1], last.columns, shared);
        }
      }
    }
  }

  /** Data row `r` of file `f` is body row `(rows of the files before f) + r`. */
  lemma {:induction false} BodyCell(files: seq<FileRecord>, shared: seq<string>, f: nat, r: nat)
    requires f < |files| && r < DataRows(files[f])
    ensures TotalDataRows(files[..f]) + r < TotalDataRows(files)
    ensures Body(files, shared)[TotalDataRows(files[..f]) + r] == FileRows(files[f], shared)[r]
    decreases |files|
  {
    var init, last := files[..|files| - 1], files[|files| - 1];
    assert files == init + [last];
    if f == |files| - 1 {
      assert files[..f] == init;
      BodyCellLast(init, last, shared, r);
    } else {
      BodyCell(init, shared, f, r);
      assert init[..f] == files[..f] && init[f] == files[f];
      BodyCellEarlier(init, last, shared, TotalDataRows(init[..f]) + r);
    }
  }

  /** The rows of the last file come after those of the files before it. */
  lemma BodyCellLast(init: seq<FileRecord>, last: FileRecord, shared: seq<string>, r: nat)
    requires r < DataRows(last)
    ensures TotalDataRows(init) + r < TotalDataRows(init + [last])
    ensures Body(init + [last], shared)[TotalDataRows(init) + r] == FileRows(last, shared)[r]
  {
    BodySnoc(init, last, shared);
    AppendAt(Body(init, shared), FileRows(last, shared), r);
  }

  /** Indexing the right-hand part of a concatenation. */
  lemma AppendAt<T>(a: seq<T>, b: seq<T>, r: nat)
    requires r < |b|
    ensures |a| + r < |a + b| && (a + b)[|a| + r] == b[r]
  {
  }

  /** Adding a file leaves the rows before it where they were. */
  lemma BodyCellEarlier(init: seq<FileRecord>, last: FileRecord, shared: seq<string>, i: nat)
    requires i < TotalDataRows(init)
    ensures i < TotalDataRows(init + [last])
    ensures Body(init + [last], shared)[i] == Body(init, shared)[i]
  {
    BodySnoc(init, last, shared);
    var a, b := Body(init, shared), FileRows(last, shared);
    assert (a + b)[i] == a[i];
  }

  /** Where each input cell lands: data row `r` of file `f` (counting from the
      row after its header) is merged row `1 + (rows of the files before f) + r`,
      and its cell under shared column `j` is the file's value under the
      first column of that name, or `''` when the file has no such column. */
  lemma MergedCell(files: seq<FileRecord>, shared: seq<string>, f: nat, r: nat, j: nat)
    requires f < |files| && Contributes(files[f])
    requires r < |files[f].data| - 1 && j < |shared|
    ensures var m, i := MergedRows(files, shared), 1 + TotalDataRows(files[..f]) + r;
      i < |m| && |m[i]| == |shared| &&
      m[i][j] == (var c := IndexOf(files[f].columns, shared[j]);
                  if c == -1 then Text("") else CellAt(files[f].data[r + 1], c))
  {
    MergedRow(files, shared, f, r);
    var row := Project(files[f].data[r + 1], files[f].columns, shared);
    assert row[j] == Pick(files[f].data[r + 1], files[f].columns, shared[j]);
  }

  lemma MergedRow(files: seq<FileRecord>, shared: seq<string>, f: nat, r: nat)
    requires f < |files| && Contributes(files[f]) && r < |files[f].data| - 1
    ensures var m, i := MergedRows(files, shared), 1 + TotalDataRows(files[..f]) + r;
      i < |m| && m[i] == Project(files[f].data[r + 1], files[f].columns, shared)
  {
    BodyCell(files, shared, f, r);
    FileRowAt(files[f], shared, r);
    MergedRowsAt(files, shared, TotalDataRows(files[..f]) + r);
  }

  /** Merged row `1 + i` is body row `i`: the header comes first. */
  lemma MergedRowsAt(files: seq<FileRecord>, shared: seq<string>, i: nat)
    requires files != [] && i < TotalDataRows(files)
    ensures 1 + i < |MergedRows(files, shared)| && MergedRows(files, shared)[1 + i] == Body(files, shared)[i]
  {
    var body := Body(files, shared);
    assert MergedRows(files, shared) == [TextRow(shared)] + body;
    assert ([TextRow(shared)] + body)[1 + i] == body[i];
  }

  /** Row `r` a file adds is its data row `r + 1` projected. */
  lemma FileRowAt(f: FileRecord, shared: seq<string>, r: nat)
    requires Contributes(f) && r < |f.data| - 1
    ensures FileRows(f, shared)[r] == Project(f.data[r + 1], f.columns, shared)
  {
  }

  /** After analysis every shared name is a column of every file, so no
      merged cell is a `''` filler: each comes from the file's own row. */
  lemma MergedCellAfterAnalysis(files: seq<FileRecord>, shared: seq<string>, f: nat, r: nat, j: nat)
    requires f < |files| && Contributes(files[f])
    requires r < |files[f].data| - 1 && j < |shared|
    requires shared[j] in files[f].columns
    ensures var m, i := MergedRows(files, shared), 1 + TotalDataRows(files[..f]) + r;
      i < |m| && |m[i]| == |shared| && m[i][j] == CellAt(files[f].data[r + 1], IndexOf(files[f].columns, shared[j])) &&
      files[f].columns[IndexOf(files[f].columns, shared[j])] == shared[j]
  {
    MergedCell(files, shared, f, r, j);
  }

  /** Dropping the files that are not loaded does not change the merged data rows. */
  lemma {:induction false} LoadedOnlyBody(files: seq<FileRecord>, shared: seq<string>)
    ensures Body(LoadedOnly(files), shared) == Body(files, shared)
    decreases |files|
  {
    if files != [] {
      var init, f := files[..|files| - 1], files[|files| - 1];
      LoadedOnlyBody(init, shared);
      if f.status == Loaded {
        BodySnoc(LoadedOnly(init), f, shared);
      }
    }
  }

  /** The inner loop of `mergeFilesData`: one merged cell per shared column. */
  method ProjectRow(row: seq<Cell>, columns: seq<string>, shared: seq<string>) returns (mergedRow: seq<Cell>)
    ensures mergedRow == Project(row, columns, shared)
  {
    mergedRow := [];
    for j := 0 to |shared|
      invariant mergedRow == Project(row, columns, shared)[..j]
    {
      var colIndex := IndexOf(columns, shared[j]);
      mergedRow := mergedRow + [if colIndex != -1 then CellAt(row, colIndex) else Text("")];
    }
    assert Project(row, columns, shared)[..|shared|] == Project(row, columns, shared);
  }

  /** The middle loop of `mergeFilesData`: the rows one file adds, in order. */
  method ProjectFile(file: FileRecord, shared: seq<string>) returns (rows: seq<seq<Cell>>)
    ensures rows == FileRows(file, shared)
  {
    rows := [];
    if file.status != Loaded || |file.data| == 0 {
      return;
    }
    var dataRows := file.data[1..];
    for r := 0 to |dataRows|
      invariant rows == FileRows(file, shared)[..r]
    {
      var mergedRow := ProjectRow(dataRows[r], file.columns, shared);
      rows := rows + [mergedRow];
    }
  }

  /** `mergeFilesData`: the header row, then each data row of each loaded,
      non-empty file projected onto the shared columns. */
  method MergeFilesData(files: seq<FileRecord>, shared: seq<string>) returns (merged: seq<seq<Cell>>)
    ensures merged == MergedRows(files, shared)
  {
    if |files| == 0 {
      return [];
    }
    merged := [TextRow(shared)];
    for f := 0 to |files|
      invariant merged == [TextRow(shared)] + Body(files[..f], shared)
    {
      var rows := ProjectFile(files[f], shared);
      BodyStep(files, shared, f);
      assert merged + rows == [TextRow(shared)] + (Body(files[..f], shared) + rows);
      merged := merged + rows;
    }
    assert files[..|files|] == files;
    assert merged == [TextRow(shared)] + Body(files, shared);
  }

  /** One more file adds its own rows to the end of the body. */
  lemma BodyStep(files: seq<FileRecord>, shared: seq<string>, f: nat)
    requires f < |files|
    ensures Body(files[..f + 1], shared) == Body(files[..f], shared) + FileRows(files[f], shared)
  {
    assert files[..f + 1][..f] == files[..f];
  }
}
