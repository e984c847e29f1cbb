/** The app's registry: the uploaded files, the shared columns found by the
    last analysis and the last merge result, and the operations that
    change them. */
module Registry {
  import opened Wrappers
  import opened Strings
  import opened Cells
  import opened CsvLine
  import opened ColumnName
  import opened CsvReader
  import opened CsvWriter
  import opened Ordering
  import opened Analysis
  import opened Records
  import opened Merge
  import opened Seqs
  import opened Loading
  import opened Removal

  /** `uploadedFiles.map(file => file.columns)`. */
  function ColumnsOf(files: seq<FileRecord>): (r: seq<seq<string>>)
    ensures |r| == |files|
    ensures forall k :: 0 <= k < |files| ==> r[k] == files[k].columns
  {
    seq(|files|, k requires 0 <= k < |files| => files[k].columns)
  }

  /** The shared columns of well-formed files are clean names, and exactly
      the names every file has. */
  lemma SharedOfFiles(files: seq<FileRecord>)
    requires files != [] && AllWellFormed(files)
    ensures var s := SharedColumns(ColumnsOf(files));
      (forall j :: 0 <= j < |s| ==> IsCleanName(s[j])) &&
      (forall x :: x in s <==> forall k :: 0 <= k < |files| ==> x in files[k].columns)
  {
    var cs := ColumnsOf(files);
    var s := SharedColumns(cs);
    forall j | 0 <= j < |s| ensures IsCleanName(s[j]) {
      assert s[j] in s;
      assert s[j] in cs[0];
      var i :| 0 <= i < |cs[0]| && cs[0][i] == s[j];
      assert WellFormed(files[0]);
    }
    forall x ensures x in s <==> forall k :: 0 <= k < |files| ==> x in files[k].columns {
      assert x in s <==> InEvery(x, cs);
    }
  }

  /** What a merge reports: how many files took part, how many data rows
      and how many columns the result has. */
  datatype MergeSummary = MergeSummary(files: nat, rows: int, columns: nat)

  class MergerApp {
    var uploadedFiles: seq<FileRecord>
    var sharedColumns: seq<string>
    var mergedData: seq<seq<Cell>>

    /** Every registered file is a record as the loaders build it, and the
        shared columns are clean names in ascending order without repeats. */
    predicate Valid()
      reads this
    {
      AllWellFormed(uploadedFiles) &&
      StrictlyIncreasing(sharedColumns) &&
      (forall j :: 0 <= j < |sharedColumns| ==> IsCleanName(sharedColumns[j]))
    }

    constructor ()
      ensures Valid()
      ensures uploadedFiles == [] && sharedColumns == [] && mergedData == []
    {
      uploadedFiles := [];
      sharedColumns := [];
      mergedData := [];
    }

    /** `processFilePaths` / `processFiles`: the inputs that pass the
        extension filter are read one after another, and each that loads
        is appended; one that fails is skipped. */
    method AddFiles(batch: seq<Input>)
      requires Valid()
      modifies this
      ensures Valid()
      ensures uploadedFiles == old(uploadedFiles) + Admitted(batch)
      ensures sharedColumns == old(sharedColumns) && mergedData == old(mergedData)
    {
      if |batch| == 0 {
        return;
      }
      var validFiles := AcceptedInputs(batch);
      for i := 0 to |validFiles|
        invariant uploadedFiles == old(uploadedFiles) + LoadAll(validFiles[..i])
        invariant Valid()
        invariant sharedColumns == old(sharedColumns) && mergedData == old(mergedData)
      {
        LoadAllStep(validFiles, i);
        var before := uploadedFiles;
        Admit(validFiles[i]);
        AppendAssociates(old(uploadedFiles), LoadAll(validFiles[..i]), uploadedFiles[|before|..]);
      }
      assert validFiles[..|validFiles|] == validFiles;
    }

    /** One turn of that loop: read the file and append its record, or
        skip it when reading fails. */
    method Admit(x: Input)
      requires Valid()
      modifies this
      ensures Valid()
      ensures uploadedFiles == old(uploadedFiles) + (if LoadOne(x).Some? then [LoadOne(x).value] else [])
      ensures sharedColumns == old(sharedColumns) && mergedData == old(mergedData)
    {
      var fileInfo := ProcessFile(x.src, x.content);
      if fileInfo.Ok? {
        LoadRecordWellFormed(x.src, x.content);
        AppendWellFormed(uploadedFiles, fileInfo.value);
        uploadedFiles := uploadedFiles + [fileInfo.value];
      }
    }

    /** `analyzeColumns`: with no files nothing changes; otherwise the
        shared columns become the names every file has, sorted. */
    method AnalyzeColumns()
      requires Valid()
      modifies this
      ensures Valid()
      ensures uploadedFiles == old(uploadedFiles) && mergedData == old(mergedData)
      ensures old(uploadedFiles) == [] ==> sharedColumns == old(sharedColumns)
      ensures old(uploadedFiles) != [] ==> sharedColumns == SharedColumns(ColumnsOf(uploadedFiles))
      ensures old(uploadedFiles) != [] ==> forall x ::
        x in sharedColumns <==> forall k :: 0 <= k < |uploadedFiles| ==> x in uploadedFiles[k].columns
    {
      if |uploadedFiles| == 0 {
        return;
      }
      SharedOfFiles(uploadedFiles);
      sharedColumns := SharedColumns(ColumnsOf(uploadedFiles));
    }

    /** `mergeFiles`: with no files nothing happens; otherwise the loaded
        files are merged under the shared columns and the merge reports
        the file count, `mergedData.length - 1` and the header width. */
    method MergeFiles() returns (summary: Option<MergeSummary>)
      requires Valid()
      modifies this
      ensures Valid()
      ensures uploadedFiles == old(uploadedFiles) && sharedColumns == old(sharedColumns)
      ensures old(uploadedFiles) == [] ==> summary == None && mergedData == old(mergedData)
      ensures old(uploadedFiles) != [] ==>
        mergedData == MergedRows(LoadedOnly(uploadedFiles), sharedColumns) &&
        summary == Some(MergeSummary(|LoadedOnly(uploadedFiles)|, |mergedData| - 1,
                                     if mergedData == [] then 0 else |mergedData[0]|))
    {
      if |uploadedFiles| == 0 {
        return None;
      }
      var loadedFiles := LoadedOnly(uploadedFiles);
      mergedData := MergeFilesData(loadedFiles, sharedColumns);
      var width := if |mergedData| > 0 then |mergedData[0]| else 0;
      summary := Some(MergeSummary(|loadedFiles|, |mergedData| - 1, width));
    }

    /** `removeSelectedFile`: the checked positions are sorted highest
        first and spliced out one by one; the analysis is reset, while the
        last merge result is kept. */
    method RemoveSelected(indices: seq<int>)
      requires Valid()
      modifies this
      ensures Valid()
      ensures uploadedFiles == SpliceAll(old(uploadedFiles), SortDescending(indices))
      ensures sharedColumns == [] && mergedData == old(mergedData)
    {
      var sorted := SortDescending(indices);
      for i := 0 to |sorted|
        invariant SpliceAll(uploadedFiles, sorted[i..]) == SpliceAll(old(uploadedFiles), sorted)
        invariant AllWellFormed(uploadedFiles)
        invariant sharedColumns == old(sharedColumns) && mergedData == old(mergedData)
      {
        SpliceWellFormed(uploadedFiles, sorted[i]);
        SpliceAllStep(uploadedFiles, sorted, i);
        uploadedFiles := Splice(uploadedFiles, sorted[i]);
      }
      sharedColumns := [];
    }

    /** The CSV export: nothing when there is no merge result, otherwise the
        merge result written as CSV text. */
    method ExportCsv() returns (csv: Option<string>)
      ensures csv == None <==> mergedData == []
      ensures csv.Some? ==> csv.value == ToCsv(mergedData)
    {
      if |mergedData| == 0 {
        return None;
      }
      return Some(ToCsv(mergedData));
    }
  }

  predicate AllWellFormed(files: seq<FileRecord>) {
    forall k :: 0 <= k < |files| ==> WellFormed(files[k])
  }

  lemma AppendWellFormed(files: seq<FileRecord>, f: FileRecord)
    requires AllWellFormed(files) && WellFormed(f)
    ensures AllWellFormed(files + [f])
  {
    assert forall k :: 0 <= k < |files| ==> (files + [f])[k] == files[k];
  }

  /** Loading one more input appends what it yields. */
  lemma LoadAllStep(inputs: seq<Input>, i: nat)
    requires i < |inputs|
    ensures LoadAll(inputs[..i + 1]) ==
      LoadAll(inputs[..i]) + (if LoadOne(inputs[i]).Some? then [LoadOne(inputs[i]).value] else [])
  {
    assert inputs[..i + 1][..i] == inputs[..i];
  }

  /** Every element left after a splice was there before. */
  lemma SpliceWellFormed(files: seq<FileRecord>, k: int)
    requires AllWellFormed(files)
    ensures AllWellFormed(Splice(files, k))
  {
    var start := SpliceStart(|files|, k);
    if start < |files| {
      var r := Splice(files, k);
      assert r == files[..start] + files[start + 1..];
      forall j | 0 <= j < |r| ensures WellFormed(r[j]) {
        if j < start {
          assert r[j] == files[j];
        } else {
          assert r[j] == files[j + 1];
        }
      }
    }
  }

  /** Regrouping a concatenation, stated as a lemma so that the loop in
      `AddFiles` names the one instance it needs. */
  lemma AppendAssociates<T>(a: seq<T>, b: seq<T>, c: seq<T>)
    ensures (a + b) + c == a + (b + c)
  {
  }

  lemma SpliceAllStep<T>(s: seq<T>, ks: seq<int>, i: nat)
    requires i < |ks|
    ensures SpliceAll(s, ks[i..]) == SpliceAll(Splice(s, ks[i]), ks[i + 1..])
  {
    assert ks[i..][1..] == ks[i + 1..];
  }

  /** Removing the checked files of a list whose checkboxes carry their own
      positions: exactly the checked files go, the others keep their order. */
  lemma RemoveSelectedExactly(files: seq<FileRecord>, indices: seq<int>)
    requires Distinct(indices)
    requires forall i :: 0 <= i < |indices| ==> 0 <= indices[i] < |files|
    ensures SpliceAll(files, SortDescending(indices)) == Unselected(files, set k | k in indices)
    ensures |SpliceAll(files, SortDescending(indices))| == |files| - |indices|
  {
    RemoveChecked(files, indices);
    UnselectedLength(files, indices);
  }

  /** Dropping distinct valid positions shortens the list by their number. */
  lemma UnselectedLength<T>(s: seq<T>, indices: seq<int>)
    requires Distinct(indices)
    requires forall i :: 0 <= i < |indices| ==> 0 <= indices[i] < |s|
    ensures |Unselected(s, set k | k in indices)| == |s| - |indices|
  {
    var selected := set k | k in indices;
    CountBelow(s, selected);
    DistinctSetSize(indices);
    var below := set k | k in selected && 0 <= k < |s|;
    assert below == selected;
  }

  /** `Unselected` drops one element per selected position below the length. */
  lemma {:induction false} CountBelow<T>(s: seq<T>, selected: set<int>)
    ensures |Unselected(s, selected)| == |s| - |(set k | k in selected && 0 <= k < |s|)|
    decreases |s|
  {
    if s != [] {
      var n := |s| - 1;
      CountBelow(s[..n], selected);
      var below := set k | k in selected && 0 <= k < n;
      var all := set k | k in selected && 0 <= k < |s|;
      if n in selected {
        assert all == below + {n};
      } else {
        assert all == below;
      }
    }
  }

  /** A sequence without repeats has as many elements as its set. */
  lemma {:induction false} DistinctSetSize(s: seq<int>)
    requires Distinct(s)
    ensures |(set k | k in s)| == |s|
    decreases |s|
  {
    if s != [] {
      var t := s[..|s| - 1];
      DistinctSetSize(t);
      assert s == t + [s[|s| - 1]];
      assert (set k | k in s) == (set k | k in t) + {s[|s| - 1]};
      assert s[|s| - 1] !in t;
    }
  }

  /** Reading an exported merge back as CSV gives the shared columns as its
      column names and one row per merged row, provided there is at least
      one shared column and no merged cell holds a newline. */
  lemma MergedExportReimports(files: seq<FileRecord>, shared: seq<string>)
    requires files != [] && |shared| > 0
    requires forall j :: 0 <= j < |shared| ==> IsCleanName(shared[j])
    requires forall k, j :: 0 <= k < |MergedRows(files, shared)| && 0 <= j < |MergedRows(files, shared)[k]| ==>
      '\n' !in Show(MergedRows(files, shared)[k][j])
    ensures CsvTable(ToCsv(MergedRows(files, shared))).Ok?
    ensures CsvTable(ToCsv(MergedRows(files, shared))).value.columns == shared
    ensures |CsvTable(ToCsv(MergedRows(files, shared))).value.data| == |MergedRows(files, shared)|
  {
    var m := MergedRows(files, shared);
    MergedShape(files, shared);
    ExportReimport(m);
    var header := TextRow(ReadBackRow(m[0]));
    forall j | 0 <= j < |shared| ensures CleanColumnName(header[j]) == shared[j] {
      CleanNameReadsBack(shared[j]);
      CleanColumnNameFixedPoints(shared[j]);
    }
  }

  /** A clean name survives being written as a cell and read back. */
  lemma CleanNameReadsBack(s: string)
    requires IsCleanName(s)
    ensures ReadBack(Text(s)) == s
  {
    assert '"' !in s by {
      forall i | 0 <= i < |s| ensures s[i] != '"' {
        assert IsNameChar(s[i]);
      }
    }
    DropQuotesOfQuoteFree(s);
    NameCharIsNotSpace(s[0]);
    NameCharIsNotSpace(s[|s| - 1]);
    assert IsTrimmed(s);
  }
}
