/** File acceptance and record building: the extension filter of
    `processFilePaths` / `processFiles` and the record construction of
    `processFilePath` / `processFile`. The bytes of a file and what the
    workbook library decodes from them are inputs. */
module Loading {
  import opened Wrappers
  import opened Strings
  import opened Cells
  import opened ColumnName
  import opened CsvReader
  import opened Records
  import opened Seqs

  /** Where a file comes from: a path chosen in the native dialog, or a
      browser `File` handed over by drag and drop (which has only a name). */
  datatype Source = FromPath(path: string) | FromFile(fileName: string)

  /** What reading the file gives: nothing (the read failed), or its text
      decoded as UTF-8 together with what the workbook library makes of the
      same bytes — `None` when it cannot decode them, else the first
      sheet's rows. */
  datatype Content = Unreadable | Readable(text: string, sheet: Option<seq<seq<Cell>>>)

  /** `name.split('.').pop()?.toLowerCase()`. */
  function Extension(name: string): string {
    ToLowerAscii(LastPiece(name, '.'))
  }

  /** The extension is the last `.`-separated piece, lower-cased. */
  lemma ExtensionIsLastPiece(name: string)
    ensures Extension(name) == ToLowerAscii(Split(name, '.')[|Split(name, '.')| - 1])
  {
    LastPieceIsLastOfSplit(name, '.');
  }

  /** `['xlsx', 'xls', 'csv'].includes(extension)`. */
  predicate IsSupported(ext: string) {
    ext == "xlsx" || ext == "xls" || ext == "csv"
  }

  /** The text the filter looks at: the path, or the dropped file's name. */
  function Label(src: Source): string {
    match src
    case FromPath(path) => path
    case FromFile(fileName) => fileName
  }

  /** The file passes the extension filter. */
  predicate Accepted(src: Source) {
    IsSupported(Extension(Label(src)))
  }

  /** `filePath.split('/').pop() || filePath`. */
  function DisplayName(path: string): (r: string)
    ensures '/' !in r || r == path
  {
    var last := LastPiece(path, '/');
    if last == [] then path else last
  }

  /** The record's name. */
  function NameOf(src: Source): string {
    match src
    case FromPath(path) => DisplayName(path)
    case FromFile(fileName) => fileName
  }

  /** An accepted path names its file with the same extension, so the
      `Unsupported file type` branch of `processFilePath` is never taken
      for a path that passed the filter. */
  lemma AcceptedPathExtension(path: string)
    requires Accepted(FromPath(path))
    ensures Extension(DisplayName(path)) == Extension(path)
  {
    var e := LastPiece(path, '.');
    assert '/' !in e by {
      var lower := ToLowerAscii(e);
      assert '/' !in lower by {
        assert forall i :: 0 <= i < |"xlsx"| ==> "xlsx"[i] != '/';
        assert forall i :: 0 <= i < |"xls"| ==> "xls"[i] != '/';
        assert forall i :: 0 <= i < |"csv"| ==> "csv"[i] != '/';
      }
      forall i | 0 <= i < |e| ensures e[i] != '/' {
        assert lower[i] != '/';
      }
    }
    LastPieceSuffix(path, '/', '.');
  }

  /** Cutting at the last `a` keeps the text after the last `b` when that
      text has no `a`. */
  lemma {:induction false} LastPieceSuffix(s: string, a: char, b: char)
    requires a != b && a !in LastPiece(s, b)
    ensures LastPiece(LastPiece(s, a), b) == LastPiece(s, b)
    decreases |s|
  {
    if s != [] {
      var t, c := s[..|s| - 1], s[|s| - 1];
      if c == b {
        var x := LastPiece(t, a);
        assert (x + [c])[..|x|] == x;
      } else if c != a {
        var x := LastPiece(t, a);
        assert LastPiece(s, b) == LastPiece(t, b) + [c];
        assert (x + [c])[..|x|] == x;
        LastPieceSuffix(t, a, b);
      }
    }
  }

  /** The record kind: `fileExtension === 'csv' ? 'csv' : 'excel'`. */
  function KindOf(ext: string): FileKind {
    if ext == "csv" then Csv else Excel
  }

  /** The record for a table read from `src`. */
  function Record(src: Source, ext: string, t: Table): FileRecord {
    FileRecord(NameOf(src), Label(src), KindOf(ext), t.data, t.columns, |t.data| - 1, Loaded)
  }

  /** What the reader for `ext` makes of readable content. */
  function ReadTable(ext: string, text: string, sheet: Option<seq<seq<Cell>>>): Result<Table, LoadError> {
    if ext == "csv" then CsvTable(text)
    else if ext == "xlsx" || ext == "xls" then
      match sheet
      case None => Err(WorkbookDecodeFailure)
      case Some(rows) => SheetTable(rows)
    else Err(UnsupportedFileType(ext))
  }

  /** `processFilePath` / `processFile`: the record, or why there is none.
      A path is read before its extension is looked at; a dropped file is
      dispatched on its extension first and read afterwards. */
  function LoadRecord(src: Source, content: Content): Result<FileRecord, LoadError> {
    var ext := Extension(NameOf(src));
    var t :=
      if src.FromFile? && !IsSupported(ext) then Err(UnsupportedFileType(ext))
      else if content.Unreadable? then Err(ReadFailure)
      else ReadTable(ext, content.text, content.sheet);
    match t
    case Err(e) => Err(e)
    case Ok(table) => Ok(Record(src, ext, table))
  }

  /** A record as the loaders build it: loaded, at least the header row,
      `rows` the number of rows after the header, one clean column name per
      header cell, and the kind following the extension. */
  predicate WellFormed(f: FileRecord) {
    f.status == Loaded && |f.data| > 0 && f.rows == |f.data| - 1 &&
    |f.columns| == |f.data[0]| &&
    (forall j :: 0 <= j < |f.columns| ==> f.columns[j] == CleanColumnName(f.data[0][j])) &&
    (forall j :: 0 <= j < |f.columns| ==> IsCleanName(f.columns[j]))
  }

  /** Every record the loaders build is well formed, is named after its
      source and has the kind its extension calls for; an unsupported
      extension is only ever reported for a dropped file. */
  lemma LoadRecordWellFormed(src: Source, content: Content)
    ensures LoadRecord(src, content).Ok? ==>
      var f := LoadRecord(src, content).value;
      WellFormed(f) && f.name == NameOf(src) && f.path == Label(src) &&
      (f.kind == Csv <==> Extension(NameOf(src)) == "csv")
    ensures LoadRecord(src, content).Err? && LoadRecord(src, content).error.UnsupportedFileType? ==>
      !IsSupported(Extension(NameOf(src)))
  {
    var ext := Extension(NameOf(src));
    if content.Readable? && (src.FromPath? || IsSupported(ext)) {
      if ext == "csv" {
        CsvTableShape(content.text);
      }
    }
  }

  /** A path that passes the filter never fails as unsupported. */
  lemma AcceptedPathNotUnsupported(path: string, content: Content)
    requires Accepted(FromPath(path))
    ensures !(LoadRecord(FromPath(path), content).Err? &&
              LoadRecord(FromPath(path), content).error.UnsupportedFileType?)
  {
    AcceptedPathExtension(path);
    LoadRecordWellFormed(FromPath(path), content);
  }

  /** Loading CSV text fails exactly when every line is blank (or the file
      cannot be read). */
  lemma CsvLoadFails(src: Source, text: string)
    requires Extension(NameOf(src)) == "csv"
    ensures LoadRecord(src, Readable(text, None)).Err? <==> AllBlank(Split(text, '\n'))
  {
    CsvTableShape(text);
  }

  /** `processFilePath` / `processFile`. */
  method ProcessFile(src: Source, content: Content) returns (r: Result<FileRecord, LoadError>)
    ensures r == LoadRecord(src, content)
  {
    var fileName := NameOf(src);
    var fileExtension := Extension(fileName);
    if src.FromFile? && !IsSupported(fileExtension) {
      return Err(UnsupportedFileType(fileExtension));
    }
    if content.Unreadable? {
      return Err(ReadFailure);
    }
    var t: Result<Table, LoadError>;
    if fileExtension == "csv" {
      t := ReadCsv(content.text);
    } else {
      t := ReadTable(fileExtension, content.text, content.sheet);
    }
    match t
    case Err(e) => r := Err(e);
    case Ok(table) => r := Ok(Record(src, fileExtension, table));
  }

  /** One input of a batch: where the file comes from and what reading it gives. */
  datatype Input = Input(src: Source, content: Content)

  predicate IsAcceptedInput(x: Input) {
    Accepted(x.src)
  }

  /** `validFiles`: the inputs that pass the extension filter, in order. */
  function AcceptedInputs(batch: seq<Input>): seq<Input> {
    Filter(batch, IsAcceptedInput)
  }

  /** The record one input yields, if any: the `try` around each file. */
  function LoadOne(x: Input): Option<FileRecord> {
    var r := LoadRecord(x.src, x.content);
    if r.Ok? then Some(r.value) else None
  }

  /** The records the loop appends for the given inputs: one per input that
      loads, in input order; an input that fails adds nothing. */
  function LoadAll(inputs: seq<Input>): seq<FileRecord> {
    Collect(inputs, LoadOne)
  }

  /** What a batch adds to the registry. */
  function Admitted(batch: seq<Input>): seq<FileRecord> {
    LoadAll(AcceptedInputs(batch))
  }

  /** Files in a batch are handled independently: the batch admits what its
      parts admit, in order. */
  lemma AdmittedAppend(a: seq<Input>, b: seq<Input>)
    ensures Admitted(a + b) == Admitted(a) + Admitted(b)
  {
    FilterAppend(a, b, IsAcceptedInput);
    CollectAppend(AcceptedInputs(a), AcceptedInputs(b), LoadOne);
  }

  /** A file that is rejected or fails to load does not stop the files
      around it from being admitted. */
  lemma FailureIsolated(a: seq<Input>, x: Input, b: seq<Input>)
    requires !Accepted(x.src) || LoadRecord(x.src, x.content).Err?
    ensures Admitted(a + [x] + b) == Admitted(a) + Admitted(b)
  {
    AdmittedAppend(a + [x], b);
    AdmittedAppend(a, [x]);
    AdmittedOne(x);
    assert Admitted([x]) == [];
    assert Admitted(a) + [] == Admitted(a);
  }

  /** A single input is admitted when it passes the filter and loads. */
  lemma AdmittedOne(x: Input)
    ensures Admitted([x]) == if IsAcceptedInput(x) && LoadOne(x).Some? then [LoadOne(x).value] else []
  {
    assert [x][..0] == [];
    var acc := AcceptedInputs([x]);
    assert acc == if IsAcceptedInput(x) then [x] else [];
    if acc != [] {
      assert acc[..0] == [];
    }
  }

  /** Every admitted record is well formed. */
  lemma AdmittedWellFormed(batch: seq<Input>)
    ensures forall k :: 0 <= k < |Admitted(batch)| ==> WellFormed(Admitted(batch)[k])
  {
    var inputs := AcceptedInputs(batch);
    forall k | 0 <= k < |Admitted(batch)| ensures WellFormed(Admitted(batch)[k]) {
      CollectFrom(inputs, LoadOne, k);
      var i :| 0 <= i < |inputs| && LoadOne(inputs[i]) == Some(Admitted(batch)[k]);
      LoadRecordWellFormed(inputs[i].src, inputs[i].content);
    }
  }

  /** The extension of a name is what follows its last `.`, lower-cased. */
  lemma ExtensionAfterDot(p: string, e: string)
    requires '.' !in e
    ensures Extension(p + "." + e) == ToLowerAscii(e)
  {
    LastPieceAfter(p, '.', e);
  }

  /** The extension is matched without regard to case. */
  lemma AcceptsAnyCase()
    ensures Accepted(FromFile("data.CSV"))
  {
    ExtensionAfterDot("data", "CSV");
    assert "data" + "." + "CSV" == "data.CSV";
    assert ToLowerAscii("CSV") == "csv";
  }

  /** Only the text after the last `.` counts. */
  lemma OnlyLastDotCounts()
    ensures Accepted(FromPath("/home/u/report.v2.xlsx"))
    ensures !Accepted(FromFile("data.csv.bak"))
  {
    ExtensionAfterDot("/home/u/report.v2", "xlsx");
    assert "/home/u/report.v2" + "." + "xlsx" == "/home/u/report.v2.xlsx";
    assert ToLowerAscii("xlsx") == "xlsx";
    ExtensionAfterDot("data.csv", "bak");
    assert "data.csv" + "." + "bak" == "data.csv.bak";
    assert ToLowerAscii("bak")[0] == 'b';
  }

  /** A name with no `.` at all is its own extension, lower-cased. */
  lemma DotFreeExtension(s: string)
    requires '.' !in s
    ensures Extension(s) == ToLowerAscii(s)
  {
    LastPieceWhole(s, '.');
  }

  /** So a file named just `csv` passes the filter. */
  lemma BareNameIsItsOwnExtension()
    ensures Accepted(FromFile("csv"))
  {
    DotFreeExtension("csv");
    LowerCaseUnchanged("csv");
  }
}
