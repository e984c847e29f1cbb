/** `readCSV` / `readCSVFromBuffer` and the sheet half of `readExcel` /
    `readExcelFromBuffer`: from decoded content to a table of rows plus
    cleaned column names. */
module CsvReader {
  import opened Wrappers
  import opened Strings
  import opened Cells
  import opened CsvLine
  import opened ColumnName

  /** `!line.trim()`. */
  predicate IsBlank(line: string) {
    Trim(line) == []
  }

  predicate AllBlank(lines: seq<string>) {
    forall k :: 0 <= k < |lines| ==> IsBlank(lines[k])
  }

  /** `lines.filter(line => line.trim())`. */
  function NonBlank(lines: seq<string>): (r: seq<string>)
    ensures |r| <= |lines|
    decreases |lines|
  {
    if lines == [] then []
    else
      var init, last := lines[..|lines| - 1], lines[|lines| - 1];
      if IsBlank(last) then NonBlank(init) else NonBlank(init) + [last]
  }

  /** The filter keeps only non-blank lines, each one of the input's, and
      keeps nothing exactly when every line is blank. */
  lemma NonBlankKeeps(lines: seq<string>)
    ensures var r := NonBlank(lines);
      (forall k :: 0 <= k < |r| ==> !IsBlank(r[k]) && r[k] in lines) &&
      (r == [] <==> AllBlank(lines))
  {
    NonBlankKept(lines);
    NonBlankEmpty(lines);
  }

  lemma {:induction false} NonBlankKept(lines: seq<string>)
    ensures forall k :: 0 <= k < |NonBlank(lines)| ==>
      !IsBlank(NonBlank(lines)[k]) && NonBlank(lines)[k] in lines
    decreases |lines|
  {
    if lines != [] {
      var init, last := lines[..|lines| - 1], lines[|lines| - 1];
      NonBlankKept(init);
      var p, r := NonBlank(init), NonBlank(lines);
      assert lines == init + [last];
      forall k | 0 <= k < |r| ensures !IsBlank(r[k]) && r[k] in lines {
        if k < |p| {
          assert r[k] == p[k] && p[k] in init;
        } else {
          assert r[k] == last;
        }
      }
    }
  }

  lemma {:induction false} NonBlankEmpty(lines: seq<string>)
    ensures NonBlank(lines) == [] <==> AllBlank(lines)
    decreases |lines|
  {
    if lines != [] {
      var init, last := lines[..|lines| - 1], lines[|lines| - 1];
      NonBlankEmpty(init);
      if IsBlank(last) {
        assert AllBlank(lines) <==> AllBlank(init) by {
          if AllBlank(init) {
            forall k | 0 <= k < |lines| ensures IsBlank(lines[k]) {
              if k < |init| {
                assert lines[k] == init[k];
              }
            }
          }
          if AllBlank(lines) {
            forall k | 0 <= k < |init| ensures IsBlank(init[k]) {
              assert init[k] == lines[k];
            }
          }
        }
      } else {
        assert !IsBlank(lines[|lines| - 1]);
      }
    }
  }

  /** Filtering distributes over concatenation, so the kept lines stay in
      their original order. */
  lemma {:induction false} NonBlankAppend(a: seq<string>, b: seq<string>)
    ensures NonBlank(a + b) == NonBlank(a) + NonBlank(b)
    decreases |b|
  {
    if b == [] {
      assert a + b == a;
    } else {
      var b', x := b[..|b| - 1], b[|b| - 1];
      NonBlankAppend(a, b');
      assert (a + b)[..|a + b| - 1] == a + b' && (a + b)[|a + b| - 1] == x;
      if IsBlank(x) {
        assert NonBlank(b) == NonBlank(b');
      } else {
        assert NonBlank(b) == NonBlank(b') + [x];
      }
    }
  }

  /** Lines none of which is blank are all kept. */
  lemma {:induction false} NonBlankKeepsAll(lines: seq<string>)
    requires forall k :: 0 <= k < |lines| ==> !IsBlank(lines[k])
    ensures NonBlank(lines) == lines
    decreases |lines|
  {
    if lines != [] {
      var init := lines[..|lines| - 1];
      NonBlankKeepsAll(init);
      assert !IsBlank(lines[|lines| - 1]);
      assert init + [lines[|lines| - 1]] == lines;
    }
  }

  /** The non-blank lines of a text: `text.split('\n').filter(line => line.trim())`. */
  function Lines(text: string): seq<string> {
    NonBlank(Split(text, '\n'))
  }

  /** The rows of the given lines, each parsed by the line splitter. */
  function ParsedRows(lines: seq<string>): (r: seq<seq<Cell>>)
    ensures |r| == |lines|
  {
    seq(|lines|, k requires 0 <= k < |lines| => TextRow(Fields(lines[k])))
  }

  /** What reading CSV text yields. */
  function CsvTable(text: string): Result<Table, LoadError> {
    var lines := Lines(text);
    if lines == [] then Err(EmptyCsvFile)
    else Ok(Table(ParsedRows(lines), CleanHeader(TextRow(Fields(lines[0])))))
  }

  lemma CsvTableOfLines(text: string, lines: seq<string>)
    requires lines == Lines(text) && lines != []
    ensures CsvTable(text) == Ok(Table(ParsedRows(lines), CleanHeader(TextRow(Fields(lines[0])))))
  {
  }

  /** Reading CSV text fails exactly when every line is blank; otherwise there
      is one row per non-blank line, header included, in order, and one
      cleaned column name per header field. */
  lemma CsvTableShape(text: string)
    ensures CsvTable(text).Err? <==> AllBlank(Split(text, '\n'))
    ensures CsvTable(text).Err? ==> CsvTable(text).error == EmptyCsvFile
    ensures CsvTable(text).Ok? ==>
      var t, lines := CsvTable(text).value, Lines(text);
      |t.data| == |lines| > 0 &&
      (forall k :: 0 <= k < |lines| ==> t.data[k] == TextRow(Fields(lines[k]))) &&
      |t.columns| == |t.data[0]| &&
      (forall j :: 0 <= j < |t.columns| ==> IsCleanName(t.columns[j])) &&
      forall j :: 0 <= j < |t.columns| ==> t.columns[j] == CleanColumnName(t.data[0][j])
  {
    NonBlankKeeps(Split(text, '\n'));
  }

  /** The CSV reader: parse every non-blank line, take the column names from the first. */
  method ReadCsv(text: string) returns (r: Result<Table, LoadError>)
    ensures r == CsvTable(text)
  {
    var lines := Lines(text);
    if |lines| == 0 {
      return Err(EmptyCsvFile);
    }
    var data, columns := ParseRows(lines);
    r := Ok(Table(data, columns));
    CsvTableOfLines(text, lines);
  }

  /** The `forEach` over the kept lines: every line parsed into a row, the
      first row's fields cleaned into the column names. */
  method ParseRows(lines: seq<string>) returns (data: seq<seq<Cell>>, columns: seq<string>)
    requires |lines| > 0
    ensures data == ParsedRows(lines)
    ensures columns == CleanHeader(TextRow(Fields(lines[0])))
  {
    data, columns := [], [];
    for index := 0 to |lines|
      invariant data == ParsedRows(lines[..index])
      invariant columns == if index == 0 then [] else CleanHeader(TextRow(Fields(lines[0])))
    {
      var row := ParseLine(lines[index]);
      if index == 0 {
        assert columns == [];
        columns := columns + CleanHeader(TextRow(row));
      }
      ParsedRowsStep(lines, index);
      data := data + [TextRow(row)];
    }
    assert lines[..|lines|] == lines;
  }

  /** Parsing one more line adds its row at the end. */
  lemma ParsedRowsStep(lines: seq<string>, i: nat)
    requires i < |lines|
    ensures ParsedRows(lines[..i + 1]) == ParsedRows(lines[..i]) + [TextRow(Fields(lines[i]))]
  {
    var a, b := ParsedRows(lines[..i + 1]), ParsedRows(lines[..i]) + [TextRow(Fields(lines[i]))];
    assert |a| == |b|;
    forall k | 0 <= k < |a| ensures a[k] == b[k] {
      assert lines[..i + 1][k] == lines[k];
      if k < i {
        assert lines[..i][k] == lines[k];
      }
    }
  }

  /** The sheet half of the workbook reader: the first sheet's rows as the
      workbook library decoded them, header included. It fails exactly when
      the sheet has no rows. */
  function SheetTable(rows: seq<seq<Cell>>): (r: Result<Table, LoadError>)
    ensures r.Err? <==> rows == []
    ensures r.Err? ==> r.error == EmptyExcelFile
    ensures r.Ok? ==>
      r.value.data == rows && |r.value.columns| == |rows[0]| &&
      (forall j :: 0 <= j < |rows[0]| ==> r.value.columns[j] == CleanColumnName(rows[0][j]))
  {
    if rows == [] then Err(EmptyExcelFile) else Ok(Table(rows, CleanHeader(rows[0])))
  }
}
