/** Worked examples: one CSV line, three header names, and two files taken
    through analysis and merge. */
module Scenario {
  import opened Strings
  import opened Cells
  import opened CsvLine
  import opened ColumnName
  import opened Ordering
  import opened Analysis
  import opened Records
  import opened Merge

  /** A comma inside quotes does not split the field. */
  lemma QuotedCommaStaysInField(line: string)
    requires line == "a,\"b,c\",d"
    ensures |Fields(line)| == 3
    ensures Fields(line)[0] == "a" && Fields(line)[1] == "b,c" && Fields(line)[2] == "d"
  {
    var a, b, d := "a", "b,c", "d";
    assert line == a + [','] + (['"'] + b + ['"']) + [','] + d;
    QuotedMiddleField(a, b, d);
  }

  lemma CleanPunctuatedName(s: string)
    requires s == "First Name!"
    ensures CleanColumnName(Text(s)) == "First_Name"
  {
    PunctuationDropped(s);
    UnderscoresForSpaces("First Name");
  }

  lemma PunctuationDropped(s: string)
    requires s == "First Name!"
    ensures StripDisallowed(CollapseSpaces(Trim(s))) == "First Name"
  {
    var a, b := "First", "Name";
    assert forall i :: 0 <= i < |a| ==> IsNameChar(a[i]);
    assert forall i :: 0 <= i < |b| ==> IsNameChar(b[i]);
    assert s == a + [' '] + b + ['!'];
    TwoWordsPunctuated(a, b, '!');
  }

  /** Two words with one space between them and a trailing punctuation mark:
      the mark is dropped, the rest kept. */
  lemma TwoWordsPunctuated(a: string, b: string, p: char)
    requires |a| > 0 && forall i :: 0 <= i < |a| ==> IsNameChar(a[i])
    requires forall i :: 0 <= i < |b| ==> IsNameChar(b[i])
    requires !IsNameChar(p) && !IsJsSpace(p)
    ensures StripDisallowed(CollapseSpaces(Trim(a + [' '] + b + [p]))) == a + [' '] + b
  {
    TwoWordsTrimmed(a, b, p);
    TwoWordsCollapsed(a, b, p);
    TwoWordsStripped(a, b, p);
  }

  lemma TwoWordsTrimmed(a: string, b: string, p: char)
    requires |a| > 0 && IsNameChar(a[0]) && !IsJsSpace(p)
    ensures Trim(a + [' '] + b + [p]) == a + [' '] + b + [p]
  {
    var s := a + [' '] + b + [p];
    NameCharIsNotSpace(a[0]);
    assert s[0] == a[0] && s[|s| - 1] == p;
    assert IsTrimmed(s);
  }

  lemma TwoWordsCollapsed(a: string, b: string, p: char)
    requires forall i :: 0 <= i < |a| ==> IsNameChar(a[i])
    requires forall i :: 0 <= i < |b| ==> IsNameChar(b[i])
    requires !IsJsSpace(p)
    ensures CollapseSpaces(a + [' '] + b + [p]) == a + [' '] + b + [p]
  {
    OneSpaceAt(a, b, p);
    CollapseSingleSpaces(a + [' '] + b + [p]);
  }

  lemma TwoWordsStripped(a: string, b: string, p: char)
    requires forall i :: 0 <= i < |a| ==> IsNameChar(a[i])
    requires forall i :: 0 <= i < |b| ==> IsNameChar(b[i])
    requires !IsNameChar(p) && !IsJsSpace(p)
    ensures StripDisallowed(a + [' '] + b + [p]) == a + [' '] + b
  {
    var u := a + [' '] + b;
    assert (u + [p])[..|u|] == u;
    WordsAllowed(a, b);
    StripAllowed(u);
  }

  /** The only whitespace is the plain space after the first word. */
  lemma OneSpaceAt(a: string, b: string, p: char)
    requires forall i :: 0 <= i < |a| ==> IsNameChar(a[i])
    requires forall i :: 0 <= i < |b| ==> IsNameChar(b[i])
    requires !IsJsSpace(p)
    ensures var s := a + [' '] + b + [p];
      forall i :: 0 <= i < |s| ==> (IsJsSpace(s[i]) <==> i == |a|) && (i == |a| ==> s[i] == ' ')
  {
    var s := a + [' '] + b + [p];
    forall i | 0 <= i < |s| ensures (IsJsSpace(s[i]) <==> i == |a|) && (i == |a| ==> s[i] == ' ') {
      if i < |a| {
        assert s[i] == a[i];
        NameCharIsNotSpace(a[i]);
      } else if i == |a| {
        assert s[i] == ' ';
      } else if i < |s| - 1 {
        assert s[i] == b[i - |a| - 1];
        NameCharIsNotSpace(b[i - |a| - 1]);
      } else {
        assert s[i] == p;
      }
    }
  }

  /** Words and one space pass the character filter. */
  lemma WordsAllowed(a: string, b: string)
    requires forall i :: 0 <= i < |a| ==> IsNameChar(a[i])
    requires forall i :: 0 <= i < |b| ==> IsNameChar(b[i])
    ensures var u := a + [' '] + b;
      forall i :: 0 <= i < |u| ==> IsNameChar(u[i]) || IsJsSpace(u[i])
  {
    var u := a + [' '] + b;
    forall i | 0 <= i < |u| ensures IsNameChar(u[i]) || IsJsSpace(u[i]) {
      if i < |a| {
        assert u[i] == a[i];
      } else if i > |a| {
        assert u[i] == b[i - |a| - 1];
      }
    }
  }

  lemma CleanSpacedName(s: string)
    requires s == "  a   b  "
    ensures CleanColumnName(Text(s)) == "a_b"
  {
    SpacesTrimmed(s);
    var u := "a   b";
    SpacesCollapsed(u);
    StripAllowed("a b");
    assert SpacesToUnderscores("a b") == "a_b";
  }

  lemma SpacesTrimmed(s: string)
    requires s == "  a   b  "
    ensures Trim(s) == "a   b"
  {
    TrimStartDropsSpaces(s);
    var u := TrimStart(s);
    assert |u| == 7 by {
      assert !IsJsSpace(s[2]) && IsJsSpace(s[0]) && IsJsSpace(s[1]);
    }
    assert u == s[2..];
    TrimEndDropsSpaces(u);
    var w := TrimEnd(u);
    assert |w| == 5 by {
      assert !IsJsSpace(u[4]) && IsJsSpace(u[5]) && IsJsSpace(u[6]);
    }
    assert w == u[..5];
  }

  lemma SpacesCollapsed(u: string)
    requires u == "a   b"
    ensures CollapseSpaces(u) == "a b"
  {
    var v := u[1..];
    TrimStartDropsSpaces(v);
    assert TrimStart(v) == "b" by {
      assert |TrimStart(v)| == 1 by {
        assert !IsJsSpace(v[3]) && IsJsSpace(v[0]) && IsJsSpace(v[1]) && IsJsSpace(v[2]);
      }
    }
    CollapseSingleSpaces("b");
    assert CollapseSpaces(v) == " b";
  }

  lemma UnderscoresForSpaces(t: string)
    requires t == "First Name"
    ensures SpacesToUnderscores(t) == "First_Name"
  {
  }

  function FileA(): FileRecord {
    FileRecord("a.csv", "a.csv", Csv,
      [TextRow(["Name", "Age", "City"]), [Text("Alice"), Text("30"), Text("NYC")]],
      ["Name", "Age", "City"], 1, Loaded)
  }

  function FileB(): FileRecord {
    FileRecord("b.csv", "b.csv", Csv,
      [TextRow(["Name", "City", "Zip"]), [Text("Bob"), Text("LA"), Text("90001")]],
      ["Name", "City", "Zip"], 1, Loaded)
  }

  /** `City` and `Name` are the columns both files have. */
  lemma TwoFilesShare()
    ensures SharedColumns([FileA().columns, FileB().columns]) == ["City", "Name"]
  {
    var cs := [FileA().columns, FileB().columns];
    var r := ["City", "Name"];
    assert Below("City", "Name");
    forall x ensures x in r <==> InEvery(x, cs) {
      if InEvery(x, cs) {
        assert x in cs[0] && x in cs[1];
      }
    }
    SharedColumnsUnique(cs, r);
  }

  /** Merging the two files under the shared columns. */
  lemma TwoFilesMerge()
    ensures MergedRows([FileA(), FileB()], ["City", "Name"]) ==
      [TextRow(["City", "Name"]), [Text("NYC"), Text("Alice")], [Text("LA"), Text("Bob")]]
  {
    var files, shared := [FileA(), FileB()], ["City", "Name"];
    MergedRowsOfTwo(files, shared);
    MergedRowOfA(files, shared);
    MergedRowOfB(files, shared);
  }

  /** The header, and one merged row for each file's one data row. */
  lemma MergedRowsOfTwo(files: seq<FileRecord>, shared: seq<string>)
    requires files == [FileA(), FileB()] && shared == ["City", "Name"]
    ensures |MergedRows(files, shared)| == 3 && MergedRows(files, shared)[0] == TextRow(shared)
  {
    assert files[..1] == [FileA()] && [FileA()][..0] == [];
    assert TotalDataRows(files) == 2;
    MergedShape(files, shared);
  }

  /** Alice's row: `City` is column 2 of the first file, `Name` column 0. */
  lemma MergedRowOfA(files: seq<FileRecord>, shared: seq<string>)
    requires files == [FileA(), FileB()] && shared == ["City", "Name"]
    ensures |MergedRows(files, shared)| > 1 && MergedRows(files, shared)[1] == [Text("NYC"), Text("Alice")]
  {
    assert files[..0] == [];
    MergedRow(files, shared, 0, 0);
    ProjectedRow(FileA().data[1], FileA().columns, shared, 2, 0);
  }

  /** Bob's row: `City` is column 1 of the second file, `Name` column 0. */
  lemma MergedRowOfB(files: seq<FileRecord>, shared: seq<string>)
    requires files == [FileA(), FileB()] && shared == ["City", "Name"]
    ensures |MergedRows(files, shared)| > 2 && MergedRows(files, shared)[2] == [Text("LA"), Text("Bob")]
  {
    FirstFileRows(files);
    MergedRow(files, shared, 1, 0);
    ProjectedRow(FileB().data[1], FileB().columns, shared, 1, 0);
  }

  /** The first file adds one data row. */
  lemma FirstFileRows(files: seq<FileRecord>)
    requires files == [FileA(), FileB()]
    ensures TotalDataRows(files[..1]) == 1
  {
    assert files[..1] == [FileA()] && [FileA()][..0] == [];
  }

  /** A row projected onto two shared columns found at positions `i` and `k`. */
  lemma ProjectedRow(row: seq<Cell>, columns: seq<string>, shared: seq<string>, i: nat, k: nat)
    requires |shared| == 2 && i < |row| && k < |row|
    requires IndexOf(columns, shared[0]) == i && IndexOf(columns, shared[1]) == k
    ensures Project(row, columns, shared) == [row[i], row[k]]
  {
  }
}
