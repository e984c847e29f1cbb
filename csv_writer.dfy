/** The string builder of `exportToCSV`: every cell is wrapped in double
    quotes with inner quotes doubled, cells are joined with `,` and rows
    with `\n`. Also what the line splitter makes of such text when it is
    read back. */
module CsvWriter {
  import opened Wrappers
  import opened Strings
  import opened Cells
  import opened CsvLine
  import opened ColumnName
  import opened CsvReader

  /** One character as written: a quote is doubled. */
  function EscapeChar(c: char): string {
    if c == '"' then "\"\"" else [c]
  }

  /** `s.replace(/"/g, '""')`. */
  function Escape(s: string): (r: string)
    decreases |s|
  {
    if s == [] then [] else EscapeChar(s[0]) + Escape(s[1..])
  }

  /** Reads a doubled quote back as one quote. */
  function Unescape(s: string): string
    decreases |s|
  {
    if |s| >= 2 && s[0] == '"' && s[1] == '"' then ['"'] + Unescape(s[2..])
    else if s == [] then []
    else [s[0]] + Unescape(s[1..])
  }

  /** Doubling quotes loses nothing: undoubling gives the text back. */
  lemma {:induction false} UnescapeEscape(s: string)
    ensures Unescape(Escape(s)) == s
    decreases |s|
  {
    if s != [] {
      var e := Escape(s[1..]);
      UnescapeEscape(s[1..]);
      var w := Escape(s);
      assert w == EscapeChar(s[0]) + e;
      if s[0] == '"' {
        assert w[0] == '"' && w[1] == '"' && w[2..] == e;
        assert Unescape(w) == ['"'] + Unescape(e);
      } else {
        assert w[0] == s[0] && w[1..] == e;
        assert Unescape(w) == [s[0]] + Unescape(e);
      }
      assert [s[0]] + s[1..] == s;
    }
  }

  /** A written character has twice the quotes and, without them, the same text. */
  lemma EscapeCharCounts(c: char)
    ensures QuoteCount(EscapeChar(c)) == 2 * QuoteCount([c])
    ensures DropQuotes(EscapeChar(c)) == DropQuotes([c])
  {
    assert [c][..0] == [];
    if c == '"' {
      assert "\"\""[..1] == ['"'];
    }
  }

  /** Escaping doubles the number of quotes. */
  lemma {:induction false} EscapeQuoteCount(s: string)
    ensures QuoteCount(Escape(s)) == 2 * QuoteCount(s)
    decreases |s|
  {
    if s != [] {
      EscapeQuoteCount(s[1..]);
      QuoteCountAppend(EscapeChar(s[0]), Escape(s[1..]));
      QuoteCountAppend([s[0]], s[1..]);
      EscapeCharCounts(s[0]);
      assert [s[0]] + s[1..] == s;
    }
  }

  /** Escaping changes nothing but the quotes. */
  lemma {:induction false} EscapeDropQuotes(s: string)
    ensures DropQuotes(Escape(s)) == DropQuotes(s)
    decreases |s|
  {
    if s != [] {
      EscapeDropQuotes(s[1..]);
      DropQuotesAppend(EscapeChar(s[0]), Escape(s[1..]));
      DropQuotesAppend([s[0]], s[1..]);
      EscapeCharCounts(s[0]);
      assert [s[0]] + s[1..] == s;
    }
  }

  /** Every comma of an escaped text stands after an even number of quotes. */
  lemma {:induction false} EscapeCommaBalanced(s: string, i: nat)
    requires i < |Escape(s)| && Escape(s)[i] == ','
    ensures QuoteCount(Escape(s)[..i]) % 2 == 0
    decreases |s|
  {
    var h, e := EscapeChar(s[0]), Escape(s[1..]);
    assert Escape(s) == h + e;
    if i >= |h| {
      assert e[i - |h|] == (h + e)[i];
      EscapeCommaBalanced(s[1..], i - |h|);
      EscapeCharCounts(s[0]);
      EvenThenEven(h, e, i);
    } else {
      assert i == 0 && Escape(s)[..i] == [];
    }
  }

  /** After an even head, a prefix reaching into the rest is even when the
      rest's part of it is. */
  lemma EvenThenEven(h: string, e: string, i: nat)
    requires QuoteCount(h) % 2 == 0 && |h| <= i <= |h| + |e|
    requires QuoteCount(e[..i - |h|]) % 2 == 0
    ensures QuoteCount((h + e)[..i]) % 2 == 0
  {
    assert (h + e)[..i] == h + e[..i - |h|];
    QuoteCountAppend(h, e[..i - |h|]);
    EvenSum(QuoteCount(h), QuoteCount(e[..i - |h|]));
  }

  /** A character other than a quote is in the escaped text only when it is in the text. */
  lemma {:induction false} EscapeKeepsOut(s: string, c: char)
    requires c != '"' && c !in s
    ensures c !in Escape(s)
    decreases |s|
  {
    if s != [] {
      assert s[0] in s;
      assert c !in s[1..];
      EscapeKeepsOut(s[1..], c);
    }
  }

  /** One cell as written: `"${String(cell).replace(/"/g, '""')}"`. */
  function QuoteCell(c: Cell): string {
    ['"'] + Escape(Show(c)) + ['"']
  }

  /** The quoted cells of a row. */
  function QuotedCells(row: seq<Cell>): (r: seq<string>)
    ensures |r| == |row|
  {
    seq(|row|, j requires 0 <= j < |row| => QuoteCell(row[j]))
  }

  /** One row as written. */
  function RowText(row: seq<Cell>): string {
    Join(QuotedCells(row), ',')
  }

  /** The whole export: `data.map(row => …).join('\n')`. */
  function ToCsv(data: seq<seq<Cell>>): string {
    Join(seq(|data|, k requires 0 <= k < |data| => RowText(data[k])), '\n')
  }

  /** Text that leaves the splitter where it found it: an even number of
      quotes, and every comma inside a quoted span. */
  predicate IsSealed(q: string) {
    QuoteCount(q) % 2 == 0 &&
    forall i :: 0 <= i < |q| && q[i] == ',' ==> InQuotes(q[..i])
  }

  /** A written cell is sealed. */
  lemma QuoteCellSealed(c: Cell)
    ensures IsSealed(QuoteCell(c))
  {
    QuotedTextSealed(Show(c));
  }

  /** Any text, escaped and wrapped in quotes, is sealed. */
  lemma QuotedTextSealed(t: string)
    ensures IsSealed(['"'] + Escape(t) + ['"'])
  {
    var e := Escape(t);
    var q := ['"'] + e + ['"'];
    EscapeQuoteCount(t);
    QuoteCountAppend(['"'] + e, ['"']);
    QuoteCountAppend(['"'], e);
    assert QuoteCount(['"']) == 1 by { assert ['"'][..0] == []; }
    forall i | 0 <= i < |q| && q[i] == ',' ensures InQuotes(q[..i]) {
      CommaInsideQuotedText(t, i);
    }
  }

  /** A comma of a written cell stands inside its quotes. */
  lemma CommaInsideQuotedText(t: string, i: nat)
    requires i < |['"'] + Escape(t) + ['"']| && (['"'] + Escape(t) + ['"'])[i] == ','
    ensures InQuotes((['"'] + Escape(t) + ['"'])[..i])
  {
    var e := Escape(t);
    var q := ['"'] + e + ['"'];
    assert 1 <= i <= |e| && e[i - 1] == q[i];
    EscapeCommaBalanced(t, i - 1);
    assert q[..i] == ['"'] + e[..i - 1];
    QuoteCountAppend(['"'], e[..i - 1]);
    assert QuoteCount(['"']) == 1 by { assert ['"'][..0] == []; }
  }

  /** After an even number of quotes, a sealed text holds no separating comma. */
  lemma SealedNoSeparator(p: string, q: string)
    requires QuoteCount(p) % 2 == 0 && IsSealed(q)
    ensures forall i :: |p| <= i < |p + q| ==> !IsSeparator(p + q, i)
  {
    forall i | |p| <= i < |p + q| ensures !IsSeparator(p + q, i) {
      var j := i - |p|;
      assert (p + q)[i] == q[j];
      if q[j] == ',' {
        assert (p + q)[..i] == p + q[..j];
        QuoteCountAppend(p, q[..j]);
      }
    }
  }

  /** A comma join of sealed texts has an even number of quotes. */
  lemma {:induction false} SealedJoinEven(qs: seq<string>)
    requires forall k :: 0 <= k < |qs| ==> IsSealed(qs[k])
    ensures QuoteCount(Join(qs, ',')) % 2 == 0
    decreases |qs|
  {
    if |qs| > 1 {
      var init := qs[..|qs| - 1];
      SealedJoinEven(init);
      assert IsSealed(qs[|qs| - 1]);
      QuoteCountAppend(Join(init, ','), [',']);
      QuoteCountAppend(Join(init, ',') + [','], qs[|qs| - 1]);
    } else if |qs| == 1 {
      assert IsSealed(qs[0]);
    }
  }

  /** Reading a separating comma and then a sealed text adds that text as one piece. */
  lemma PiecesSealedStep(front: string, last: string, init: seq<string>)
    requires QuoteCount(front) % 2 == 0 && IsSealed(last) && Pieces(front) == init
    ensures Pieces(front + [','] + last) == init + [last]
  {
    var sc := front + [','];
    QuoteCountAppend(front, [',']);
    SealedNoSeparator(sc, last);
    PiecesAfterSeparator(front, last);
  }

  /** The splitter cuts a comma join of sealed texts exactly at the joining commas. */
  lemma {:induction false} PiecesOfSealedJoin(qs: seq<string>)
    requires |qs| > 0
    requires forall k :: 0 <= k < |qs| ==> IsSealed(qs[k])
    ensures Pieces(Join(qs, ',')) == qs
    decreases |qs|
  {
    if |qs| == 1 {
      PiecesOfSealed(qs[0]);
    } else {
      var init, last := qs[..|qs| - 1], qs[|qs| - 1];
      var front := Join(init, ',');
      PiecesOfSealedJoin(init);
      SealedJoinEven(init);
      assert IsSealed(last);
      PiecesSealedStep(front, last, init);
      assert init + [last] == qs;
    }
  }

  /** A sealed text is one piece. */
  lemma PiecesOfSealed(q: string)
    requires IsSealed(q)
    ensures Pieces(q) == [q]
  {
    forall i | 0 <= i < |q| ensures !IsSeparator(q, i) {
      if q[i] == ',' {
        assert InQuotes(q[..i]);
      }
    }
    PiecesNoSeparator(q);
  }

  /** What a cell reads back as: its text with quotes dropped and trimmed. */
  function ReadBack(c: Cell): string {
    Trim(DropQuotes(Show(c)))
  }

  function ReadBackRow(row: seq<Cell>): (r: seq<string>)
    ensures |r| == |row|
  {
    seq(|row|, j requires 0 <= j < |row| => ReadBack(row[j]))
  }

  /** Splitting a written row gives one field per cell, each the cell's text
      without its quotes and trimmed. */
  lemma RowRoundTrip(row: seq<Cell>)
    requires |row| > 0
    ensures Fields(RowText(row)) == ReadBackRow(row)
  {
    var qs := QuotedCells(row);
    forall k | 0 <= k < |qs| ensures IsSealed(qs[k]) {
      QuoteCellSealed(row[k]);
    }
    PiecesOfSealedJoin(qs);
    var f := Fields(RowText(row));
    forall j | 0 <= j < |row| ensures f[j] == ReadBack(row[j]) {
      QuoteCellDropQuotes(row[j]);
    }
  }

  /** Without its quotes, a written cell is the cell's text without its quotes. */
  lemma QuoteCellDropQuotes(c: Cell)
    ensures DropQuotes(QuoteCell(c)) == DropQuotes(Show(c))
  {
    var e := Escape(Show(c));
    DropQuotesAppend(['"'] + e, ['"']);
    DropQuotesAppend(['"'], e);
    assert DropQuotes(['"']) == [] by { assert ['"'][..0] == []; }
    EscapeDropQuotes(Show(c));
  }

  /** The round trip is exact for cells whose text has no quote and no
      surrounding whitespace. */
  lemma RowRoundTripExact(row: seq<Cell>)
    requires |row| > 0
    requires forall j :: 0 <= j < |row| ==> '"' !in Show(row[j]) && IsTrimmed(Show(row[j]))
    ensures Fields(RowText(row)) == seq(|row|, j requires 0 <= j < |row| => Show(row[j]))
  {
    RowRoundTrip(row);
    forall j | 0 <= j < |row| ensures ReadBack(row[j]) == Show(row[j]) {
      DropQuotesOfQuoteFree(Show(row[j]));
    }
  }

  /** Quotes in a cell are not restored: the parser never undoubles `""`,
      it drops every quote. */
  lemma QuoteInCellLost(x: string, y: string)
    requires '"' !in x && '"' !in y && IsTrimmed(x + y)
    ensures Fields(RowText([Text(x + ['"'] + y)])) == [x + y]
  {
    var row := [Text(x + ['"'] + y)];
    RowRoundTrip(row);
    ReadBackDropsQuote(x, y);
    assert ReadBackRow(row)[0] == ReadBack(row[0]);
  }

  lemma ReadBackDropsQuote(x: string, y: string)
    requires '"' !in x && '"' !in y && IsTrimmed(x + y)
    ensures ReadBack(Text(x + ['"'] + y)) == x + y
  {
    var s := x + ['"'] + y;
    DropQuotesAppend(x, ['"']);
    DropQuotesOfQuoteFree(x);
    assert DropQuotes(['"']) == [] by { assert ['"'][..0] == []; }
    assert DropQuotes(x + ['"']) == x;
    DropQuotesAppend(x + ['"'], y);
    DropQuotesOfQuoteFree(y);
    assert DropQuotes(s) == x + y;
    assert Show(Text(s)) == s;
  }

  /** For example the cell `a"b` reads back as `ab`. */
  lemma QuotesAreLost()
    ensures Fields(RowText([Text("a\"b")])) == ["ab"]
  {
    QuoteInCellLost("a", "b");
    assert "a" + ['"'] + "b" == "a\"b";
    assert "a" + "b" == "ab";
  }

  /** A written row holds a newline only when one of its cells does. */
  lemma RowTextNewlineFree(row: seq<Cell>)
    requires forall j :: 0 <= j < |row| ==> '\n' !in Show(row[j])
    ensures '\n' !in RowText(row)
  {
    var qs := QuotedCells(row);
    forall k | 0 <= k < |qs| ensures '\n' !in qs[k] {
      EscapeKeepsOut(Show(row[k]), '\n');
    }
    JoinKeepsOut(qs, ',', '\n');
  }

  /** A written non-empty row is never blank: it starts with a quote. */
  lemma RowTextNotBlank(row: seq<Cell>)
    requires |row| > 0
    ensures !IsBlank(RowText(row))
  {
    var qs := QuotedCells(row);
    assert qs[0][0] == '"';
    JoinHead(qs, ',');
    TrimEmpty(RowText(row));
  }

  /** The written rows, one text per row. */
  function RowTexts(data: seq<seq<Cell>>): (r: seq<string>)
    ensures |r| == |data|
  {
    seq(|data|, k requires 0 <= k < |data| => RowText(data[k]))
  }

  /** Reading an export back: one row per written row, each cell read back
      as its text without quotes and trimmed, and the column names the
      cleaned read-back header. It needs at least one row, no empty row and
      no newline inside a cell. */
  lemma ExportReimport(data: seq<seq<Cell>>)
    requires |data| > 0
    requires forall k :: 0 <= k < |data| ==> |data[k]| > 0
    requires forall k, j :: 0 <= k < |data| && 0 <= j < |data[k]| ==> '\n' !in Show(data[k][j])
    ensures CsvTable(ToCsv(data)) == Ok(Table(
      seq(|data|, k requires 0 <= k < |data| => TextRow(ReadBackRow(data[k]))),
      CleanHeader(TextRow(ReadBackRow(data[0])))))
  {
    var texts := RowTexts(data);
    ExportLines(data);
    CsvTableOfLines(ToCsv(data), texts);
    ReimportedRows(data);
    assert texts[0] == RowText(data[0]);
    RowRoundTrip(data[0]);
  }

  /** Each written row parses back to its cells read back. */
  lemma ReimportedRows(data: seq<seq<Cell>>)
    requires forall k :: 0 <= k < |data| ==> |data[k]| > 0
    ensures ParsedRows(RowTexts(data)) ==
      seq(|data|, k requires 0 <= k < |data| => TextRow(ReadBackRow(data[k])))
  {
    var texts := RowTexts(data);
    var want := seq(|data|, k requires 0 <= k < |data| => TextRow(ReadBackRow(data[k])));
    var rows := ParsedRows(texts);
    forall k | 0 <= k < |data| ensures rows[k] == want[k] {
      assert texts[k] == RowText(data[k]);
      RowRoundTrip(data[k]);
    }
  }

  /** The kept lines of an export are its written rows. */
  lemma ExportLines(data: seq<seq<Cell>>)
    requires forall k :: 0 <= k < |data| ==> |data[k]| > 0
    requires forall k, j :: 0 <= k < |data| && 0 <= j < |data[k]| ==> '\n' !in Show(data[k][j])
    requires |data| > 0
    ensures Lines(ToCsv(data)) == RowTexts(data)
  {
    var texts := RowTexts(data);
    forall k | 0 <= k < |texts| ensures '\n' !in texts[k] && !IsBlank(texts[k]) {
      RowTextNewlineFree(data[k]);
      RowTextNotBlank(data[k]);
    }
    assert ToCsv(data) == Join(texts, '\n');
    SplitJoin(texts, '\n');
    NonBlankKeepsAll(texts);
  }
}
