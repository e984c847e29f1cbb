/** The quote-aware comma splitter for one CSV line. A double quote toggles
    between the quoted and the unquoted state; a comma ends a field only in
    the unquoted state; quotes themselves are never kept; each field is
    trimmed. */
module CsvLine {
  import opened Strings

  /** The number of double quotes in `s`. */
  function QuoteCount(s: string): nat
    decreases |s|
  {
    if s == [] then 0 else QuoteCount(s[..|s| - 1]) + (if s[|s| - 1] == '"' then 1 else 0)
  }

  lemma {:induction false} QuoteCountAppend(a: string, b: string)
    ensures QuoteCount(a + b) == QuoteCount(a) + QuoteCount(b)
    decreases |b|
  {
    if b == [] {
      assert a + b == a;
    } else {
      QuoteCountAppend(a, b[..|b| - 1]);
      assert (a + b)[..|a + b| - 1] == a + b[..|b| - 1];
    }
  }

  /** After reading `s` from the start of a line, the splitter is inside a quoted span. */
  predicate InQuotes(s: string) {
    QuoteCount(s) % 2 == 1
  }

  /** Position `i` of `line` holds a comma that ends a field. */
  predicate IsSeparator(line: string, i: nat)
    requires i < |line|
  {
    line[i] == ',' && !InQuotes(line[..i])
  }

  /** Whether a position separates depends only on the text up to it. */
  lemma SeparatorInPrefix(s: string, n: nat, i: nat)
    requires i < n <= |s|
    ensures IsSeparator(s[..n], i) == IsSeparator(s, i)
  {
    assert s[..n][..i] == s[..i];
  }

  /** The raw text of each field: the line cut at every separating comma,
      built up one character at a time. */
  function Pieces(s: string): (r: seq<string>)
    ensures |r| > 0
    decreases |s|
  {
    if s == [] then [[]]
    else
      var P := Pieces(s[..|s| - 1]);
      if IsSeparator(s, |s| - 1) then P + [[]]
      else P[..|P| - 1] + [P[|P| - 1] + [s[|s| - 1]]]
  }

  /** `s` with every double quote removed. */
  function DropQuotes(s: string): string
    decreases |s|
  {
    if s == [] then []
    else DropQuotes(s[..|s| - 1]) + (if s[|s| - 1] == '"' then [] else [s[|s| - 1]])
  }

  /** No quote is left. */
  lemma {:induction false} DropQuotesNoQuote(s: string)
    ensures '"' !in DropQuotes(s)
    decreases |s|
  {
    if s != [] {
      DropQuotesNoQuote(s[..|s| - 1]);
    }
  }

  lemma {:induction false} DropQuotesAppend(a: string, b: string)
    ensures DropQuotes(a + b) == DropQuotes(a) + DropQuotes(b)
    decreases |b|
  {
    if b == [] {
      assert a + b == a;
    } else {
      DropQuotesAppend(a, b[..|b| - 1]);
      assert (a + b)[..|a + b| - 1] == a + b[..|b| - 1];
    }
  }

  /** Text without quotes is left as it is. */
  lemma {:induction false} DropQuotesOfQuoteFree(s: string)
    requires '"' !in s
    ensures DropQuotes(s) == s
    decreases |s|
  {
    if s != [] {
      assert s[|s| - 1] in s;
      assert '"' !in s[..|s| - 1];
      DropQuotesOfQuoteFree(s[..|s| - 1]);
    }
  }

  /** The number of commas that stand outside quotes. */
  function SeparatorCount(s: string): nat
    decreases |s|
  {
    if s == [] then 0
    else SeparatorCount(s[..|s| - 1]) + (if IsSeparator(s, |s| - 1) then 1 else 0)
  }

  /** Reading a separating comma opens a new, empty piece. */
  lemma PiecesSnocSeparator(s: string)
    requires IsSeparator(s + [','], |s|)
    ensures Pieces(s + [',']) == Pieces(s) + [[]]
  {
    assert (s + [','])[..|s|] == s;
  }

  /** Reading any other character lengthens the last piece. */
  lemma PiecesSnocOther(s: string, c: char)
    requires !IsSeparator(s + [c], |s|)
    ensures var P := Pieces(s);
      Pieces(s + [c]) == P[..|P| - 1] + [P[|P| - 1] + [c]]
  {
    assert (s + [c])[..|s|] == s;
  }

  /** A line has one piece more than it has separating commas. */
  lemma {:induction false} PiecesCount(s: string)
    ensures |Pieces(s)| == SeparatorCount(s) + 1
    decreases |s|
  {
    if s != [] {
      var t := s[..|s| - 1];
      PiecesCount(t);
      assert t + [s[|s| - 1]] == s;
      if IsSeparator(s, |s| - 1) {
        PiecesSnocSeparator(t);
      } else {
        PiecesSnocOther(t, s[|s| - 1]);
      }
    }
  }

  /** The pieces partition the line: joined with commas they give it back. */
  lemma {:induction false} PiecesJoin(s: string)
    ensures Join(Pieces(s), ',') == s
    decreases |s|
  {
    if s != [] {
      var t, c := s[..|s| - 1], s[|s| - 1];
      var P := Pieces(t);
      PiecesJoin(t);
      assert t + [c] == s;
      if IsSeparator(s, |s| - 1) {
        assert (P + [[]])[..|P|] == P;
      } else {
        JoinExtendLast(P[..|P| - 1], P[|P| - 1], [c], ',');
        assert P[..|P| - 1] + [P[|P| - 1]] == P;
      }
    }
  }

  /** The fields `parseCSVLine` returns for `line`. */
  function Fields(line: string): seq<string> {
    var P := Pieces(line);
    seq(|P|, k requires 0 <= k < |P| => Trim(DropQuotes(P[k])))
  }

  /** One field more than there are separating commas, each without quotes
      and trimmed. */
  lemma FieldsShape(line: string)
    ensures |Fields(line)| == SeparatorCount(line) + 1
    ensures forall k :: 0 <= k < |Fields(line)| ==> '"' !in Fields(line)[k] && IsTrimmed(Fields(line)[k])
  {
    var P := Pieces(line);
    PiecesCount(line);
    forall k | 0 <= k < |P| ensures '"' !in Trim(DropQuotes(P[k])) {
      DropQuotesNoQuote(P[k]);
      if '"' in Trim(DropQuotes(P[k])) { TrimKeepsChars(DropQuotes(P[k]), '"'); }
    }
  }

  lemma {:induction false} QuoteCountOfQuoteFree(s: string)
    requires '"' !in s
    ensures QuoteCount(s) == 0
    decreases |s|
  {
    if s != [] {
      assert s[..|s| - 1][..] == s[..|s| - 1] && s[|s| - 1] in s;
      QuoteCountOfQuoteFree(s[..|s| - 1]);
    }
  }

  /** Text without a comma is one piece. */
  lemma {:induction false} OnePiece(s: string)
    requires ',' !in s
    ensures Pieces(s) == [s]
    decreases |s|
  {
    if s != [] {
      var t := s[..|s| - 1];
      assert s[|s| - 1] in s && ',' !in t;
      OnePiece(t);
      assert t + [s[|s| - 1]] == s;
    }
  }

  /** Text with no separating comma is one piece. */
  lemma {:induction false} PiecesNoSeparator(s: string)
    requires forall i :: 0 <= i < |s| ==> !IsSeparator(s, i)
    ensures Pieces(s) == [s]
    decreases |s|
  {
    if s != [] {
      var t, c := s[..|s| - 1], s[|s| - 1];
      forall i | 0 <= i < |t| ensures !IsSeparator(t, i) {
        SeparatorInPrefix(s, |t|, i);
      }
      PiecesNoSeparator(t);
      assert t + [c] == s;
      PiecesSnocOther(t, c);
      assert [t][..0] == [] && [t][0] + [c] == s;
    }
  }

  /** No comma inside a quoted span opened after an even number of quotes separates. */
  lemma QuotedSpanNoSeparator(p: string, b: string, i: nat)
    requires QuoteCount(p) % 2 == 0 && '"' !in b
    requires |p| <= i < |p| + |b| + 2
    ensures !IsSeparator(p + (['"'] + b + ['"']), i)
  {
    var s := p + (['"'] + b + ['"']);
    if i == |p| {
      assert s[i] == '"';
    } else if i == |p| + |b| + 1 {
      assert s[i] == '"';
    } else {
      InsideQuotedSpan(p, b, i);
    }
  }

  /** Strictly inside the span the splitter is in the quoted state. */
  lemma InsideQuotedSpan(p: string, b: string, i: nat)
    requires QuoteCount(p) % 2 == 0 && '"' !in b
    requires |p| < i < |p| + |b| + 1
    ensures InQuotes((p + (['"'] + b + ['"']))[..i])
  {
    var k := i - |p| - 1;
    QuoteSpanPrefix(p, '"', b, '"', k);
    OpenedQuoteCount(p, b, k);
  }

  /** A prefix that ends inside an enclosed span. */
  lemma QuoteSpanPrefix<T>(p: seq<T>, x: T, b: seq<T>, y: T, k: nat)
    requires k <= |b|
    ensures (p + ([x] + b + [y]))[..|p| + 1 + k] == p + [x] + b[..k]
  {
  }

  /** After an opening quote and quote-free text the count is odd. */
  lemma OpenedQuoteCount(p: string, b: string, k: nat)
    requires QuoteCount(p) % 2 == 0 && '"' !in b && k <= |b|
    ensures QuoteCount(p + ['"'] + b[..k]) % 2 == 1
  {
    InnerQuoteFree(b, k);
    QuoteCountOfQuoteFree(b[..k]);
    QuoteCountAppend(p + ['"'], b[..k]);
    QuoteCountAppend(p, ['"']);
    assert QuoteCount(['"']) == 1 by { assert ['"'][..0] == []; }
  }

  lemma InnerQuoteFree(b: string, k: nat)
    requires '"' !in b && k <= |b|
    ensures '"' !in b[..k]
  {
    assert forall j :: 0 <= j < k ==> b[..k][j] == b[j];
  }

  /** A quoted span adds two quotes. */
  lemma QuotedSpanCount(p: string, b: string)
    requires '"' !in b
    ensures QuoteCount(p + (['"'] + b + ['"'])) == QuoteCount(p) + 2
  {
    QuoteCountOfQuoteFree(b);
    assert p + (['"'] + b + ['"']) == ((p + ['"']) + b) + ['"'];
    QuoteCountAppend(p, ['"']);
    QuoteCountAppend(p + ['"'], b);
    QuoteCountAppend((p + ['"']) + b, ['"']);
    assert QuoteCount(['"']) == 1 by { assert ['"'][..0] == []; }
  }

  /** A comma outside quotes starts a new piece holding all that follows it,
      when nothing after it separates. */
  lemma {:induction false} PiecesAfterSeparator(s: string, t: string)
    requires QuoteCount(s) % 2 == 0
    requires forall i :: |s| < i < |s| + 1 + |t| ==> !IsSeparator(s + [','] + t, i)
    ensures Pieces(s + [','] + t) == Pieces(s) + [t]
    decreases |t|
  {
    if t == [] {
      assert s + [','] + t == s + [','];
      assert (s + [','])[..|s|] == s;
      PiecesSnocSeparator(s);
    } else {
      var t', c := t[..|t| - 1], t[|t| - 1];
      var u := s + [','] + t';
      assert (s + [','] + t)[..|u|] == u;
      NoSeparatorInPrefix(s + [','] + t, |s|, |u|);
      PiecesAfterSeparator(s, t');
      assert t == t' + [c];
      assert u + [c] == s + [','] + t;
      assert !IsSeparator(u + [c], |u|);
      PiecesLastGrows(s, t', c);
    }
  }

  /** A prefix keeps the absence of separators between its positions. */
  lemma NoSeparatorInPrefix(x: string, lo: nat, n: nat)
    requires n <= |x|
    requires forall i :: lo < i < |x| ==> !IsSeparator(x, i)
    ensures forall i :: lo < i < n ==> !IsSeparator(x[..n], i)
  {
    forall i | lo < i < n ensures !IsSeparator(x[..n], i) {
      SeparatorInPrefix(x, n, i);
    }
  }

  /** A non-separating character lengthens the piece after the last separator. */
  lemma PiecesLastGrows(s: string, t: string, c: char)
    requires Pieces(s + [','] + t) == Pieces(s) + [t]
    requires !IsSeparator(s + [','] + t + [c], |s + [','] + t|)
    ensures Pieces(s + [','] + (t + [c])) == Pieces(s) + [t + [c]]
  {
    var u := s + [','] + t;
    assert u + [c] == s + [','] + (t + [c]);
    PiecesSnocOther(u, c);
    var a := Pieces(s);
    assert (a + [t])[..|a|] == a && (a + [t])[|a|] == t;
  }

  /** Nothing in a comma-free tail separates. */
  lemma CommaFreeTail(s: string, t: string)
    requires ',' !in t
    ensures forall i :: |s| <= i < |s + t| ==> !IsSeparator(s + t, i)
  {
    forall i | |s| <= i < |s + t| ensures !IsSeparator(s + t, i) {
      assert (s + t)[i] == t[i - |s|];
    }
  }

  /** A comma-free field followed by a quoted field: two pieces, and the
      quotes are balanced again after them. */
  lemma UnquotedThenQuoted(a: string, b: string)
    requires '"' !in a && ',' !in a && '"' !in b
    ensures Pieces(a + [','] + (['"'] + b + ['"'])) == [a, ['"'] + b + ['"']]
    ensures QuoteCount(a + [','] + (['"'] + b + ['"'])) == 2
  {
    var q := ['"'] + b + ['"'];
    var s1 := a + [','];
    QuoteCountOfQuoteFree(a);
    OnePiece(a);
    forall i | |a| < i < |a| + 1 + |q| ensures !IsSeparator(s1 + q, i) {
      QuotedSpanNoSeparator(s1, b, i);
    }
    PiecesAfterSeparator(a, q);
    QuoteCountAppend(a, [',']);
    assert QuoteCount([',']) == 0 by { assert [','][..0] == []; }
    QuotedSpanCount(s1, b);
  }

  /** A quoted span keeps its commas: a comma-free field, a quoted field and
      another comma-free field give exactly those three pieces. */
  lemma QuotedFieldKeepsCommas(a: string, b: string, d: string)
    requires '"' !in a && ',' !in a
    requires '"' !in b
    requires '"' !in d && ',' !in d
    ensures Pieces(a + [','] + (['"'] + b + ['"']) + [','] + d) == [a, ['"'] + b + ['"'], d]
  {
    var s2 := a + [','] + (['"'] + b + ['"']);
    UnquotedThenQuoted(a, b);
    CommaFreeTail(s2 + [','], d);
    PiecesAfterSeparator(s2, d);
  }

  /** Three fields, the middle one quoted, come out without their quotes. */
  lemma QuotedMiddleField(a: string, b: string, d: string)
    requires '"' !in a && ',' !in a && IsTrimmed(a)
    requires '"' !in b && IsTrimmed(b)
    requires '"' !in d && ',' !in d && IsTrimmed(d)
    ensures Fields(a + [','] + (['"'] + b + ['"']) + [','] + d) == [a, b, d]
  {
    QuotedFieldKeepsCommas(a, b, d);
    PlainField(a);
    PlainField(d);
    QuotedField(b);
  }

  /** A piece without quotes or surrounding whitespace is its own field. */
  lemma PlainField(s: string)
    requires '"' !in s && IsTrimmed(s)
    ensures Trim(DropQuotes(s)) == s
  {
    DropQuotesOfQuoteFree(s);
  }

  /** A quoted piece loses its quotes. */
  lemma QuotedField(b: string)
    requires '"' !in b && IsTrimmed(b)
    ensures Trim(DropQuotes(['"'] + b + ['"'])) == b
  {
    assert DropQuotes(['"']) == [] by { assert ['"'][..0] == []; }
    DropQuotesOfQuoteFree(b);
    DropQuotesAppend(['"'], b);
    assert DropQuotes(['"'] + b) == b;
    DropQuotesAppend(['"'] + b, ['"']);
    assert DropQuotes(['"'] + b + ['"']) == b;
  }

  /** What the splitter holds after reading `s`: the finished fields, the
      unfinished field (quotes dropped, not yet trimmed) and the quote state. */
  ghost predicate Scanned(s: string, result: seq<string>, current: string, inQuotes: bool) {
    var P := Pieces(s);
    inQuotes == InQuotes(s) &&
    |result| == |P| - 1 && current == DropQuotes(P[|P| - 1]) &&
    forall k :: 0 <= k < |result| ==> result[k] == Trim(DropQuotes(P[k]))
  }

  /** Lengthening the last piece leaves the finished fields as they were. */
  lemma FinishedKept(P: seq<string>, P': seq<string>, result: seq<string>, extra: string)
    requires |P| > 0 && P' == P[..|P| - 1] + [P[|P| - 1] + extra]
    requires |result| == |P| - 1
    requires forall k :: 0 <= k < |result| ==> result[k] == Trim(DropQuotes(P[k]))
    ensures |result| == |P'| - 1 && P'[|P'| - 1] == P[|P| - 1] + extra
    ensures forall k :: 0 <= k < |result| ==> result[k] == Trim(DropQuotes(P'[k]))
  {
    forall k | 0 <= k < |result| ensures P'[k] == P[k] {
      assert P'[k] == P[..|P| - 1][k];
    }
  }

  /** Reading a quote flips the state and adds nothing to the unfinished field. */
  lemma ScanQuote(s: string, result: seq<string>, current: string, inQuotes: bool)
    requires Scanned(s, result, current, inQuotes)
    ensures Scanned(s + ['"'], result, current, !inQuotes)
  {
    var P := Pieces(s);
    assert (s + ['"'])[..|s|] == s;
    PiecesSnocOther(s, '"');
    FinishedKept(P, Pieces(s + ['"']), result, ['"']);
    QuoteAddedFlips(s);
    DropQuotesAppend(P[|P| - 1], ['"']);
    assert DropQuotes(['"']) == [] by { assert ['"'][..0] == []; }
  }

  /** One more quote flips the quote state. */
  lemma QuoteAddedFlips(s: string)
    ensures InQuotes(s + ['"']) == !InQuotes(s)
  {
    QuoteCountAppend(s, ['"']);
    assert QuoteCount(['"']) == 1 by { assert ['"'][..0] == []; }
    ParityFlip(QuoteCount(s));
  }

  /** Parity of a successor, kept apart so that the quote-state proofs
      do not carry modular arithmetic in their own context. */
  lemma ParityFlip(n: nat)
    ensures ((n + 1) % 2 == 1) == !(n % 2 == 1)
  {
  }

  /** Even plus even is even, kept apart for the same reason. */
  lemma EvenSum(a: nat, b: nat)
    requires a % 2 == 0 && b % 2 == 0
    ensures (a + b) % 2 == 0
  {
  }

  /** Reading a separating comma finishes the field. */
  lemma ScanSeparator(s: string, result: seq<string>, current: string, inQuotes: bool)
    requires Scanned(s, result, current, inQuotes) && !inQuotes
    ensures Scanned(s + [','], result + [Trim(current)], "", false)
  {
    assert (s + [','])[..|s|] == s;
    PiecesSnocSeparator(s);
    QuoteCountAppend(s, [',']);
  }

  /** Reading any other character adds it to the unfinished field. */
  lemma ScanOther(s: string, c: char, result: seq<string>, current: string, inQuotes: bool)
    requires Scanned(s, result, current, inQuotes)
    requires c != '"' && (c != ',' || inQuotes)
    ensures Scanned(s + [c], result, current + [c], inQuotes)
  {
    var P := Pieces(s);
    assert (s + [c])[..|s|] == s;
    PiecesSnocOther(s, c);
    FinishedKept(P, Pieces(s + [c]), result, [c]);
    QuoteCountAppend(s, [c]);
    assert QuoteCount([c]) == 0 by { assert [c][..0] == []; }
    DropQuotesAppend(P[|P| - 1], [c]);
    assert DropQuotes([c]) == [c] by { assert [c][..0] == []; }
  }

  /** At the end of the line the unfinished field is the last field. */
  lemma ScannedAll(s: string, result: seq<string>, current: string, inQuotes: bool)
    requires Scanned(s, result, current, inQuotes)
    ensures result + [Trim(current)] == Fields(s)
  {
    var F := Fields(s);
    var r := result + [Trim(current)];
    assert |r| == |F|;
    forall k | 0 <= k < |r| ensures r[k] == F[k] {
    }
  }

  /** `parseCSVLine`: the two-state character loop. */
  method ParseLine(line: string) returns (result: seq<string>)
    ensures result == Fields(line)
  {
    result := [];
    var current := "";
    var inQuotes := false;
    for i := 0 to |line|
      invariant Scanned(line[..i], result, current, inQuotes)
    {
      var c := line[i];
      assert line[..i + 1] == line[..i] + [c];
      if c == '"' {
        ScanQuote(line[..i], result, current, inQuotes);
        inQuotes := !inQuotes;
      } else if c == ',' && !inQuotes {
        ScanSeparator(line[..i], result, current, inQuotes);
        result := result + [Trim(current)];
        current := "";
      } else {
        ScanOther(line[..i], c, result, current, inQuotes);
        current := current + [c];
      }
    }
    assert line[..|line|] == line;
    ScannedAll(line, result, current, inQuotes);
    result := result + [Trim(current)];
  }
}
