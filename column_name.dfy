/** `cleanColumnName`: turning a raw header cell into a column identifier. */
module ColumnName {
  import opened Strings
  import opened Cells
  import opened Seqs

  /** The fallback name for a header that cleans to nothing. */
  const Unnamed: string := "Unnamed_Column"

  /** The regex class `\w`: ASCII letters, digits and underscore. */
  predicate IsWordChar(c: char) {
    'a' <= c <= 'z' || 'A' <= c <= 'Z' || '0' <= c <= '9' || c == '_'
  }

  /** The characters a cleaned name may hold. */
  predicate IsNameChar(c: char) {
    IsWordChar(c) || c == '-'
  }

  /** A non-empty string of letters, digits, underscores and hyphens. */
  predicate IsCleanName(s: string) {
    |s| > 0 && forall i :: 0 <= i < |s| ==> IsNameChar(s[i])
  }

  /** `s.replace(/\s+/g, ' ')`: every maximal run of whitespace becomes one space. */
  function CollapseSpaces(s: string): (r: string)
    ensures |r| <= |s|
    decreases |s|
  {
    if s == [] then []
    else if IsJsSpace(s[0]) then [' '] + CollapseSpaces(TrimStart(s))
    else [s[0]] + CollapseSpaces(s[1..])
  }

  /** The characters the class `[\w\s-]` matches. */
  predicate IsAllowed(c: char) {
    IsNameChar(c) || IsJsSpace(c)
  }

  /** `s.replace(/[^\w\s-]/g, '')`: drops everything but word characters,
      whitespace and hyphens, and keeps those in order. */
  function StripDisallowed(s: string): (r: string)
    ensures forall i :: 0 <= i < |r| ==> IsNameChar(r[i]) || IsJsSpace(r[i])
    decreases |s|
  {
    if s == [] then []
    else
      var c := s[|s| - 1];
      StripDisallowed(s[..|s| - 1]) + (if IsNameChar(c) || IsJsSpace(c) then [c] else [])
  }

  /** Stripping is the in-order filter on `[\w\s-]`: every allowed character
      is kept, in its place among the others, and nothing else. */
  lemma {:induction false} StripIsFilter(s: string)
    ensures StripDisallowed(s) == Filter(s, IsAllowed)
    ensures forall x :: x in s && IsAllowed(x) <==> x in StripDisallowed(s)
    decreases |s|
  {
    if s != [] {
      StripIsFilter(s[..|s| - 1]);
    }
  }

  /** `s.replace(/\s/g, '_')`. */
  function SpacesToUnderscores(s: string): (r: string)
    ensures |r| == |s|
    ensures forall i :: 0 <= i < |s| ==> !IsJsSpace(r[i]) && (IsJsSpace(s[i]) || r[i] == s[i])
    ensures forall i :: 0 <= i < |s| && IsJsSpace(s[i]) ==> r[i] == '_'
  {
    seq(|s|, i requires 0 <= i < |s| => if IsJsSpace(s[i]) then '_' else s[i])
  }

  /** The rewriting pipeline, before the fallback. */
  function Rewritten(s: string): string {
    SpacesToUnderscores(StripDisallowed(CollapseSpaces(Trim(s))))
  }

  /** Cleaning the text of a truthy header cell. */
  function CleanText(s: string): (r: string)
    ensures IsCleanName(r)
    ensures Rewritten(s) == [] ==> r == Unnamed
  {
    var t := Rewritten(s);
    if t == [] then Unnamed else t
  }

  /** `cleanColumnName`. */
  function CleanColumnName(c: Cell): (r: string)
    ensures IsCleanName(r)
    ensures IsFalsy(c) ==> r == Unnamed
  {
    if IsFalsy(c) then Unnamed else CleanText(Show(c))
  }

  /** The header row mapped through `cleanColumnName`. */
  function CleanHeader(row: seq<Cell>): (r: seq<string>)
    ensures |r| == |row|
    ensures forall j :: 0 <= j < |r| ==> r[j] == CleanColumnName(row[j])
  {
    seq(|row|, j requires 0 <= j < |row| => CleanColumnName(row[j]))
  }

  /** What collapsing leaves: every whitespace character is a plain space,
      and no two whitespace characters are adjacent. */
  lemma {:induction false} CollapsedSpacesSingle(s: string)
    ensures forall i :: 0 <= i < |CollapseSpaces(s)| && IsJsSpace(CollapseSpaces(s)[i]) ==>
      CollapseSpaces(s)[i] == ' '
    ensures forall i :: 0 <= i < |CollapseSpaces(s)| - 1 && IsJsSpace(CollapseSpaces(s)[i]) ==>
      !IsJsSpace(CollapseSpaces(s)[i + 1])
    decreases |s|
  {
    if s != [] {
      if IsJsSpace(s[0]) {
        var t := TrimStart(s);
        assert t == TrimStart(s[1..]);
        CollapsedSpacesSingle(t);
        CollapseAfterRun(t);
        SpaceThen(CollapseSpaces(t));
      } else {
        CollapsedSpacesSingle(s[1..]);
        WordThen(s[0], CollapseSpaces(s[1..]));
      }
    }
  }

  /** Collapsing text that starts with a non-whitespace character keeps that character first. */
  lemma CollapseAfterRun(t: string)
    requires t == [] || !IsJsSpace(t[0])
    ensures CollapseSpaces(t) == [] || !IsJsSpace(CollapseSpaces(t)[0])
  {
  }

  /** One space in front of collapsed text that does not start with whitespace. */
  lemma SpaceThen(r: string)
    requires r == [] || !IsJsSpace(r[0])
    requires forall i :: 0 <= i < |r| && IsJsSpace(r[i]) ==> r[i] == ' '
    requires forall i :: 0 <= i < |r| - 1 && IsJsSpace(r[i]) ==> !IsJsSpace(r[i + 1])
    ensures var u := [' '] + r;
      (forall i :: 0 <= i < |u| && IsJsSpace(u[i]) ==> u[i] == ' ') &&
      (forall i :: 0 <= i < |u| - 1 && IsJsSpace(u[i]) ==> !IsJsSpace(u[i + 1]))
  {
    var u := [' '] + r;
    forall i | 1 <= i < |u| ensures u[i] == r[i - 1] { }
  }

  /** A non-whitespace character in front of collapsed text. */
  lemma WordThen(c: char, r: string)
    requires !IsJsSpace(c)
    requires forall i :: 0 <= i < |r| && IsJsSpace(r[i]) ==> r[i] == ' '
    requires forall i :: 0 <= i < |r| - 1 && IsJsSpace(r[i]) ==> !IsJsSpace(r[i + 1])
    ensures var u := [c] + r;
      (forall i :: 0 <= i < |u| && IsJsSpace(u[i]) ==> u[i] == ' ') &&
      (forall i :: 0 <= i < |u| - 1 && IsJsSpace(u[i]) ==> !IsJsSpace(u[i + 1]))
  {
    var u := [c] + r;
    forall i | 1 <= i < |u| ensures u[i] == r[i - 1] { }
  }

  /** A non-empty run of whitespace in front of text that does not start
      with whitespace becomes one space. */
  lemma CollapseRun(w: string, b: string)
    requires |w| > 0 && forall i :: 0 <= i < |w| ==> IsJsSpace(w[i])
    requires b == [] || !IsJsSpace(b[0])
    ensures CollapseSpaces(w + b) == [' '] + CollapseSpaces(b)
  {
    assert (w + b)[0] == w[0];
    TrimStartPastRun(w, b);
  }

  /** Trimming the start of a whitespace run followed by such text leaves the text. */
  lemma {:induction false} TrimStartPastRun(w: string, b: string)
    requires forall i :: 0 <= i < |w| ==> IsJsSpace(w[i])
    requires b == [] || !IsJsSpace(b[0])
    ensures TrimStart(w + b) == b
    decreases |w|
  {
    if w == [] {
      assert w + b == b;
    } else {
      assert (w + b)[0] == w[0] && (w + b)[1..] == w[1..] + b;
      TrimStartPastRun(w[1..], b);
    }
  }

  /** Text whose whitespace is single plain spaces is left as it is. */
  lemma {:induction false} CollapseSingleSpaces(s: string)
    requires forall i :: 0 <= i < |s| && IsJsSpace(s[i]) ==> s[i] == ' '
    requires forall i :: 0 <= i < |s| - 1 && IsJsSpace(s[i]) ==> !IsJsSpace(s[i + 1])
    ensures CollapseSpaces(s) == s
    decreases |s|
  {
    if s != [] {
      var t := s[1..];
      forall i | 0 <= i < |t| - 1 && IsJsSpace(t[i]) ensures !IsJsSpace(t[i + 1]) {
        assert t[i] == s[i + 1] && t[i + 1] == s[i + 2];
      }
      CollapseSingleSpaces(t);
      if IsJsSpace(s[0]) {
        assert t == [] || !IsJsSpace(t[0]);
        assert TrimStart(t) == t;
        assert [s[0]] + t == s;
      }
    }
  }

  /** Text made only of allowed characters and whitespace passes the strip unchanged. */
  lemma {:induction false} StripAllowed(s: string)
    requires forall i :: 0 <= i < |s| ==> IsNameChar(s[i]) || IsJsSpace(s[i])
    ensures StripDisallowed(s) == s
    decreases |s|
  {
    if s != [] {
      var t := s[..|s| - 1];
      forall i | 0 <= i < |t| ensures IsNameChar(t[i]) || IsJsSpace(t[i]) {
        assert t[i] == s[i];
      }
      StripAllowed(t);
      assert s == t + [s[|s| - 1]];
    }
  }

  lemma NameCharIsNotSpace(c: char)
    requires IsNameChar(c)
    ensures !IsJsSpace(c)
  {
  }

  lemma CleanTextOfCleanName(s: string)
    requires IsCleanName(s)
    ensures CleanText(s) == s
  {
    forall i | 0 <= i < |s| ensures !IsJsSpace(s[i]) {
      NameCharIsNotSpace(s[i]);
    }
    assert IsTrimmed(s);
    assert Trim(s) == s;
    CollapseSingleSpaces(s);
    StripAllowed(s);
    assert SpacesToUnderscores(s) == s;
  }

  /** The cleaned names are exactly the fixed points of the cleaning. */
  lemma CleanTextFixedPoints(s: string)
    ensures CleanText(s) == s <==> IsCleanName(s)
  {
    if IsCleanName(s) {
      CleanTextOfCleanName(s);
    }
  }

  /** Cleaning a text cell leaves it unchanged exactly when it already is a cleaned name. */
  lemma CleanColumnNameFixedPoints(s: string)
    ensures CleanColumnName(Text(s)) == s <==> IsCleanName(s)
  {
    CleanTextFixedPoints(s);
  }

  /** `cleanColumnName(cleanColumnName(x)) == cleanColumnName(x)`. */
  lemma CleanColumnNameIdempotent(c: Cell)
    ensures CleanColumnName(Text(CleanColumnName(c))) == CleanColumnName(c)
  {
    CleanColumnNameFixedPoints(CleanColumnName(c));
  }

  /** A letter, digit or hyphen: the characters cleaning never adds or removes. */
  predicate IsSignificant(c: char) {
    IsNameChar(c) && c != '_'
  }

  /** The letters, digits and hyphens of `s`, in order. */
  function Significant(s: string): string
    decreases |s|
  {
    if s == [] then []
    else Significant(s[..|s| - 1]) + (if IsSignificant(s[|s| - 1]) then [s[|s| - 1]] else [])
  }

  lemma {:induction false} SignificantAppend(a: string, b: string)
    ensures Significant(a + b) == Significant(a) + Significant(b)
    decreases |b|
  {
    if b == [] {
      assert a + b == a;
    } else {
      SignificantAppend(a, b[..|b| - 1]);
      assert (a + b)[..|a + b| - 1] == a + b[..|b| - 1];
    }
  }

  lemma {:induction false} SignificantOfSpaces(s: string)
    requires forall i :: 0 <= i < |s| ==> IsJsSpace(s[i])
    ensures Significant(s) == []
    decreases |s|
  {
    if s != [] {
      SignificantOfSpaces(s[..|s| - 1]);
    }
  }

  lemma SignificantCons(c: char, s: string)
    ensures Significant([c] + s) == Significant([c]) + Significant(s)
    ensures Significant([c]) == if IsSignificant(c) then [c] else []
  {
    SignificantAppend([c], s);
    assert [c][..0] == [];
  }

  lemma SignificantDropSpaces(s: string)
    ensures Significant(TrimStart(s)) == Significant(s)
  {
    var t := TrimStart(s);
    TrimStartDropsSpaces(s);
    var k := |s| - |t|;
    assert s == s[..k] + t;
    SignificantAppend(s[..k], t);
    SignificantOfSpaces(s[..k]);
  }

  lemma SignificantDropTrailingSpaces(t: string)
    ensures Significant(TrimEnd(t)) == Significant(t)
  {
    var r := TrimEnd(t);
    TrimEndDropsSpaces(t);
    assert t == r + t[|r|..];
    SignificantAppend(r, t[|r|..]);
    SignificantOfSpaces(t[|r|..]);
  }

  lemma SignificantTrim(s: string)
    ensures Significant(Trim(s)) == Significant(s)
  {
    SignificantDropSpaces(s);
    SignificantDropTrailingSpaces(TrimStart(s));
  }

  lemma {:induction false} SignificantCollapse(s: string)
    ensures Significant(CollapseSpaces(s)) == Significant(s)
    decreases |s|
  {
    if s != [] {
      if IsJsSpace(s[0]) {
        SignificantCollapse(TrimStart(s));
        CollapseRunStep(s);
      } else {
        SignificantCollapse(s[1..]);
        CollapseOtherStep(s);
      }
    }
  }

  /** A run of whitespace becomes one space, which is not significant. */
  lemma CollapseRunStep(s: string)
    requires s != [] && IsJsSpace(s[0])
    requires Significant(CollapseSpaces(TrimStart(s))) == Significant(TrimStart(s))
    ensures Significant(CollapseSpaces(s)) == Significant(s)
  {
    var rest := CollapseSpaces(TrimStart(s));
    assert CollapseSpaces(s) == [' '] + rest;
    SignificantCons(' ', rest);
    assert !IsSignificant(' ');
    SignificantDropSpaces(s);
  }

  /** Any other character is kept as it is. */
  lemma CollapseOtherStep(s: string)
    requires s != [] && !IsJsSpace(s[0])
    requires Significant(CollapseSpaces(s[1..])) == Significant(s[1..])
    ensures Significant(CollapseSpaces(s)) == Significant(s)
  {
    var rest := CollapseSpaces(s[1..]);
    assert CollapseSpaces(s) == [s[0]] + rest;
    SignificantCons(s[0], rest);
    SignificantCons(s[0], s[1..]);
    assert s == [s[0]] + s[1..];
  }

  lemma {:induction false} SignificantStrip(s: string)
    ensures Significant(StripDisallowed(s)) == Significant(s)
    decreases |s|
  {
    if s != [] {
      var c := s[|s| - 1];
      SignificantStrip(s[..|s| - 1]);
      SignificantAppend(StripDisallowed(s[..|s| - 1]), if IsNameChar(c) || IsJsSpace(c) then [c] else []);
      assert Significant([c]) == Significant([] + [c]);
    }
  }

  lemma {:induction false} SignificantUnderscores(s: string)
    ensures Significant(SpacesToUnderscores(s)) == Significant(s)
    decreases |s|
  {
    if s != [] {
      var t := s[..|s| - 1];
      SignificantUnderscores(t);
      assert SpacesToUnderscores(s)[..|s| - 1] == SpacesToUnderscores(t);
    }
  }

  /** Cleaning keeps every letter, digit and hyphen of the header text, in
      order, and adds none: it only trims, drops punctuation and turns
      whitespace into underscores. This holds whenever the text has at least
      one letter, digit or hyphen (otherwise the fallback name may appear). */
  lemma CleanTextKeepsSignificant(s: string)
    requires Significant(s) != []
    ensures Significant(CleanText(s)) == Significant(s)
  {
    SignificantTrim(s);
    SignificantCollapse(Trim(s));
    SignificantStrip(CollapseSpaces(Trim(s)));
    SignificantUnderscores(StripDisallowed(CollapseSpaces(Trim(s))));
  }
}
