/** The JavaScript string operations the merger relies on: `trim`, the
    whitespace class `\s`, `split`, `join` and ASCII lower-casing. */
module Strings {

  /** ECMAScript WhiteSpace and LineTerminator code points: exactly the
      characters `String.prototype.trim` removes and the regex class `\s` matches. */
  predicate IsJsSpace(c: char) {
    var n := c as int;
    n == 0x09 || n == 0x0A || n == 0x0B || n == 0x0C || n == 0x0D || n == 0x20 ||
    n == 0xA0 || n == 0x1680 || (0x2000 <= n <= 0x200A) || n == 0x2028 || n == 0x2029 ||
    n == 0x202F || n == 0x205F || n == 0x3000 || n == 0xFEFF
  }

  predicate IsTrimmed(s: string) {
    s == [] || (!IsJsSpace(s[0]) && !IsJsSpace(s[|s| - 1]))
  }

  /** Drops the leading whitespace. */
  function TrimStart(s: string): (r: string)
    ensures |r| <= |s|
    ensures r == [] || !IsJsSpace(r[0])
  {
    if s != [] && IsJsSpace(s[0]) then TrimStart(s[1..]) else s
  }

  /** What `TrimStart` drops is a whitespace prefix. */
  lemma {:induction false} TrimStartDropsSpaces(s: string)
    ensures TrimStart(s) == s[|s| - |TrimStart(s)|..]
    ensures forall i :: 0 <= i < |s| - |TrimStart(s)| ==> IsJsSpace(s[i])
    decreases |s|
  {
    if s != [] && IsJsSpace(s[0]) {
      TrimStartDropsSpaces(s[1..]);
    }
  }

  /** Drops the trailing whitespace. */
  function TrimEnd(s: string): (r: string)
    ensures |r| <= |s|
    ensures r == [] || !IsJsSpace(r[|r| - 1])
  {
    if s != [] && IsJsSpace(s[|s| - 1]) then TrimEnd(s[..|s| - 1]) else s
  }

  /** What `TrimEnd` drops is a whitespace suffix. */
  lemma {:induction false} TrimEndDropsSpaces(s: string)
    ensures TrimEnd(s) == s[..|TrimEnd(s)|]
    ensures forall i :: |TrimEnd(s)| <= i < |s| ==> IsJsSpace(s[i])
    decreases |s|
  {
    if s != [] && IsJsSpace(s[|s| - 1]) {
      TrimEndDropsSpaces(s[..|s| - 1]);
    }
  }

  /** `s.trim()`: the longest infix of `s` that neither starts nor ends with whitespace. */
  function Trim(s: string): (r: string)
    ensures IsTrimmed(r) && |r| <= |s|
    ensures IsTrimmed(s) ==> r == s
  {
    var t := TrimStart(s);
    TrimEndDropsSpaces(t);
    TrimEnd(t)
  }

  /** Trimming removes characters and never introduces any. */
  lemma TrimKeepsChars(s: string, c: char)
    requires c in Trim(s)
    ensures c in s
  {
    var t := TrimStart(s);
    TrimStartDropsSpaces(s);
    TrimEndDropsSpaces(t);
    assert c in t;
  }

  /** A string trims to nothing exactly when it is all whitespace. */
  lemma TrimEmpty(s: string)
    ensures Trim(s) == [] <==> forall i :: 0 <= i < |s| ==> IsJsSpace(s[i])
  {
    if Trim(s) == [] {
      TrimEmptyAllSpaces(s);
    } else {
      TrimKeepsOneChar(s);
    }
  }

  lemma TrimEmptyAllSpaces(s: string)
    requires Trim(s) == []
    ensures forall i :: 0 <= i < |s| ==> IsJsSpace(s[i])
  {
    var t := TrimStart(s);
    TrimStartDropsSpaces(s);
    TrimEndDropsSpaces(t);
    assert t == [];
  }

  /** A string that does not trim to nothing keeps a non-space character. */
  lemma TrimKeepsOneChar(s: string)
    requires Trim(s) != []
    ensures exists i :: 0 <= i < |s| && !IsJsSpace(s[i])
  {
    var t := TrimStart(s);
    TrimStartDropsSpaces(s);
    TrimEndDropsSpaces(t);
    var k := |s| - |t|;
    assert t[0] == Trim(s)[0];
    assert s[k] == t[0];
  }

  /** `s.split(sep)`: the maximal sep-free pieces between separators, in order;
      the empty string splits into one empty piece. */
  function Split(s: string, sep: char): (r: seq<string>)
    ensures |r| > 0
    decreases |s|
  {
    if s == [] then [[]]
    else
      var p := Split(s[..|s| - 1], sep);
      if s[|s| - 1] == sep then p + [[]]
      else p[..|p| - 1] + [p[|p| - 1] + [s[|s| - 1]]]
  }

  /** `parts.join(sep)`. */
  function Join(parts: seq<string>, sep: char): (r: string)
    ensures |parts| == 1 ==> r == parts[0]
  {
    if |parts| == 0 then []
    else if |parts| == 1 then parts[0]
    else Join(parts[..|parts| - 1], sep) + [sep] + parts[|parts| - 1]
  }

  /** The text after the last `sep`, or all of `s` when it has none: `s.split(sep).pop()`. */
  function LastPiece(s: string, sep: char): (r: string)
    ensures sep !in r && |r| <= |s|
    decreases |s|
  {
    if s == [] then []
    else if s[|s| - 1] == sep then []
    else LastPiece(s[..|s| - 1], sep) + [s[|s| - 1]]
  }

  /** The last piece is a suffix, and it is the whole text or comes right after a `sep`. */
  lemma {:induction false} LastPieceIsTail(s: string, sep: char)
    ensures var r := LastPiece(s, sep);
      r == s[|s| - |r|..] && (|r| < |s| ==> s[|s| - |r| - 1] == sep)
    decreases |s|
  {
    if s != [] && s[|s| - 1] != sep {
      var t := s[..|s| - 1];
      LastPieceIsTail(t, sep);
      var r := LastPiece(t, sep);
      assert LastPiece(s, sep) == r + [s[|s| - 1]];
      assert s[|t| - |r|..] == t[|t| - |r|..] + [s[|s| - 1]];
      if |r| < |t| {
        assert s[|t| - |r| - 1] == t[|t| - |r| - 1];
      }
    }
  }

  /** Text without `sep` is its own last piece. */
  lemma {:induction false} LastPieceWhole(s: string, sep: char)
    requires sep !in s
    ensures LastPiece(s, sep) == s
    decreases |s|
  {
    if s != [] {
      assert s[|s| - 1] in s;
      assert sep !in s[..|s| - 1];
      LastPieceWhole(s[..|s| - 1], sep);
    }
  }

  /** The last piece is what follows the last `sep`. */
  lemma {:induction false} LastPieceAfter(p: string, sep: char, e: string)
    requires sep !in e
    ensures LastPiece(p + [sep] + e, sep) == e
    decreases |e|
  {
    if e == [] {
      assert p + [sep] + e == p + [sep];
    } else {
      var e' := e[..|e| - 1];
      assert e[|e| - 1] in e;
      assert sep !in e';
      LastPieceAfter(p, sep, e');
      assert (p + [sep] + e)[..|p + [sep] + e| - 1] == p + [sep] + e';
    }
  }

  lemma {:induction false} LastPieceIsLastOfSplit(s: string, sep: char)
    ensures LastPiece(s, sep) == Split(s, sep)[|Split(s, sep)| - 1]
    decreases |s|
  {
    if s != [] {
      LastPieceIsLastOfSplit(s[..|s| - 1], sep);
    }
  }

  lemma JoinExtendLast(q: seq<string>, x: string, t: string, sep: char)
    ensures Join(q + [x + t], sep) == Join(q + [x], sep) + t
  {
    if |q| > 0 {
      assert (q + [x + t])[..|q|] == q;
      assert (q + [x])[..|q|] == q;
    }
  }

  /** One more part is joined on after a separator. */
  lemma JoinSnoc(q: seq<string>, x: string, sep: char)
    requires |q| > 0
    ensures Join(q + [x], sep) == Join(q, sep) + [sep] + x
  {
    assert (q + [x])[..|q|] == q;
    assert (q + [x])[|q|] == x;
  }

  /** Joining the pieces of a split gives back the text. */
  lemma {:induction false} JoinSplit(s: string, sep: char)
    ensures Join(Split(s, sep), sep) == s
    decreases |s|
  {
    if s != [] {
      var t, c := s[..|s| - 1], s[|s| - 1];
      var p := Split(t, sep);
      JoinSplit(t, sep);
      assert s == t + [c];
      if c == sep {
        assert Split(s, sep) == p + [[]];
        JoinSnoc(p, [], sep);
        assert Join(p, sep) + [sep] + [] == s;
      } else {
        var q, x := p[..|p| - 1], p[|p| - 1];
        assert Split(s, sep) == q + [x + [c]];
        JoinExtendLast(q, x, [c], sep);
        assert q + [x] == p;
      }
    }
  }

  lemma SplitAtSeparator(s: string, sep: char)
    ensures Split(s + [sep], sep) == Split(s, sep) + [[]]
  {
    assert (s + [sep])[..|s|] == s;
  }

  /** No piece of a split holds the separator. */
  lemma {:induction false} SplitPiecesFree(s: string, sep: char)
    ensures forall k :: 0 <= k < |Split(s, sep)| ==> sep !in Split(s, sep)[k]
    decreases |s|
  {
    if s != [] {
      var t, c := s[..|s| - 1], s[|s| - 1];
      var p := Split(t, sep);
      SplitPiecesFree(t, sep);
      var r := Split(s, sep);
      forall k | 0 <= k < |r| ensures sep !in r[k] {
        if c == sep {
          assert r == p + [[]];
          if k < |p| {
            assert r[k] == p[k];
          }
        } else {
          assert r == p[..|p| - 1] + [p[|p| - 1] + [c]];
          if k < |p| - 1 {
            assert r[k] == p[k];
          } else {
            assert r[k] == p[|p| - 1] + [c];
          }
        }
      }
    }
  }

  /** A character other than the separator lengthens the last piece. */
  lemma SplitSnocOther(s: string, c: char, sep: char)
    requires c != sep
    ensures var p := Split(s, sep);
      Split(s + [c], sep) == p[..|p| - 1] + [p[|p| - 1] + [c]]
  {
    assert (s + [c])[..|s|] == s;
  }

  /** Text without the separator is one piece. */
  lemma {:induction false} SplitWhole(x: string, sep: char)
    requires sep !in x
    ensures Split(x, sep) == [x]
    decreases |x|
  {
    if x != [] {
      var x', c := x[..|x| - 1], x[|x| - 1];
      assert c in x && sep !in x';
      SplitWhole(x', sep);
      assert x == x' + [c];
      SplitSnocOther(x', c, sep);
      assert [x'][..0] == [];
    }
  }

  /** Separator-free text after a separator is one more piece. */
  lemma {:induction false} SplitAfterSeparator(s: string, x: string, sep: char)
    requires sep !in x
    ensures Split(s + [sep] + x, sep) == Split(s, sep) + [x]
    decreases |x|
  {
    var a := Split(s, sep);
    if x == [] {
      assert s + [sep] + x == s + [sep];
      SplitAtSeparator(s, sep);
    } else {
      var x', c := x[..|x| - 1], x[|x| - 1];
      assert c in x && sep !in x';
      SplitAfterSeparator(s, x', sep);
      assert s + [sep] + x == (s + [sep] + x') + [c];
      SplitSnocOther(s + [sep] + x', c, sep);
      assert (a + [x'])[..|a|] == a && (a + [x'])[|a|] == x';
      assert x' + [c] == x;
    }
  }

  /** Splitting a join of separator-free pieces gives back the pieces. */
  lemma {:induction false} SplitJoin(parts: seq<string>, sep: char)
    requires |parts| > 0
    requires forall k :: 0 <= k < |parts| ==> sep !in parts[k]
    ensures Split(Join(parts, sep), sep) == parts
    decreases |parts|
  {
    var x := parts[|parts| - 1];
    assert sep !in x;
    if |parts| == 1 {
      SplitWhole(x, sep);
    } else {
      var q := parts[..|parts| - 1];
      JoinSnoc(q, x, sep);
      assert q + [x] == parts;
      SplitJoin(q, sep);
      SplitAfterSeparator(Join(q, sep), x, sep);
    }
  }

  /** A joined text holds only characters of its parts and the separator. */
  lemma {:induction false} JoinKeepsOut(parts: seq<string>, sep: char, c: char)
    requires c != sep
    requires forall k :: 0 <= k < |parts| ==> c !in parts[k]
    ensures c !in Join(parts, sep)
    decreases |parts|
  {
    if |parts| > 1 {
      JoinKeepsOut(parts[..|parts| - 1], sep, c);
      assert c !in parts[|parts| - 1];
    }
  }

  /** A join starts with the first part's first character. */
  lemma {:induction false} JoinHead(parts: seq<string>, sep: char)
    requires |parts| > 0 && |parts[0]| > 0
    ensures |Join(parts, sep)| > 0 && Join(parts, sep)[0] == parts[0][0]
    decreases |parts|
  {
    if |parts| > 1 {
      JoinHead(parts[..|parts| - 1], sep);
    }
  }

  /** `toLowerCase` on the characters that matter: ASCII capitals map to small
      letters, everything else is left as it is. */
  function ToLowerAscii(s: string): (r: string)
    ensures |r| == |s|
    ensures forall i :: 0 <= i < |s| ==> !('A' <= r[i] <= 'Z')
    ensures forall i :: 0 <= i < |s| && !('A' <= s[i] <= 'Z') ==> r[i] == s[i]
    ensures forall i :: 0 <= i < |s| && 'A' <= s[i] <= 'Z' ==> r[i] == (s[i] as int + 32) as char
  {
    seq(|s|, i requires 0 <= i < |s| =>
      if 'A' <= s[i] <= 'Z' then (s[i] as int + 32) as char else s[i])
  }

  /** Text without capitals is left as it is. */
  lemma LowerCaseUnchanged(s: string)
    requires forall i :: 0 <= i < |s| ==> !('A' <= s[i] <= 'Z')
    ensures ToLowerAscii(s) == s
  {
  }
}
