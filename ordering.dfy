/** `Array.prototype.sort()` with no comparator on strings: ascending order
    of character codes, compared position by position. */
module Ordering {

  /** `a < b` as the default sort compares strings: at the first position
      where they differ the smaller character wins, and a proper prefix
      comes first. */
  predicate Below(a: string, b: string)
    decreases |a|
  {
    if a == [] then b != []
    else if b == [] then false
    else a[0] < b[0] || (a[0] == b[0] && Below(a[1..], b[1..]))
  }

  lemma {:induction false} BelowIrreflexive(a: string)
    ensures !Below(a, a)
    decreases |a|
  {
    if a != [] {
      BelowIrreflexive(a[1..]);
    }
  }

  lemma {:induction false} BelowTransitive(a: string, b: string, c: string)
    requires Below(a, b) && Below(b, c)
    ensures Below(a, c)
    decreases |a|
  {
    if a != [] && a[0] == b[0] && b[0] == c[0] {
      BelowTransitive(a[1..], b[1..], c[1..]);
    }
  }

  lemma BelowAsymmetric(a: string, b: string)
    requires Below(a, b)
    ensures !Below(b, a)
  {
    if Below(b, a) {
      BelowTransitive(a, b, a);
      BelowIrreflexive(a);
    }
  }

  /** Two different strings are always ordered one way or the other. */
  lemma {:induction false} BelowTotal(a: string, b: string)
    requires a != b
    ensures Below(a, b) || Below(b, a)
    decreases |a|
  {
    if a != [] && b != [] && a[0] == b[0] {
      assert a == [a[0]] + a[1..] && b == [b[0]] + b[1..];
      BelowTotal(a[1..], b[1..]);
    }
  }

  /** No element is below an earlier one. */
  predicate Sorted(s: seq<string>) {
    forall i, j :: 0 <= i < j < |s| ==> !Below(s[j], s[i])
  }

  /** Every element is below every later one. */
  predicate StrictlyIncreasing(s: seq<string>) {
    forall i, j :: 0 <= i < j < |s| ==> Below(s[i], s[j])
  }

  predicate Distinct<T(==)>(s: seq<T>) {
    forall i, j :: 0 <= i < j < |s| ==> s[i] != s[j]
  }

  /** Inserting `x` into a sorted sequence before the first element above it. */
  function Insert(x: string, s: seq<string>): (r: seq<string>)
    ensures multiset(r) == multiset(s) + multiset{x}
    decreases |s|
  {
    if s == [] then [x]
    else if Below(x, s[0]) then [x] + s
    else
      assert s == [s[0]] + s[1..];
      [s[0]] + Insert(x, s[1..])
  }

  /** Insertion keeps a sequence sorted. */
  lemma {:induction false} InsertSorted(x: string, s: seq<string>)
    requires Sorted(s)
    ensures Sorted(Insert(x, s))
    decreases |s|
  {
    if s == [] {
    } else if Below(x, s[0]) {
      forall k | 0 <= k < |s| ensures !Below(s[k], x) {
        if Below(s[k], x) {
          BelowTransitive(s[k], x, s[0]);
          BelowIrreflexive(s[0]);
        }
      }
      PrependSorted(x, s);
    } else {
      var tail := s[1..];
      SortedTail(s);
      InsertSorted(x, tail);
      InsertNoneBelow(x, tail, s[0]);
      PrependSorted(s[0], Insert(x, tail));
    }
  }

  /** No element is below `b`. */
  predicate NoneBelow(s: seq<string>, b: string) {
    forall k :: 0 <= k < |s| ==> !Below(s[k], b)
  }

  /** A head that nothing after it is below keeps a sorted sequence sorted. */
  lemma PrependSorted(x: string, s: seq<string>)
    requires Sorted(s) && NoneBelow(s, x)
    ensures Sorted([x] + s)
  {
    var r := [x] + s;
    forall i, j | 0 <= i < j < |r| ensures !Below(r[j], r[i]) {
      assert r[j] == s[j - 1];
      if i > 0 {
        assert r[i] == s[i - 1];
      }
    }
  }

  /** The tail of a sorted sequence is sorted and nothing in it is below the head. */
  lemma SortedTail(s: seq<string>)
    requires Sorted(s) && s != []
    ensures Sorted(s[1..]) && NoneBelow(s[1..], s[0])
  {
    var tail := s[1..];
    forall k | 0 <= k < |tail| ensures !Below(tail[k], s[0]) {
      assert tail[k] == s[k + 1];
    }
    forall i, j | 0 <= i < j < |tail| ensures !Below(tail[j], tail[i]) {
      assert tail[i] == s[i + 1] && tail[j] == s[j + 1];
    }
  }

  /** Inserting a value not below `b` keeps every element not below `b`. */
  lemma {:induction false} InsertNoneBelow(x: string, s: seq<string>, b: string)
    requires NoneBelow(s, b) && !Below(x, b)
    ensures NoneBelow(Insert(x, s), b)
    decreases |s|
  {
    if s == [] {
      assert Insert(x, s) == [x];
    } else if Below(x, s[0]) {
      var r := [x] + s;
      assert Insert(x, s) == r;
      forall k | 0 <= k < |r| ensures !Below(r[k], b) {
        if k > 0 {
          assert r[k] == s[k - 1];
        }
      }
    } else {
      var t := Insert(x, s[1..]);
      assert NoneBelow(s[1..], b) by {
        forall k | 0 <= k < |s[1..]| ensures !Below(s[1..][k], b) {
          assert s[1..][k] == s[k + 1];
        }
      }
      InsertNoneBelow(x, s[1..], b);
      var r := [s[0]] + t;
      assert Insert(x, s) == r;
      forall k | 0 <= k < |r| ensures !Below(r[k], b) {
        if k > 0 {
          assert r[k] == t[k - 1];
        }
      }
    }
  }

  /** `sort()`: the elements in ascending order. */
  function Sort(s: seq<string>): (r: seq<string>)
    ensures multiset(r) == multiset(s)
    ensures Sorted(r)
    decreases |s|
  {
    if s == [] then []
    else
      var t := Sort(s[..|s| - 1]);
      assert s == s[..|s| - 1] + [s[|s| - 1]];
      InsertSorted(s[|s| - 1], t);
      Insert(s[|s| - 1], t)
  }

  /** Sorting elements that are all different orders them strictly. */
  lemma SortDistinct(s: seq<string>)
    requires Distinct(s)
    ensures StrictlyIncreasing(Sort(s))
  {
    var r := Sort(s);
    forall i, j | 0 <= i < j < |r| ensures Below(r[i], r[j]) {
      if r[i] == r[j] {
        TwiceCounted(r, i, j);
        DistinctCount(s, r[i]);
      }
      BelowTotal(r[i], r[j]);
    }
  }

  /** An element found at two positions occurs at least twice. */
  lemma TwiceCounted<T>(r: seq<T>, i: nat, j: nat)
    requires i < j < |r| && r[i] == r[j]
    ensures multiset(r)[r[i]] >= 2
  {
    assert r == r[..j] + r[j..];
    assert r[i] in multiset(r[..j]);
    assert r[j] in multiset(r[j..]);
  }

  /** An element of a sequence whose elements are all different occurs once. */
  lemma {:induction false} DistinctCount<T>(s: seq<T>, x: T)
    requires Distinct(s)
    ensures multiset(s)[x] <= 1
    decreases |s|
  {
    if s != [] {
      var t := s[..|s| - 1];
      assert s == t + [s[|s| - 1]];
      DistinctCount(t, x);
      if x == s[|s| - 1] {
        assert x !in t;
      }
    }
  }

  /** There is only one strictly increasing arrangement of a set of strings. */
  lemma {:induction false} StrictlyIncreasingUnique(a: seq<string>, b: seq<string>)
    requires StrictlyIncreasing(a) && StrictlyIncreasing(b)
    requires forall x :: x in a <==> x in b
    ensures a == b
    decreases |a|
  {
    EmptyTogether(a, b);
    if a != [] {
      assert a[0] in a;
      var j :| 0 <= j < |b| && b[j] == a[0];
      assert b[0] in b;
      var i :| 0 <= i < |a| && a[i] == b[0];
      if j > 0 {
        if i == 0 {
          BelowIrreflexive(b[0]);
        } else {
          BelowAsymmetric(b[0], b[j]);
        }
      }
      assert a[0] == b[0];
      assert a == [a[0]] + a[1..] && b == [b[0]] + b[1..];
      BelowIrreflexive(a[0]);
      forall x ensures x in a[1..] <==> x in b[1..] {
        if x in a[1..] {
          var k :| 0 <= k < |a[1..]| && a[1..][k] == x;
          assert Below(a[0], a[k + 1]);
          assert x in b && x != b[0];
          var m :| 0 <= m < |b| && b[m] == x;
          assert b[1..][m - 1] == x;
        }
        if x in b[1..] {
          var k :| 0 <= k < |b[1..]| && b[1..][k] == x;
          assert Below(b[0], b[k + 1]);
          assert x in a && x != a[0];
          var m :| 0 <= m < |a| && a[m] == x;
          assert a[1..][m - 1] == x;
        }
      }
      StrictlyIncreasingUnique(a[1..], b[1..]);
      assert a == [a[0]] + a[1..] && b == [b[0]] + b[1..];
    }
  }

  /** Sequences with the same elements are empty together. */
  lemma EmptyTogether<T>(a: seq<T>, b: seq<T>)
    requires forall x :: x in a <==> x in b
    ensures a == [] <==> b == []
  {
    if a != [] {
      assert a[0] in a;
    }
    if b != [] {
      assert b[0] in b;
    }
  }
}
