/** The intersection half of `analyzeColumns`: every file's column names as
    a set, the sets reduced by pairwise intersection, the result sorted. */
module Analysis {
  import opened Ordering

  /** `x` is a column of every file. */
  predicate InEvery(x: string, cs: seq<seq<string>>) {
    forall k :: 0 <= k < |cs| ==> x in cs[k]
  }

  /** `Array.from(new Set(cols))`: each name once, in order of first appearance. */
  function Dedup(cols: seq<string>): (r: seq<string>)
    ensures Distinct(r)
    ensures forall x :: x in r <==> x in cols
    decreases |cols|
  {
    if cols == [] then []
    else
      var x := cols[|cols| - 1];
      var r := Dedup(cols[..|cols| - 1]);
      assert cols == cols[..|cols| - 1] + [x];
      if x in r then r else r + [x]
  }

  /** `[...acc].filter(col => current.has(col))`: the names of `acc` that are
      also in `current`, in the order of `acc`. */
  function Keep(acc: seq<string>, current: seq<string>): (r: seq<string>)
    ensures forall x :: x in r <==> x in acc && x in current
    ensures Distinct(acc) ==> Distinct(r)
    decreases |acc|
  {
    if acc == [] then []
    else
      var x := acc[|acc| - 1];
      var init := acc[..|acc| - 1];
      var r := Keep(init, current);
      assert acc == init + [x];
      assert Distinct(acc) ==> Distinct(init) && x !in init;
      if x in current then r + [x] else r
  }

  /** `allColumns.reduce((acc, currentSet) => …)`: the first file's name set,
      narrowed by every later file in turn. */
  function Intersection(cs: seq<seq<string>>): (r: seq<string>)
    requires |cs| > 0
    ensures Distinct(r)
    ensures forall x :: x in r <==> InEvery(x, cs)
    decreases |cs|
  {
    if |cs| == 1 then Dedup(cs[0])
    else
      var init := cs[..|cs| - 1];
      var r := Keep(Intersection(init), cs[|cs| - 1]);
      assert forall x :: InEvery(x, cs) <==> InEvery(x, init) && x in cs[|cs| - 1] by {
        forall x ensures InEvery(x, cs) <==> InEvery(x, init) && x in cs[|cs| - 1] {
          if InEvery(x, init) && x in cs[|cs| - 1] {
            forall k | 0 <= k < |cs| ensures x in cs[k] {
              if k < |cs| - 1 { assert cs[k] == init[k]; }
            }
          }
        }
      }
      r
  }

  /** `Array.from(intersection).sort()`: the names every file has, once
      each, in ascending order. */
  function SharedColumns(cs: seq<seq<string>>): (r: seq<string>)
    requires |cs| > 0
    ensures StrictlyIncreasing(r)
    ensures forall x :: x in r <==> InEvery(x, cs)
  {
    var i := Intersection(cs);
    SortDistinct(i);
    assert forall x :: x in Sort(i) <==> x in multiset(Sort(i));
    Sort(i)
  }

  /** The shared columns are the one ascending, duplicate-free list of the
      names every file has. */
  lemma SharedColumnsUnique(cs: seq<seq<string>>, r: seq<string>)
    requires |cs| > 0
    requires StrictlyIncreasing(r)
    requires forall x :: x in r <==> InEvery(x, cs)
    ensures SharedColumns(cs) == r
  {
    StrictlyIncreasingUnique(SharedColumns(cs), r);
  }

  /** With one file the result is that file's column set, sorted. */
  lemma SharedOfOne(c: seq<string>, r: seq<string>)
    requires StrictlyIncreasing(r)
    requires forall x :: x in r <==> x in c
    ensures SharedColumns([c]) == r
  {
    assert forall x :: InEvery(x, [c]) <==> x in c by {
      forall x ensures InEvery(x, [c]) <==> x in c {
        if x in c { assert forall k :: 0 <= k < 1 ==> [c][k] == c; }
        if InEvery(x, [c]) { assert [c][0] == c; }
      }
    }
    SharedColumnsUnique([c], r);
  }

  /** A file whose columns are already ascending and duplicate-free shares all of them. */
  lemma SharedOfOneSorted(c: seq<string>)
    requires StrictlyIncreasing(c)
    ensures SharedColumns([c]) == c
  {
    SharedOfOne(c, c);
  }

  /** The order in which files were added does not matter. */
  lemma SharedOrderIndependent(cs: seq<seq<string>>, ps: seq<seq<string>>)
    requires |cs| > 0 && multiset(cs) == multiset(ps)
    ensures |ps| > 0 && SharedColumns(cs) == SharedColumns(ps)
  {
    assert cs[0] in multiset(ps);
    forall x ensures InEvery(x, cs) <==> InEvery(x, ps) {
      if InEvery(x, cs) {
        forall k | 0 <= k < |ps| ensures x in ps[k] {
          assert ps[k] in multiset(cs);
          var m :| 0 <= m < |cs| && cs[m] == ps[k];
        }
      }
      if InEvery(x, ps) {
        forall k | 0 <= k < |cs| ensures x in cs[k] {
          assert cs[k] in multiset(ps);
          var m :| 0 <= m < |ps| && ps[m] == cs[k];
        }
      }
    }
    SharedColumnsUnique(ps, SharedColumns(cs));
  }

  /** Intersecting a group of files first and the rest afterwards gives the
      same names as intersecting all of them at once. */
  lemma SharedRegroup(a: seq<seq<string>>, b: seq<seq<string>>)
    requires |a| > 0
    ensures SharedColumns(a + b) == SharedColumns([SharedColumns(a)] + b)
  {
    var s := SharedColumns(a);
    var sb := [s] + b;
    forall x ensures InEvery(x, a + b) <==> InEvery(x, sb) {
      if InEvery(x, a + b) {
        EveryOfJoin(a, b, x);
        assert x in s;
        OnlyOne(s, x);
        JoinOfEvery([s], b, x);
      }
      if InEvery(x, sb) {
        EveryOfJoin([s], b, x);
        OnlyOne(s, x);
        JoinOfEvery(a, b, x);
      }
    }
    SharedColumnsUnique(sb, SharedColumns(a + b));
  }

  /** A name of every file of two groups is a name of every file of each. */
  lemma EveryOfJoin(a: seq<seq<string>>, b: seq<seq<string>>, x: string)
    requires InEvery(x, a + b)
    ensures InEvery(x, a) && InEvery(x, b)
  {
    forall k | 0 <= k < |a| ensures x in a[k] {
      assert (a + b)[k] == a[k];
    }
    forall k | 0 <= k < |b| ensures x in b[k] {
      assert (a + b)[|a| + k] == b[k];
    }
  }

  /** A name of every file of each of two groups is a name of every file of both. */
  lemma JoinOfEvery(a: seq<seq<string>>, b: seq<seq<string>>, x: string)
    requires InEvery(x, a) && InEvery(x, b)
    ensures InEvery(x, a + b)
  {
    forall k | 0 <= k < |a + b| ensures x in (a + b)[k] {
      if k < |a| {
        assert (a + b)[k] == a[k];
      } else {
        assert (a + b)[k] == b[k - |a|];
      }
    }
  }

  /** The files of a one-file group are that file. */
  lemma OnlyOne(s: seq<string>, x: string)
    ensures InEvery(x, [s]) <==> x in s
  {
    assert [s][0] == s;
  }

  /** Intersecting with a file already present changes nothing. */
  lemma SharedRepeat(cs: seq<seq<string>>, k: nat)
    requires k < |cs|
    ensures SharedColumns(cs + [cs[k]]) == SharedColumns(cs)
  {
    var cc := cs + [cs[k]];
    forall x ensures InEvery(x, cc) <==> InEvery(x, cs) {
      if InEvery(x, cc) {
        forall m | 0 <= m < |cs| ensures x in cs[m] { assert cc[m] == cs[m]; }
      }
      if InEvery(x, cs) {
        forall m | 0 <= m < |cc| ensures x in cc[m] {
          if m < |cs| { assert cc[m] == cs[m]; }
        }
      }
    }
    SharedColumnsUnique(cc, SharedColumns(cs));
  }

  /** Adding a file can only remove shared names. */
  lemma SharedShrinks(cs: seq<seq<string>>, c: seq<string>, x: string)
    requires |cs| > 0 && x in SharedColumns(cs + [c])
    ensures x in SharedColumns(cs) && x in c
  {
    var cc := cs + [c];
    assert cc[|cs|] == c;
    forall m | 0 <= m < |cs| ensures x in cs[m] { assert cc[m] == cs[m]; }
  }
}
