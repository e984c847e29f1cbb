/** The splice loop of `removeSelectedFile`: the checked indices are sorted
    highest first and each is spliced out of the file list in turn. */
module Removal {
  import opened Ordering

  /** `s.splice(k, 1)` on what remains: a negative start counts from the end
      (and is clamped to 0), a start at or past the end removes nothing. */
  function Splice<T>(s: seq<T>, k: int): (r: seq<T>)
    ensures |r| == if 0 <= SpliceStart(|s|, k) < |s| then |s| - 1 else |s|
  {
    var start := SpliceStart(|s|, k);
    if start < |s| then s[..start] + s[start + 1..] else s
  }

  /** Where `splice` starts for a list of length `n`. */
  function SpliceStart(n: nat, k: int): (r: nat)
    ensures k >= 0 ==> r == k
    ensures k < 0 ==> r < n || n == 0
    ensures k < 0 && n + k >= 0 ==> r == n + k
    ensures k < 0 && n + k < 0 ==> r == 0
  {
    if k >= 0 then k else if n + k < 0 then 0 else n + k
  }

  /** Splicing at a valid index removes exactly that element. */
  lemma SpliceValid<T>(s: seq<T>, k: int)
    requires 0 <= k < |s|
    ensures Splice(s, k) == s[..k] + s[k + 1..]
  {
  }

  /** Applying the splices one after another. */
  function SpliceAll<T>(s: seq<T>, ks: seq<int>): seq<T>
    decreases |ks|
  {
    if ks == [] then s else SpliceAll(Splice(s, ks[0]), ks[1..])
  }

  /** Highest first. */
  predicate Descending(ks: seq<int>) {
    forall i, j :: 0 <= i < j < |ks| ==> ks[j] <= ks[i]
  }

  predicate StrictlyDescending(ks: seq<int>) {
    forall i, j :: 0 <= i < j < |ks| ==> ks[j] < ks[i]
  }

  /** Inserting `x` into a descending sequence before the first element below it. */
  function InsertDescending(x: int, ks: seq<int>): seq<int>
    decreases |ks|
  {
    if ks == [] then [x]
    else if ks[0] <= x then [x] + ks
    else [ks[0]] + InsertDescending(x, ks[1..])
  }

  /** `indices.sort((a, b) => b - a)`. */
  function SortDescending(ks: seq<int>): seq<int>
    decreases |ks|
  {
    if ks == [] then []
    else InsertDescending(ks[|ks| - 1], SortDescending(ks[..|ks| - 1]))
  }

  /** Every element is at most `b`. */
  predicate AtMost(ks: seq<int>, b: int) {
    forall i :: 0 <= i < |ks| ==> ks[i] <= b
  }

  /** Inserting adds `x` and loses nothing. */
  lemma {:induction false} InsertCounts(x: int, ks: seq<int>)
    ensures multiset(InsertDescending(x, ks)) == multiset(ks) + multiset{x}
    decreases |ks|
  {
    if ks != [] && x < ks[0] {
      InsertCounts(x, ks[1..]);
      assert ks == [ks[0]] + ks[1..];
    }
  }

  /** Inserting a value within a bound stays within it. */
  lemma {:induction false} InsertBounded(x: int, ks: seq<int>, b: int)
    requires AtMost(ks, b) && x <= b
    ensures AtMost(InsertDescending(x, ks), b)
    decreases |ks|
  {
    if ks != [] && x < ks[0] {
      InsertBounded(x, ks[1..], b);
      var t := InsertDescending(x, ks[1..]);
      assert InsertDescending(x, ks) == [ks[0]] + t;
    }
  }

  /** Inserting keeps a descending sequence descending. */
  lemma {:induction false} InsertSorted(x: int, ks: seq<int>)
    requires Descending(ks)
    ensures Descending(InsertDescending(x, ks))
    decreases |ks|
  {
    if ks == [] {
    } else if ks[0] <= x {
      assert AtMost(ks, x) by {
        forall i | 0 <= i < |ks| ensures ks[i] <= x {
          if i > 0 {
            assert ks[i] <= ks[0];
          }
        }
      }
      PrependSorted(x, ks);
    } else {
      var tail := ks[1..];
      DescendingTail(ks);
      InsertSorted(x, tail);
      InsertBounded(x, tail, ks[0]);
      PrependSorted(ks[0], InsertDescending(x, tail));
    }
  }

  /** A head no lower than the rest keeps a descending sequence descending. */
  lemma PrependSorted(x: int, ks: seq<int>)
    requires Descending(ks) && AtMost(ks, x)
    ensures Descending([x] + ks)
  {
    var r := [x] + ks;
    forall i, j | 0 <= i < j < |r| ensures r[j] <= r[i] {
      assert r[j] == ks[j - 1];
      if i > 0 {
        assert r[i] == ks[i - 1];
      }
    }
  }

  /** The tail of a descending sequence is descending and at most its head. */
  lemma DescendingTail(ks: seq<int>)
    requires Descending(ks) && ks != []
    ensures Descending(ks[1..]) && AtMost(ks[1..], ks[0])
  {
    var tail := ks[1..];
    forall i | 0 <= i < |tail| ensures tail[i] <= ks[0] {
      assert tail[i] == ks[i + 1];
    }
    forall i, j | 0 <= i < j < |tail| ensures tail[j] <= tail[i] {
      assert tail[i] == ks[i + 1] && tail[j] == ks[j + 1];
    }
  }

  /** Sorting loses and adds nothing. */
  lemma {:induction false} SortCounts(ks: seq<int>)
    ensures multiset(SortDescending(ks)) == multiset(ks)
    decreases |ks|
  {
    if ks != [] {
      var init := ks[..|ks| - 1];
      SortCounts(init);
      InsertCounts(ks[|ks| - 1], SortDescending(init));
      assert ks == init + [ks[|ks| - 1]];
    }
  }

  /** Sorting orders highest first. */
  lemma {:induction false} SortSorted(ks: seq<int>)
    ensures Descending(SortDescending(ks))
    decreases |ks|
  {
    if ks != [] {
      var init := ks[..|ks| - 1];
      SortSorted(init);
      InsertSorted(ks[|ks| - 1], SortDescending(init));
    }
  }

  /** Sorting indices that are all different orders them strictly. */
  lemma SortDescendingDistinct(ks: seq<int>)
    requires Distinct(ks)
    ensures StrictlyDescending(SortDescending(ks))
  {
    var r := SortDescending(ks);
    SortCounts(ks);
    SortSorted(ks);
    forall i, j | 0 <= i < j < |r| ensures r[j] < r[i] {
      if r[i] == r[j] {
        TwiceCounted(r, i, j);
        DistinctCount(ks, r[i]);
      }
    }
  }

  /** The elements whose positions are not selected, in their original order. */
  function Unselected<T>(s: seq<T>, selected: set<int>): (r: seq<T>)
    ensures |r| <= |s|
    decreases |s|
  {
    if s == [] then []
    else Unselected(s[..|s| - 1], selected) + (if |s| - 1 in selected then [] else [s[|s| - 1]])
  }

  /** An element is kept exactly when its position is not selected. */
  lemma {:induction false} UnselectedMembers<T>(s: seq<T>, selected: set<int>, i: nat)
    requires i < |s| && i !in selected
    ensures s[i] in Unselected(s, selected)
    decreases |s|
  {
    if i < |s| - 1 {
      UnselectedMembers(s[..|s| - 1], selected, i);
    }
  }

  /** Only the positions below the length matter. */
  lemma {:induction false} UnselectedSameBelow<T>(s: seq<T>, a: set<int>, b: set<int>)
    requires forall i :: 0 <= i < |s| ==> (i in a <==> i in b)
    ensures Unselected(s, a) == Unselected(s, b)
    decreases |s|
  {
    if s != [] {
      UnselectedSameBelow(s[..|s| - 1], a, b);
    }
  }

  /** One more element is kept exactly when its position is not selected. */
  lemma UnselectedSnoc<T>(s: seq<T>, x: T, selected: set<int>)
    ensures Unselected(s + [x], selected) ==
      Unselected(s, selected) + (if |s| in selected then [] else [x])
  {
    assert (s + [x])[..|s|] == s;
  }

  /** Text after the last selected position is kept whole. */
  lemma {:induction false} UnselectedAppend<T>(s: seq<T>, t: seq<T>, selected: set<int>)
    requires forall i :: i in selected ==> i < |s|
    ensures Unselected(s + t, selected) == Unselected(s, selected) + t
    decreases |t|
  {
    if t == [] {
      assert s + t == s;
    } else {
      var t', x := t[..|t| - 1], t[|t| - 1];
      UnselectedAppend(s, t', selected);
      assert s + t == (s + t') + [x];
      assert |s + t'| !in selected;
      UnselectedSnoc(s + t', x, selected);
      assert t == t' + [x];
    }
  }

  /** Removing the highest selected position first leaves the lower ones in place. */
  lemma RemoveHighest<T>(s: seq<T>, k: nat, rest: set<int>)
    requires k < |s| && forall i :: i in rest ==> 0 <= i < k
    ensures Unselected(s[..k] + s[k + 1..], rest) == Unselected(s, rest + {k})
  {
    assert s == s[..k] + [s[k]] + s[k + 1..];
    RemoveMiddle(s[..k], s[k], s[k + 1..], rest);
  }

  /** Dropping `x` from between `front` and `back` is selecting its position. */
  lemma RemoveMiddle<T>(front: seq<T>, x: T, back: seq<T>, rest: set<int>)
    requires forall i :: i in rest ==> 0 <= i < |front|
    ensures Unselected(front + back, rest) == Unselected(front + [x] + back, rest + {|front|})
  {
    var all := rest + {|front|};
    UnselectedAppend(front, back, rest);
    assert forall i :: i in all ==> i < |front + [x]|;
    UnselectedAppend(front + [x], back, all);
    UnselectedSnoc(front, x, all);
    UnselectedSameBelow(front, rest, all);
    assert Unselected(front + [x], all) == Unselected(front, rest);
  }

  /** Splicing out distinct valid positions, highest first, removes exactly
      the elements at those positions and keeps the others in order. */
  lemma {:induction false} SpliceAllDescending<T>(s: seq<T>, ks: seq<int>)
    requires StrictlyDescending(ks)
    requires forall i :: 0 <= i < |ks| ==> 0 <= ks[i] < |s|
    ensures SpliceAll(s, ks) == Unselected(s, set k | k in ks)
    decreases |ks|
  {
    if ks == [] {
      assert (set k | k in ks) == {};
      UnselectedNone(s);
    } else {
      var k, tail := ks[0], ks[1..];
      var s' := s[..k] + s[k + 1..];
      StrictTail(ks);
      assert 0 <= k < |s|;
      SpliceValid(s, k);
      assert SpliceAll(s, ks) == SpliceAll(s', tail);
      SpliceAllDescending(s', tail);
      RemoveHighest(s, k, set k | k in tail);
    }
  }

  /** The tail of a strictly descending sequence is strictly descending and
      wholly below its head. */
  lemma StrictTail(ks: seq<int>)
    requires StrictlyDescending(ks) && ks != []
    requires forall i :: 0 <= i < |ks| ==> 0 <= ks[i]
    ensures StrictlyDescending(ks[1..])
    ensures forall i :: 0 <= i < |ks[1..]| ==> 0 <= ks[1..][i] < ks[0]
    ensures forall x :: x in ks[1..] ==> 0 <= x < ks[0]
    ensures (set k | k in ks) == (set k | k in ks[1..]) + {ks[0]}
  {
    var tail := ks[1..];
    forall i | 0 <= i < |tail| ensures 0 <= tail[i] < ks[0] {
      assert tail[i] == ks[i + 1];
    }
    forall i, j | 0 <= i < j < |tail| ensures tail[j] < tail[i] {
      assert tail[i] == ks[i + 1] && tail[j] == ks[j + 1];
    }
    assert ks == [ks[0]] + tail;
  }

  /** Nothing selected keeps everything. */
  lemma {:induction false} UnselectedNone<T>(s: seq<T>)
    ensures Unselected(s, {}) == s
    decreases |s|
  {
    if s != [] {
      UnselectedNone(s[..|s| - 1]);
    }
  }

  /** The whole removal: sort the checked indices highest first, then splice
      each out. For the indices the file list hands out (distinct, each a
      valid position) it removes exactly the checked files. */
  lemma RemoveChecked<T>(s: seq<T>, indices: seq<int>)
    requires Distinct(indices)
    requires forall i :: 0 <= i < |indices| ==> 0 <= indices[i] < |s|
    ensures SpliceAll(s, SortDescending(indices)) == Unselected(s, set k | k in indices)
  {
    var ks := SortDescending(indices);
    SortDescendingDistinct(indices);
    SortCounts(indices);
    SameElementsBounded(indices, ks, |s|);
    SpliceAllDescending(s, ks);
    SameElementsSameSet(indices, ks);
  }

  /** Reordering keeps every element a valid position. */
  lemma SameElementsBounded(a: seq<int>, b: seq<int>, n: nat)
    requires multiset(a) == multiset(b)
    requires forall i :: 0 <= i < |a| ==> 0 <= a[i] < n
    ensures forall i :: 0 <= i < |b| ==> 0 <= b[i] < n
  {
    forall i | 0 <= i < |b| ensures 0 <= b[i] < n {
      assert b[i] in multiset(a);
      var j :| 0 <= j < |a| && a[j] == b[i];
    }
  }

  /** Reordering keeps the set of elements. */
  lemma SameElementsSameSet(a: seq<int>, b: seq<int>)
    requires multiset(a) == multiset(b)
    ensures (set k | k in a) == (set k | k in b)
  {
    forall x ensures x in a <==> x in b {
      assert x in a <==> x in multiset(a);
      assert x in b <==> x in multiset(b);
    }
  }

  /** Two splices, one after the other. */
  lemma SpliceTwo<T>(s: seq<T>, i: int, j: int)
    ensures SpliceAll(s, [i, j]) == Splice(Splice(s, i), j)
  {
    var u := Splice(s, i);
    assert [i, j][1..] == [j];
    assert SpliceAll(s, [i, j]) == SpliceAll(u, [j]);
    assert [j][1..] == [];
    assert SpliceAll(u, [j]) == SpliceAll(Splice(u, j), []);
  }

  /** Sorting two ascending indices swaps them. */
  lemma SortTwo(i: int, j: int)
    requires i < j
    ensures SortDescending([i, j]) == [j, i]
  {
    assert [i, j][..1] == [i];
    assert [i][..0] == [];
    assert SortDescending([i]) == [i];
  }

  /** Splicing in ascending order would not do the same: removing
      positions 0 and 1 of `[a, b, c]` lowest first removes `a` and `c`. */
  lemma AscendingOrderWouldMisremove()
    ensures SpliceAll(['a', 'b', 'c'], [0, 1]) == ['b']
    ensures SpliceAll(['a', 'b', 'c'], SortDescending([0, 1])) == ['c']
  {
    LowestFirst(['a', 'b', 'c']);
    HighestFirst(['a', 'b', 'c']);
  }

  /** Of three elements, splicing position 0 and then 1 keeps the middle one. */
  lemma LowestFirst<T>(s: seq<T>)
    requires |s| == 3
    ensures SpliceAll(s, [0, 1]) == [s[1]]
  {
    SpliceTwo(s, 0, 1);
    SpliceValid(s, 0);
    var u := s[..0] + s[1..];
    assert u == [s[1], s[2]];
    SpliceValid(u, 1);
    assert u[..1] + u[2..] == [s[1]];
  }

  /** Of three elements, splicing positions 0 and 1 highest first keeps the last one. */
  lemma HighestFirst<T>(s: seq<T>)
    requires |s| == 3
    ensures SpliceAll(s, SortDescending([0, 1])) == [s[2]]
  {
    SortTwo(0, 1);
    SpliceTwo(s, 1, 0);
    SpliceValid(s, 1);
    var u := s[..1] + s[2..];
    assert u == [s[0], s[2]];
    SpliceValid(u, 0);
    assert u[..0] + u[1..] == [s[2]];
  }
}
