/** `Array.prototype.filter` and a filter-then-map, on sequences. */
module Seqs {
  import opened Wrappers

  /** `s.filter(p)`. */
  function Filter<T>(s: seq<T>, p: T -> bool): (r: seq<T>)
    ensures |r| <= |s|
    ensures forall k :: 0 <= k < |r| ==> p(r[k]) && r[k] in s
    ensures forall x :: x in s && p(x) ==> x in r
    decreases |s|
  {
    if s == [] then []
    else
      var init := Filter(s[..|s| - 1], p);
      assert forall k :: 0 <= k < |s| - 1 ==> s[..|s| - 1][k] == s[k];
      if p(s[|s| - 1]) then init + [s[|s| - 1]] else init
  }

  /** Filtering a concatenation filters each part. */
  lemma {:induction false} FilterAppend<T>(a: seq<T>, b: seq<T>, p: T -> bool)
    ensures Filter(a + b, p) == Filter(a, p) + Filter(b, p)
    decreases |b|
  {
    if b == [] {
      assert a + b == a;
    } else {
      var init, x := b[..|b| - 1], b[|b| - 1];
      FilterAppend(a, init, p);
      var tail := if p(x) then [x] else [];
      assert (a + b)[..|a + b| - 1] == a + init && (a + b)[|a + b| - 1] == x;
      assert Filter(a + b, p) == Filter(a + init, p) + tail;
      assert Filter(b, p) == Filter(init, p) + tail;
    }
  }

  /** The values `f` gives, in order, skipping the elements it gives none for. */
  function Collect<T, U>(s: seq<T>, f: T -> Option<U>): (r: seq<U>)
    ensures |r| <= |s|
    decreases |s|
  {
    if s == [] then []
    else
      var x := f(s[|s| - 1]);
      Collect(s[..|s| - 1], f) + (if x.Some? then [x.value] else [])
  }

  lemma {:induction false} CollectAppend<T, U>(a: seq<T>, b: seq<T>, f: T -> Option<U>)
    ensures Collect(a + b, f) == Collect(a, f) + Collect(b, f)
    decreases |b|
  {
    if b == [] {
      assert a + b == a;
    } else {
      CollectAppend(a, b[..|b| - 1], f);
      assert (a + b)[..|a + b| - 1] == a + b[..|b| - 1];
    }
  }

  /** Everything collected is a value `f` gives for some element. */
  lemma {:induction false} CollectFrom<T, U>(s: seq<T>, f: T -> Option<U>, k: nat)
    requires k < |Collect(s, f)|
    ensures exists i :: 0 <= i < |s| && f(s[i]) == Some(Collect(s, f)[k])
    decreases |s|
  {
    var init := s[..|s| - 1];
    var c := Collect(init, f);
    if k < |c| {
      CollectFrom(init, f, k);
      var i :| 0 <= i < |init| && f(init[i]) == Some(c[k]);
      assert s[i] == init[i];
    } else {
      assert f(s[|s| - 1]) == Some(Collect(s, f)[k]);
    }
  }
}
