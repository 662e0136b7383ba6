/**
 * Sequence operations shared by the selection loop, the time-window filter
 * and the per-command summary: pandas' boolean masks keep rows in order,
 * `count` counts the rows a condition accepts, and `Series.unique()` keeps
 * the first appearance of each value.
 */
module Seqs {

  /** The elements of `s` that satisfy `p`, in their original order. */
  function Filter<T>(s: seq<T>, p: T -> bool): (r: seq<T>)
    ensures |r| <= |s|
    ensures forall x :: x in r ==> x in s && p(x)
  {
    if s == [] then [] else (if p(s[0]) then [s[0]] else []) + Filter(s[1..], p)
  }

  /**
   * Filtering commutes with concatenation: whatever `p` keeps from an
   * earlier part of the input comes before whatever it keeps from a later one.
   */
  lemma {:induction false} FilterAppend<T>(a: seq<T>, b: seq<T>, p: T -> bool)
    ensures Filter(a + b, p) == Filter(a, p) + Filter(b, p)
  {
    if a != [] {
      FilterAppend(a[1..], b, p);
      assert (a + b)[1..] == a[1..] + b;
    } else {
      assert a + b == b;
    }
  }

  /** Each element is kept exactly as often as it occurs, if `p` accepts it. */
  lemma {:induction false} FilterMultiplicity<T>(s: seq<T>, p: T -> bool, x: T)
    ensures multiset(Filter(s, p))[x] == if p(x) then multiset(s)[x] else 0
  {
    if s != [] {
      FilterMultiplicity(s[1..], p, x);
      assert s == [s[0]] + s[1..];
    }
  }

  /** The positions of `s` whose element `p` accepts. */
  ghost function Positions<T>(s: seq<T>, p: T -> bool): set<int> {
    set k | 0 <= k < |s| && p(s[k])
  }

  /** pandas' `count` of a mask: one kept element per accepted position. */
  lemma {:induction false} FilterCount<T>(s: seq<T>, p: T -> bool)
    ensures |Filter(s, p)| == |Positions(s, p)|
  {
    if s != [] {
      var init, last := s[..|s| - 1], s[|s| - 1];
      FilterCount(init, p);
      assert s == init + [last];
      FilterAppend(init, [last], p);
      assert Filter([last], p) == if p(last) then [last] else [];
      PositionsSnoc(init, last, p);
    }
  }

  lemma PositionsSnoc<T>(init: seq<T>, last: T, p: T -> bool)
    ensures Positions(init + [last], p) == Positions(init, p) + if p(last) then {|init|} else {}
    ensures |init| !in Positions(init, p)
  {
    var s := init + [last];
    assert forall k :: 0 <= k < |init| ==> s[k] == init[k];
  }

  /** A mask applied within what another mask kept accepts what both accept. */
  lemma {:induction false} FilterFilter<T>(s: seq<T>, q: T -> bool, p: T -> bool, both: T -> bool)
    requires forall x :: both(x) == (q(x) && p(x))
    ensures Filter(Filter(s, q), p) == Filter(s, both)
  {
    if s != [] {
      FilterFilter(s[1..], q, p, both);
      FilterAppend(if q(s[0]) then [s[0]] else [], Filter(s[1..], q), p);
    }
  }

  /** Two disjoint conditions that each imply a third accept no more than it. */
  lemma {:induction false} CountDisjoint<T>(s: seq<T>, p: T -> bool, q: T -> bool, r: T -> bool)
    requires forall x :: p(x) ==> r(x) && !q(x)
    requires forall x :: q(x) ==> r(x)
    ensures |Filter(s, p)| + |Filter(s, q)| <= |Filter(s, r)|
    ensures |Filter(s, p)| + |Filter(s, q)| == |Filter(s, r)| <==> forall x :: x in s && r(x) ==> p(x) || q(x)
  {
    if s != [] {
      CountDisjoint(s[1..], p, q, r);
      assert forall x :: x in s <==> x == s[0] || x in s[1..];
    }
  }

  /**
   * `list(pd.Series(s).unique())`: no value twice, every value of `s`, and
   * in order of first appearance (whenever `r[j]` occurs in `s`, `r[i]` for
   * an earlier `i` has already occurred).
   */
  function Dedup<T(==)>(s: seq<T>): (r: seq<T>)
    ensures forall i, j :: 0 <= i < j < |r| ==> r[i] != r[j]
    ensures forall i :: 0 <= i < |r| ==> r[i] in s
    ensures forall k :: 0 <= k < |s| ==> s[k] in r
    ensures forall i, j, k :: 0 <= i < j < |r| && 0 <= k < |s| && s[k] == r[j] ==> r[i] in s[..k]
  {
    if s == [] then []
    else
      var init := s[..|s| - 1];
      var last := s[|s| - 1];
      var d := Dedup(init);
      assert s == init + [last];
      assert forall k :: 0 <= k < |init| ==> s[..k] == init[..k];
      if last in d then d else d + [last]
  }
}
