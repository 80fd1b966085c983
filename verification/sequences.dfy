/** Order-preserving selections from sequences, shared by the row cleaning,
    the column bookkeeping and the feature selection. */
module Sequences {

  /** No value occurs twice. */
  predicate Distinct<T(==)>(s: seq<T>) {
    forall i, j :: 0 <= i < j < |s| ==> s[i] != s[j]
  }

  /** Without repetitions, the last value does not occur before it and the
      rest has no repetitions either. */
  lemma DistinctSnoc<T>(s: seq<T>)
    requires Distinct(s) && |s| > 0
    ensures Distinct(s[..|s| - 1])
    ensures s[|s| - 1] !in s[..|s| - 1]
  {
  }

  lemma AppendAssoc<T>(a: seq<T>, b: seq<T>, c: seq<T>)
    ensures (a + b) + c == a + (b + c)
  {
  }

  /** `idx` lists positions of a sequence of length `bound`, in strictly
      increasing order. */
  predicate IncreasingBelow(idx: seq<nat>, bound: nat) {
    && (forall k :: 0 <= k < |idx| ==> idx[k] < bound)
    && (forall k, l :: 0 <= k < l < |idx| ==> idx[k] < idx[l])
  }

  /** The elements of `s` at the positions `idx`, in the order of `idx`. */
  function Select<T>(s: seq<T>, idx: seq<nat>): (r: seq<T>)
    requires forall k :: 0 <= k < |idx| ==> idx[k] < |s|
    ensures |r| == |idx|
    ensures forall k :: 0 <= k < |idx| ==> r[k] == s[idx[k]]
  {
    seq(|idx|, k requires 0 <= k < |idx| => s[idx[k]])
  }

  /** Selecting positions that all lie in a prefix reads only that prefix. */
  lemma SelectPrefix<T>(s: seq<T>, n: nat, idx: seq<nat>)
    requires n <= |s|
    requires forall k :: 0 <= k < |idx| ==> idx[k] < n
    ensures Select(s, idx) == Select(s[..n], idx)
  {
  }

  /** Selecting one more position appends that element. */
  lemma SelectSnoc<T>(s: seq<T>, idx: seq<nat>, j: nat)
    requires forall k :: 0 <= k < |idx| ==> idx[k] < |s|
    requires j < |s|
    ensures Select(s, idx + [j]) == Select(s, idx) + [s[j]]
  {
  }

  /** Appending position `n`, or nothing, to increasing positions below `n`
      keeps them increasing and leaves membership below `n` unchanged. */
  lemma AppendPosition(pre: seq<nat>, n: nat, keep: bool)
    requires IncreasingBelow(pre, n)
    ensures IncreasingBelow(pre + (if keep then [n] else []), n + 1)
    ensures forall i :: 0 <= i < n ==> (i in pre + (if keep then [n] else []) <==> i in pre)
    ensures n in pre + (if keep then [n] else []) <==> keep
  {
  }

  /** `a` is obtained from `b` by deleting elements, keeping the order of the rest. */
  ghost predicate IsSubsequence<T>(a: seq<T>, b: seq<T>) {
    exists idx: seq<nat> :: IncreasingBelow(idx, |b|) && a == Select(b, idx)
  }

  /** The elements of `s` that satisfy `p`, in their original order. */
  function Filter<T(==)>(s: seq<T>, p: T -> bool): (r: seq<T>)
    ensures forall i :: 0 <= i < |r| ==> r[i] in s && p(r[i])
    ensures forall i :: 0 <= i < |s| && p(s[i]) ==> s[i] in r
    ensures |r| <= |s|
    decreases |s|
  {
    if |s| == 0 then []
    else
      var init := s[..|s| - 1];
      assert s == init + [s[|s| - 1]];
      Filter(init, p) + (if p(s[|s| - 1]) then [s[|s| - 1]] else [])
  }

  /** The positions of the elements `Filter` keeps. */
  function FilterPositions<T>(s: seq<T>, p: T -> bool): (idx: seq<nat>)
    ensures IncreasingBelow(idx, |s|)
    ensures forall i :: 0 <= i < |s| ==> (i in idx <==> p(s[i]))
    decreases |s|
  {
    if |s| == 0 then []
    else
      var init := s[..|s| - 1];
      FilterPositions(init, p) + (if p(s[|s| - 1]) then [|s| - 1] else [])
  }

  /** Filtering keeps exactly the satisfying positions, so it is an
      order-preserving subsequence. */
  lemma {:induction false} FilterSelectsPositions<T>(s: seq<T>, p: T -> bool)
    ensures Filter(s, p) == Select(s, FilterPositions(s, p))
    decreases |s|
  {
    if |s| > 0 {
      var init := s[..|s| - 1];
      FilterSelectsPositions(init, p);
      var pre := FilterPositions(init, p);
      SelectPrefix(s, |s| - 1, pre);
      if p(s[|s| - 1]) {
        SelectSnoc(s, pre, |s| - 1);
      }
    }
  }

  /** Filtering is an order-preserving subsequence of its input. */
  lemma FilterIsSubsequence<T>(s: seq<T>, p: T -> bool)
    ensures IsSubsequence(Filter(s, p), s)
  {
    FilterSelectsPositions(s, p);
    var idx := FilterPositions(s, p);
    assert IncreasingBelow(idx, |s|) && Filter(s, p) == Select(s, idx);
  }

  /** Filtering a sequence without repetitions leaves none. */
  lemma {:induction false} FilterKeepsDistinct<T>(s: seq<T>, p: T -> bool)
    requires Distinct(s)
    ensures Distinct(Filter(s, p))
    decreases |s|
  {
    if |s| > 0 {
      var init := s[..|s| - 1];
      assert Distinct(init);
      FilterKeepsDistinct(init, p);
      assert s[|s| - 1] !in init;
    }
  }

  /** Filtering with a predicate that holds everywhere on `s` returns `s`. */
  lemma {:induction false} FilterAllKept<T>(s: seq<T>, p: T -> bool)
    requires forall i :: 0 <= i < |s| ==> p(s[i])
    ensures Filter(s, p) == s
    decreases |s|
  {
    if |s| > 0 {
      var init := s[..|s| - 1];
      FilterAllKept(init, p);
      assert s == init + [s[|s| - 1]];
    }
  }

  /** Filtering distributes over appending one element. */
  lemma FilterSnoc<T>(s: seq<T>, x: T, p: T -> bool)
    ensures Filter(s + [x], p) == Filter(s, p) + (if p(x) then [x] else [])
  {
    assert (s + [x])[..|s|] == s;
  }
}
