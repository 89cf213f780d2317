/** Shared vocabulary of the four instrumented sorters (Sorting.cs:6-20): the state a sorter
    works on while it runs, ordering, exchanges and rearrangements of a slice. */
module Sorting {

  /** What an instrumented sorter changes while it runs: the list it sorts (`a`) and its two
      counters `Comparisons` and `Swaps`. Every operation of the model is a function from one
      `Run` to the next. */
  datatype Run = Run(a: seq<int>, comparisons: nat, swaps: nat)

  /** Non-decreasing order. */
  predicate Sorted(s: seq<int>) {
    forall i, j :: 0 <= i < j < |s| ==> s[i] <= s[j]
  }

  /** Strictly increasing order (the worst-case input of the quick sorter). */
  predicate StrictlyIncreasing(s: seq<int>) {
    forall i, j :: 0 <= i < j < |s| ==> s[i] < s[j]
  }

  /** The tuple exchange `(arr[i], arr[j]) = (arr[j], arr[i])`. */
  function Swap(s: seq<int>, i: int, j: int): (t: seq<int>)
    requires 0 <= i < |s| && 0 <= j < |s|
    ensures |t| == |s| && t[i] == s[j] && t[j] == s[i]
  {
    s[i := s[j]][j := s[i]]
  }

  /** An exchange permutes the list and changes nothing but the two positions. */
  lemma SwapPermutes(s: seq<int>, i: int, j: int)
    requires 0 <= i < |s| && 0 <= j < |s|
    ensures forall k :: 0 <= k < |s| && k != i && k != j ==> Swap(s, i, j)[k] == s[k]
    ensures multiset(Swap(s, i, j)) == multiset(s)
  {
  }

  /** `b` holds the elements of `a[lo..hi)` in some order there, and equals `a` everywhere else. */
  predicate RearrangedWithin(a: seq<int>, b: seq<int>, lo: int, hi: int) {
    && |a| == |b|
    && 0 <= lo <= hi <= |a|
    && a[..lo] == b[..lo]
    && a[hi..] == b[hi..]
    && multiset(a[lo..hi]) == multiset(b[lo..hi])
  }

  lemma Split3(s: seq<int>, lo: int, hi: int)
    requires 0 <= lo <= hi <= |s|
    ensures s == s[..lo] + s[lo..hi] + s[hi..]
    ensures multiset(s) == multiset(s[..lo]) + multiset(s[lo..hi]) + multiset(s[hi..])
  {
    assert s == s[..lo] + s[lo..hi] + s[hi..];
  }

  /** A rearrangement within a slice is a permutation of the whole list. */
  lemma RearrangedIsPermutation(a: seq<int>, b: seq<int>, lo: int, hi: int)
    requires RearrangedWithin(a, b, lo, hi)
    ensures multiset(a) == multiset(b)
  {
    Split3(a, lo, hi);
    Split3(b, lo, hi);
  }

  /** A permutation of the whole list that leaves everything outside `[lo, hi)` in place is a
      rearrangement within that slice. */
  lemma PermutationFixingOutside(a: seq<int>, b: seq<int>, lo: int, hi: int)
    requires |a| == |b| && 0 <= lo <= hi <= |a|
    requires multiset(a) == multiset(b)
    requires forall k :: 0 <= k < |a| && !(lo <= k < hi) ==> a[k] == b[k]
    ensures RearrangedWithin(a, b, lo, hi)
  {
    assert a[..lo] == b[..lo];
    assert a[hi..] == b[hi..];
    Split3(a, lo, hi);
    Split3(b, lo, hi);
    assert multiset(a[lo..hi]) == multiset(a) - multiset(a[..lo]) - multiset(a[hi..]);
    assert multiset(b[lo..hi]) == multiset(b) - multiset(b[..lo]) - multiset(b[hi..]);
  }

  lemma RearrangedRefl(a: seq<int>, lo: int, hi: int)
    requires 0 <= lo <= hi <= |a|
    ensures RearrangedWithin(a, a, lo, hi)
  {
  }

  /** Rearrangements within one slice compose. */
  lemma RearrangedTrans(a: seq<int>, b: seq<int>, c: seq<int>, lo: int, hi: int)
    requires RearrangedWithin(a, b, lo, hi) && RearrangedWithin(b, c, lo, hi)
    ensures RearrangedWithin(a, c, lo, hi)
  {
  }

  /** A rearrangement within a slice is one within any wider slice. */
  lemma {:induction false} RearrangedWiden(a: seq<int>, b: seq<int>, lo: int, hi: int, lo': int, hi': int)
    requires RearrangedWithin(a, b, lo, hi)
    requires 0 <= lo' <= lo && hi <= hi' <= |a|
    ensures RearrangedWithin(a, b, lo', hi')
  {
    assert a[lo'..lo] == b[lo'..lo] by {
      assert a[lo'..lo] == a[..lo][lo'..];
      assert b[lo'..lo] == b[..lo][lo'..];
    }
    assert a[hi..hi'] == b[hi..hi'] by {
      assert a[hi..hi'] == a[hi..][..hi' - hi];
      assert b[hi..hi'] == b[hi..][..hi' - hi];
    }
    assert a[lo'..hi'] == a[lo'..lo] + a[lo..hi] + a[hi..hi'];
    assert b[lo'..hi'] == b[lo'..lo] + b[lo..hi] + b[hi..hi'];
    assert a[..lo'] == a[..lo][..lo'];
    assert b[..lo'] == b[..lo][..lo'];
    assert a[hi'..] == a[hi..][hi' - hi..];
    assert b[hi'..] == b[hi..][hi' - hi..];
  }

  /** Exchanging two positions inside a slice rearranges that slice. */
  lemma SwapRearranges(s: seq<int>, i: int, j: int, lo: int, hi: int)
    requires 0 <= lo <= i < hi <= |s| && lo <= j < hi
    ensures RearrangedWithin(s, Swap(s, i, j), lo, hi)
  {
    SwapPermutes(s, i, j);
    PermutationFixingOutside(s, Swap(s, i, j), lo, hi);
  }

  /** Every element of a rearranged slice is an element of the original slice. */
  lemma RearrangedElement(a: seq<int>, b: seq<int>, lo: int, hi: int, k: int)
    requires RearrangedWithin(a, b, lo, hi) && lo <= k < hi
    ensures exists m :: lo <= m < hi && a[m] == b[k]
  {
    assert b[k] == b[lo..hi][k - lo];
    assert b[k] in multiset(a[lo..hi]);
    var m :| 0 <= m < hi - lo && a[lo..hi][m] == b[k];
    assert a[lo + m] == b[k];
  }

  /** A bound that holds of every element of a slice holds of every element of its rearrangement. */
  lemma RearrangedBounds(a: seq<int>, b: seq<int>, lo: int, hi: int, lower: int, upper: int)
    requires RearrangedWithin(a, b, lo, hi)
    requires forall m :: lo <= m < hi ==> lower <= a[m] <= upper
    ensures forall k :: lo <= k < hi ==> lower <= b[k] <= upper
  {
    forall k | lo <= k < hi
      ensures lower <= b[k] <= upper
    {
      RearrangedElement(a, b, lo, hi, k);
    }
  }

  /** `b` is a permutation of `a` that leaves everything outside `[lo, hi)` in place. */
  predicate Permuted(a: seq<int>, b: seq<int>, lo: int, hi: int) {
    && |a| == |b| && 0 <= lo <= hi <= |a|
    && (forall k :: 0 <= k < |a| && !(lo <= k < hi) ==> a[k] == b[k])
    && multiset(a) == multiset(b)
  }

  /** Permutations fixing everything outside one slice compose, also with one of a narrower
      slice. */
  lemma PermutedTrans(a: seq<int>, b: seq<int>, c: seq<int>, lo: int, hi: int, lo': int, hi': int)
    requires Permuted(a, b, lo', hi') && Permuted(b, c, lo, hi) && lo <= lo' <= hi' <= hi
    ensures Permuted(a, c, lo, hi)
  {
  }

  /** The last element of a sorted list is its maximum. */
  lemma SortedLastIsMax(s: seq<int>, x: int)
    requires Sorted(s) && x in multiset(s)
    ensures x <= s[|s| - 1]
  {
    var k :| 0 <= k < |s| && s[k] == x;
  }

  lemma MultisetDropLast(s: seq<int>)
    requires s != []
    ensures multiset(s[..|s| - 1]) == multiset(s) - multiset{s[|s| - 1]}
  {
    assert s == s[..|s| - 1] + [s[|s| - 1]];
  }

  /** A sorted permutation of a sorted list is that list. */
  lemma {:induction false} SortedPermutationUnique(s: seq<int>, t: seq<int>)
    requires Sorted(s) && Sorted(t) && multiset(s) == multiset(t)
    ensures s == t
    decreases |s|
  {
    assert |s| == |multiset(s)| == |t|;
    if s != [] {
      var n := |s|;
      // both last elements are the maximum of the common multiset
      SortedLastIsMax(t, s[n - 1]);
      SortedLastIsMax(s, t[n - 1]);
      MultisetDropLast(s);
      MultisetDropLast(t);
      SortedPrefix(s);
      SortedPrefix(t);
      SortedPermutationUnique(s[..n - 1], t[..n - 1]);
      EqualByLast(s, t);
    }
  }

  lemma SortedPrefix(s: seq<int>)
    requires Sorted(s) && s != []
    ensures Sorted(s[..|s| - 1])
  {
  }

  lemma EqualByLast(s: seq<int>, t: seq<int>)
    requires |s| == |t| > 0
    requires s[..|s| - 1] == t[..|t| - 1] && s[|s| - 1] == t[|t| - 1]
    ensures s == t
  {
    assert s == s[..|s| - 1] + [s[|s| - 1]];
    assert t == t[..|t| - 1] + [t[|t| - 1]];
  }

  /** The tuple exchange `(arr[i], arr[j]) = (arr[j], arr[i])` on an array. */
  method Exchange(arr: array<int>, i: int, j: int)
    requires 0 <= i < arr.Length && 0 <= j < arr.Length
    modifies arr
    ensures arr[..] == Swap(old(arr[..]), i, j)
  {
    arr[i], arr[j] := arr[j], arr[i];
  }

  /** 2 to the power `k`. */
  function Pow2(k: nat): (p: nat)
    ensures p >= 1
  {
    if k == 0 then 1 else 2 * Pow2(k - 1)
  }
}
