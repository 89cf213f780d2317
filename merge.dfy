/** `MergeSorter` (Sorting.cs:50-101): top-down merge sort over copied halves, with its counters. */
module Merge {
  import opened Sorting

  // ---------------------------------------------------------------------------------------
  // The sorter as a function of its state
  // ---------------------------------------------------------------------------------------

  /** The three loops of `Merge` (Sorting.cs:78-99) from the state with cursors `i` into `L`,
      `j` into `R` and `k` into the list: while both copies have elements, one comparison and the
      head of `R` unless `L`'s is strictly smaller; then the rest of `L`, then the rest of `R`,
      without comparisons. Every element written counts as a swap. */
  function MergeLoop(r: Run, L: seq<int>, R: seq<int>, i: nat, j: nat, k: nat): (r': Run)
    requires i <= |L| && j <= |R| && k + (|L| - i) + (|R| - j) <= |r.a|
    ensures |r'.a| == |r.a|
    decreases |L| - i + |R| - j
  {
    if i < |L| && j < |R| then
      if L[i] < R[j] then MergeLoop(Run(r.a[k := L[i]], r.comparisons + 1, r.swaps + 1), L, R, i + 1, j, k + 1)
      else MergeLoop(Run(r.a[k := R[j]], r.comparisons + 1, r.swaps + 1), L, R, i, j + 1, k + 1)
    else if i < |L| then MergeLoop(Run(r.a[k := L[i]], r.comparisons, r.swaps + 1), L, R, i + 1, j, k + 1)
    else if j < |R| then MergeLoop(Run(r.a[k := R[j]], r.comparisons, r.swaps + 1), L, R, i, j + 1, k + 1)
    else r
  }

  /** One step of the merge loops that takes the head of `L`: in the first loop when it is
      strictly smaller than the head of `R` (one comparison), in the second loop once `R` is used up. */
  lemma MergeLoopTakesLeft(r: Run, L: seq<int>, R: seq<int>, i: nat, j: nat, k: nat)
    requires i < |L| && j <= |R| && k + (|L| - i) + (|R| - j) <= |r.a|
    requires j < |R| ==> L[i] < R[j]
    ensures MergeLoop(r, L, R, i, j, k)
         == MergeLoop(Run(r.a[k := L[i]], r.comparisons + (if j < |R| then 1 else 0), r.swaps + 1), L, R, i + 1, j, k + 1)
  {
  }

  /** One step of the merge loops that takes the head of `R`: in the first loop when the head of
      `L` is not strictly smaller (one comparison), in the third loop once `L` is used up. */
  lemma MergeLoopTakesRight(r: Run, L: seq<int>, R: seq<int>, i: nat, j: nat, k: nat)
    requires i <= |L| && j < |R| && k + (|L| - i) + (|R| - j) <= |r.a|
    requires i < |L| ==> L[i] >= R[j]
    ensures MergeLoop(r, L, R, i, j, k)
         == MergeLoop(Run(r.a[k := R[j]], r.comparisons + (if i < |L| then 1 else 0), r.swaps + 1), L, R, i, j + 1, k + 1)
  {
  }

  /** Both copies used up: the merge loops are done. */
  lemma MergeLoopEnds(r: Run, L: seq<int>, R: seq<int>, i: nat, j: nat, k: nat)
    requires i == |L| && j == |R| && k <= |r.a|
    ensures MergeLoop(r, L, R, i, j, k) == r
  {
  }

  /** `MergeSorter.Merge(arr, left, mid, right)` (Sorting.cs:71-100): copy `arr[left..mid]` and
      `arr[mid+1..right]` (`GetRange`), then merge them back from `left` on. */
  function MergeRanges(r: Run, left: int, mid: int, right: int): (r': Run)
    requires 0 <= left <= mid < right < |r.a|
    ensures |r'.a| == |r.a|
  {
    MergeLoop(r, r.a[left..mid + 1], r.a[mid + 1..right + 1], 0, 0, left)
  }

  /** `MergeSorter.MergeSort(arr, left, right)` (Sorting.cs:61-69). */
  function MergeSortRange(r: Run, left: int, right: int): (r': Run)
    requires 0 <= left <= right + 1 <= |r.a|
    ensures |r'.a| == |r.a|
    decreases right - left
  {
    if left >= right then r
    else
      var mid := (left + right) / 2;
      MergeRanges(MergeSortRange(MergeSortRange(r, left, mid), mid + 1, right), left, mid, right)
  }

  /** `MergeSorter.Sort` (Sorting.cs:52-59): reset the counters, then sort `[0, Count - 1]`. */
  function MergeSortRun(s: seq<int>): (r: Run)
    ensures |r.a| == |s|
  {
    MergeSortRange(Run(s, 0, 0), 0, |s| - 1)
  }

  /** One call of `MergeSort` on a range of two or more elements. */
  lemma MergeSortRangeSplits(r: Run, left: int, mid: int, right: int)
    requires 0 <= left < right < |r.a| && mid == (left + right) / 2
    ensures MergeSortRange(r, left, right)
         == MergeRanges(MergeSortRange(MergeSortRange(r, left, mid), mid + 1, right), left, mid, right)
  {
  }

  /** The halves `MergeSort` splits `[left, right]` into hold ⌈n/2⌉ and ⌊n/2⌋ elements. */
  lemma Halves(left: int, right: int)
    requires left < right
    ensures (left + right) / 2 - left + 1 == (right - left + 2) / 2
    ensures right - (left + right) / 2 == (right - left + 1) / 2
  {
  }

  // ---------------------------------------------------------------------------------------
  // Reference definitions
  // ---------------------------------------------------------------------------------------

  /** Merge of two sequences; on equal heads the head of `R` goes first. */
  function MergeSeq(L: seq<int>, R: seq<int>): (m: seq<int>)
    ensures |m| == |L| + |R|
    decreases |L| + |R|
  {
    if L == [] then R
    else if R == [] then L
    else if L[0] < R[0] then [L[0]] + MergeSeq(L[1..], R)
    else [R[0]] + MergeSeq(L, R[1..])
  }

  /** Head-to-head comparisons `MergeSeq(L, R)` makes before one side runs out. */
  function MergeComparisons(L: seq<int>, R: seq<int>): nat
    decreases |L| + |R|
  {
    if L == [] || R == [] then 0
    else if L[0] < R[0] then 1 + MergeComparisons(L[1..], R)
    else 1 + MergeComparisons(L, R[1..])
  }

  /** ⌈log₂ n⌉ for n >= 1 (0 for n = 0), in the shape of the split `MergeSort` makes. */
  function CeilLog2(n: nat): nat
  {
    if n <= 1 then 0 else 1 + CeilLog2((n + 1) / 2)
  }

  // ---------------------------------------------------------------------------------------
  // Lemmas about the reference definitions
  // ---------------------------------------------------------------------------------------

  /** A non-empty sequence is its head followed by its tail, as a multiset. */
  lemma HeadTailMultiset(s: seq<int>)
    requires s != []
    ensures multiset(s) == multiset{s[0]} + multiset(s[1..])
  {
    assert s == [s[0]] + s[1..];
  }

  lemma {:induction false} MergeSeqMultiset(L: seq<int>, R: seq<int>)
    ensures multiset(MergeSeq(L, R)) == multiset(L) + multiset(R)
    decreases |L| + |R|
  {
    if L != [] && R != [] {
      if L[0] < R[0] {
        MergeSeqMultiset(L[1..], R);
        HeadTailMultiset(L);
        calc {
          multiset(MergeSeq(L, R));
          multiset([L[0]] + MergeSeq(L[1..], R));
          multiset{L[0]} + multiset(MergeSeq(L[1..], R));
        }
      } else {
        MergeSeqMultiset(L, R[1..]);
        HeadTailMultiset(R);
        calc {
          multiset(MergeSeq(L, R));
          multiset([R[0]] + MergeSeq(L, R[1..]));
          multiset{R[0]} + multiset(MergeSeq(L, R[1..]));
        }
      }
    }
  }

  /** A lower bound of both inputs is a lower bound of their merge. */
  lemma {:induction false} MergeSeqLowerBound(L: seq<int>, R: seq<int>, x: int)
    requires forall k :: 0 <= k < |L| ==> x <= L[k]
    requires forall k :: 0 <= k < |R| ==> x <= R[k]
    ensures forall k :: 0 <= k < |MergeSeq(L, R)| ==> x <= MergeSeq(L, R)[k]
    decreases |L| + |R|
  {
    if L != [] && R != [] {
      if L[0] < R[0] {
        MergeSeqLowerBound(L[1..], R, x);
      } else {
        MergeSeqLowerBound(L, R[1..], x);
      }
    }
  }

  /** Merging two sorted sequences yields a sorted sequence. */
  lemma {:induction false} MergeSeqSorted(L: seq<int>, R: seq<int>)
    requires Sorted(L) && Sorted(R)
    ensures Sorted(MergeSeq(L, R))
    decreases |L| + |R|
  {
    if L != [] && R != [] {
      if L[0] < R[0] {
        MergeSeqSorted(L[1..], R);
        MergeSeqLowerBound(L[1..], R, L[0]);
      } else {
        MergeSeqSorted(L, R[1..]);
        MergeSeqLowerBound(L, R[1..], R[0]);
      }
    }
  }

  /** While both sides have elements every step costs one comparison, so a merge of two non-empty
      sequences makes at least min(|L|, |R|) and at most |L| + |R| - 1 comparisons. */
  lemma {:induction false} MergeComparisonsBounds(L: seq<int>, R: seq<int>)
    ensures L != [] && R != [] ==> MergeComparisons(L, R) <= |L| + |R| - 1
    ensures MergeComparisons(L, R) >= (if |L| <= |R| then |L| else |R|)
    decreases |L| + |R|
  {
    if L != [] && R != [] {
      if L[0] < R[0] {
        MergeComparisonsBounds(L[1..], R);
      } else {
        MergeComparisonsBounds(L, R[1..]);
      }
    }
  }

  /** One step of the merge loops that writes `x` at `k`, when `MergeSeq` of what is left starts
      with `x` followed by `rest`. */
  lemma WriteStep(a: seq<int>, k: int, e: int, x: int, rest: seq<int>)
    requires 0 <= k < e <= |a|
    ensures a[k := x][..k + 1] + rest + a[k := x][e..] == a[..k] + ([x] + rest) + a[e..]
  {
    assert a[k := x][..k + 1] == a[..k] + [x];
    assert a[k := x][e..] == a[e..];
  }

  /** The merge loops' counters: `MergeComparisons` comparisons and one swap per element. */
  lemma {:induction false} MergeLoopCounts(r: Run, L: seq<int>, R: seq<int>, i: nat, j: nat, k: nat)
    requires i <= |L| && j <= |R| && k + (|L| - i) + (|R| - j) <= |r.a|
    ensures MergeLoop(r, L, R, i, j, k).comparisons == r.comparisons + MergeComparisons(L[i..], R[j..])
    ensures MergeLoop(r, L, R, i, j, k).swaps == r.swaps + (|L| - i) + (|R| - j)
    decreases |L| - i + |R| - j
  {
    if i < |L| && (j >= |R| || L[i] < R[j]) {
      var c := if j < |R| then 1 else 0;
      MergeLoopTakesLeft(r, L, R, i, j, k);
      MergeLoopCounts(Run(r.a[k := L[i]], r.comparisons + c, r.swaps + 1), L, R, i + 1, j, k + 1);
      assert L[i..] == [L[i]] + L[i + 1..];
    } else if j < |R| {
      var c := if i < |L| then 1 else 0;
      MergeLoopTakesRight(r, L, R, i, j, k);
      MergeLoopCounts(Run(r.a[k := R[j]], r.comparisons + c, r.swaps + 1), L, R, i, j + 1, k + 1);
      assert R[j..] == [R[j]] + R[j + 1..];
    } else {
      MergeLoopEnds(r, L, R, i, j, k);
    }
  }

  /** The merge loops write `MergeSeq` of what is left of the copies from `k` on. */
  lemma {:induction false} MergeLoopWrites(r: Run, L: seq<int>, R: seq<int>, i: nat, j: nat, k: nat)
    requires i <= |L| && j <= |R| && k + (|L| - i) + (|R| - j) <= |r.a|
    ensures MergeLoop(r, L, R, i, j, k).a
         == r.a[..k] + MergeSeq(L[i..], R[j..]) + r.a[k + (|L| - i) + (|R| - j)..]
    decreases |L| - i + |R| - j, 1
  {
    if i < |L| && (j >= |R| || L[i] < R[j]) {
      LeftWrites(r, L, R, i, j, k);
    } else if j < |R| {
      RightWrites(r, L, R, i, j, k);
    } else {
      MergeLoopEnds(r, L, R, i, j, k);
      assert L[i..] == [] && R[j..] == [];
      assert r.a == r.a[..k] + r.a[k..];
    }
  }

  /** `MergeLoopWrites` for a step that takes the head of `L`. */
  lemma {:induction false} LeftWrites(r: Run, L: seq<int>, R: seq<int>, i: nat, j: nat, k: nat)
    requires i < |L| && j <= |R| && k + (|L| - i) + (|R| - j) <= |r.a|
    requires j < |R| ==> L[i] < R[j]
    ensures MergeLoop(r, L, R, i, j, k).a
         == r.a[..k] + MergeSeq(L[i..], R[j..]) + r.a[k + (|L| - i) + (|R| - j)..]
    decreases |L| - i + |R| - j, 0
  {
    var e := k + (|L| - i) + (|R| - j);
    var r2 := Run(r.a[k := L[i]], r.comparisons + (if j < |R| then 1 else 0), r.swaps + 1);
    var rest := MergeSeq(L[i + 1..], R[j..]);
    MergeLoopTakesLeft(r, L, R, i, j, k);
    assert MergeLoop(r2, L, R, i + 1, j, k + 1).a == r2.a[..k + 1] + rest + r2.a[e..] by {
      MergeLoopWrites(r2, L, R, i + 1, j, k + 1);
    }
    WriteStep(r.a, k, e, L[i], rest);
    assert MergeSeq(L[i..], R[j..]) == [L[i]] + rest by {
      assert L[i..] == [L[i]] + L[i + 1..];
    }
  }

  /** `MergeLoopWrites` for a step that takes the head of `R`. */
  lemma {:induction false} RightWrites(r: Run, L: seq<int>, R: seq<int>, i: nat, j: nat, k: nat)
    requires i <= |L| && j < |R| && k + (|L| - i) + (|R| - j) <= |r.a|
    requires i < |L| ==> L[i] >= R[j]
    ensures MergeLoop(r, L, R, i, j, k).a
         == r.a[..k] + MergeSeq(L[i..], R[j..]) + r.a[k + (|L| - i) + (|R| - j)..]
    decreases |L| - i + |R| - j, 0
  {
    var e := k + (|L| - i) + (|R| - j);
    var r2 := Run(r.a[k := R[j]], r.comparisons + (if i < |L| then 1 else 0), r.swaps + 1);
    var rest := MergeSeq(L[i..], R[j + 1..]);
    MergeLoopTakesRight(r, L, R, i, j, k);
    assert MergeLoop(r2, L, R, i, j + 1, k + 1).a == r2.a[..k + 1] + rest + r2.a[e..] by {
      MergeLoopWrites(r2, L, R, i, j + 1, k + 1);
    }
    WriteStep(r.a, k, e, R[j], rest);
    assert MergeSeq(L[i..], R[j..]) == [R[j]] + rest by {
      assert R[j..] == [R[j]] + R[j + 1..];
    }
  }

  /** The number of elements `MergeSort(arr, left, right)` writes: every `Merge` writes back the
      whole range it covers. */
  function RangeWrites(left: int, right: int): nat
    decreases right - left
  {
    if left >= right then 0
    else
      var mid := (left + right) / 2;
      RangeWrites(left, mid) + RangeWrites(mid + 1, right) + (right - left + 1)
  }

  /** n·⌈log₂ n⌉, the bound on the elements a merge sort of n elements writes. */
  function WriteBound(n: nat): nat
  {
    n * CeilLog2(n)
  }

  /** `CeilLog2` is monotone. */
  lemma {:induction false} CeilLog2Monotone(m: nat, n: nat)
    requires m <= n
    ensures CeilLog2(m) <= CeilLog2(n)
  {
    if m > 1 {
      CeilLog2Monotone((m + 1) / 2, (n + 1) / 2);
    }
  }

  /** `CeilLog2(n)` is the least `k` with n <= 2^k. */
  lemma {:induction false} CeilLog2IsCeiling(n: nat)
    requires n >= 1
    ensures n <= Pow2(CeilLog2(n))
    ensures n >= 2 ==> Pow2(CeilLog2(n) - 1) < n
  {
    if n >= 2 {
      var c := (n + 1) / 2;
      CeilLog2IsCeiling(c);
      if c >= 2 {
        assert Pow2(CeilLog2(c) - 1) < c;
        assert Pow2(CeilLog2(c)) == 2 * Pow2(CeilLog2(c) - 1);
      }
    }
  }

  lemma Distribute(x: int, y: int, z: int)
    ensures x * z + y * z == (x + y) * z
  {
  }

  lemma MulMonotone(x: nat, a: nat, b: nat)
    requires a <= b
    ensures x * a <= x * b
  {
  }

  /** The bound for one split: n·⌈log₂ n⌉ covers the bounds of both halves plus the n writes of
      the merge. */
  lemma WritesSplitBound(n: nat, c: nat, f: nat)
    requires n >= 2 && c == (n + 1) / 2 && f == n / 2
    ensures WriteBound(c) + WriteBound(f) + n <= WriteBound(n)
  {
    CeilLog2Monotone(f, c);
    assert CeilLog2(n) == CeilLog2(c) + 1;
    SplitArith(n, c, f, CeilLog2(c), CeilLog2(f));
  }

  /** The arithmetic of `WritesSplitBound`: c·l + f·l' + n <= n·(l + 1) when n = c + f and l' <= l. */
  lemma SplitArith(n: nat, c: nat, f: nat, l: nat, l': nat)
    requires n == c + f && l' <= l
    ensures c * l + f * l' + n <= n * (l + 1)
  {
    MulMonotone(f, l', l);
    Distribute(c, f, l);
    Distribute(l, 1, n);
  }

  /** A merge sort of n elements writes at most n·⌈log₂ n⌉ of them. */
  lemma {:induction false} RangeWritesBound(left: int, right: int)
    requires left <= right + 1
    ensures RangeWrites(left, right) <= WriteBound(right - left + 1)
    decreases right - left
  {
    if left < right {
      var mid := (left + right) / 2;
      RangeWritesBound(left, mid);
      RangeWritesBound(mid + 1, right);
      Halves(left, right);
      WritesSplitBound(right - left + 1, mid - left + 1, right - mid);
    }
  }

  // ---------------------------------------------------------------------------------------
  // Lemmas about the sorter
  // ---------------------------------------------------------------------------------------

  /** `Merge` writes `MergeSeq` of the two copied ranges over `arr[left..right]`. */
  lemma MergeRangesIsMergeSeq(r: Run, left: int, mid: int, right: int)
    requires 0 <= left <= mid < right < |r.a|
    ensures MergeRanges(r, left, mid, right).a
         == r.a[..left] + MergeSeq(r.a[left..mid + 1], r.a[mid + 1..right + 1]) + r.a[right + 1..]
  {
    var L, R := r.a[left..mid + 1], r.a[mid + 1..right + 1];
    MergeLoopWrites(r, L, R, 0, 0, left);
    assert L[0..] == L && R[0..] == R;
  }

  /** `Merge` adds exactly `right - left + 1` swaps, at most `right - left` comparisons, and at
      least as many comparisons as the shorter half has elements. */
  lemma MergeRangesCounts(r: Run, left: int, mid: int, right: int)
    requires 0 <= left <= mid < right < |r.a|
    ensures MergeRanges(r, left, mid, right).swaps == r.swaps + (right - left + 1)
    ensures MergeRanges(r, left, mid, right).comparisons <= r.comparisons + (right - left)
    ensures MergeRanges(r, left, mid, right).comparisons
         >= r.comparisons + (if mid - left + 1 <= right - mid then mid - left + 1 else right - mid)
  {
    var L, R := r.a[left..mid + 1], r.a[mid + 1..right + 1];
    MergeLoopCounts(r, L, R, 0, 0, left);
    assert L[0..] == L && R[0..] == R;
    MergeComparisonsBounds(L, R);
  }

  /** `Merge` permutes the list and leaves everything outside `arr[left..right]` unchanged. */
  lemma MergeRangesPermutes(r: Run, left: int, mid: int, right: int)
    requires 0 <= left <= mid < right < |r.a|
    ensures Permuted(r.a, MergeRanges(r, left, mid, right).a, left, right + 1)
  {
    MergeRangesIsMergeSeq(r, left, mid, right);
    MergedPermutes(r.a, MergeRanges(r, left, mid, right).a, left, mid, right);
  }

  /** Writing the merge of `a[left..mid]` and `a[mid+1..right]` over `a[left..right]` permutes `a`
      within that range. */
  lemma MergedPermutes(a: seq<int>, b: seq<int>, left: int, mid: int, right: int)
    requires 0 <= left <= mid < right < |a|
    requires b == a[..left] + MergeSeq(a[left..mid + 1], a[mid + 1..right + 1]) + a[right + 1..]
    ensures Permuted(a, b, left, right + 1)
  {
    var L, R := a[left..mid + 1], a[mid + 1..right + 1];
    MergeSeqMultiset(L, R);
    SplitHalves(a, left, mid, right);
    ReplaceMiddle(a[..left], L + R, MergeSeq(L, R), a[right + 1..]);
  }

  /** The list is what lies before `left`, the two copies `Merge` takes, and what lies after
      `right`. */
  lemma SplitHalves(a: seq<int>, left: int, mid: int, right: int)
    requires 0 <= left <= mid < right < |a|
    ensures a == a[..left] + (a[left..mid + 1] + a[mid + 1..right + 1]) + a[right + 1..]
  {
    assert a[left..mid + 1] + a[mid + 1..right + 1] == a[left..right + 1];
    Split3(a, left, right + 1);
  }

  /** Replacing the middle part of a sequence by a permutation of it permutes the sequence within
      that part. */
  lemma ReplaceMiddle(x: seq<int>, m: seq<int>, m': seq<int>, y: seq<int>)
    requires |m| == |m'| && multiset(m) == multiset(m')
    ensures Permuted(x + m + y, x + m' + y, |x|, |x| + |m|)
  {
    var a, b := x + m + y, x + m' + y;
    forall k | 0 <= k < |a| && !(|x| <= k < |x| + |m|)
      ensures a[k] == b[k]
    {
      if k < |x| {
        assert a[k] == x[k] == b[k];
      } else {
        assert a[k] == y[k - |x| - |m|] == b[k];
      }
    }
  }

  /** `Merge` over two sorted runs leaves `arr[left..right]` sorted. */
  lemma MergeRangesSorts(r: Run, left: int, mid: int, right: int)
    requires 0 <= left <= mid < right < |r.a|
    requires Sorted(r.a[left..mid + 1]) && Sorted(r.a[mid + 1..right + 1])
    ensures Sorted(MergeRanges(r, left, mid, right).a[left..right + 1])
  {
    var L, R := r.a[left..mid + 1], r.a[mid + 1..right + 1];
    MergeRangesIsMergeSeq(r, left, mid, right);
    MergeSeqMultiset(L, R);
    MergeSeqSorted(L, R);
    assert MergeRanges(r, left, mid, right).a[left..right + 1] == MergeSeq(L, R);
  }

  /** `MergeSort(arr, left, right)` permutes the list and leaves everything outside
      `arr[left..right]` unchanged. */
  lemma {:induction false} MergeSortRangePermutes(r: Run, left: int, right: int)
    requires 0 <= left <= right + 1 <= |r.a|
    ensures Permuted(r.a, MergeSortRange(r, left, right).a, left, right + 1)
    decreases right - left, 1
  {
    if left < right {
      var mid := (left + right) / 2;
      var r2 := MergeSortRange(MergeSortRange(r, left, mid), mid + 1, right);
      MergeSortRangeSplits(r, left, mid, right);
      HalvesPermute(r, left, mid, right);
      MergeRangesPermutes(r2, left, mid, right);
      PermutedTrans(r.a, r2.a, MergeRanges(r2, left, mid, right).a, left, right + 1, left, right + 1);
    }
  }

  /** The two recursive calls of `MergeSort(arr, left, right)` permute the list within
      `arr[left..right]`. */
  lemma {:induction false} HalvesPermute(r: Run, left: int, mid: int, right: int)
    requires 0 <= left <= mid < right < |r.a|
    ensures Permuted(r.a, MergeSortRange(MergeSortRange(r, left, mid), mid + 1, right).a, left, right + 1)
    decreases right - left, 0
  {
    var r1 := MergeSortRange(r, left, mid);
    MergeSortRangePermutes(r, left, mid);
    MergeSortRangePermutes(r1, mid + 1, right);
    PermutedTrans(r.a, r1.a, MergeSortRange(r1, mid + 1, right).a, left, right + 1, left, mid + 1);
  }

  /** `MergeSort(arr, left, right)` leaves `arr[left..right]` sorted. */
  lemma {:induction false} MergeSortRangeSorts(r: Run, left: int, right: int)
    requires 0 <= left <= right + 1 <= |r.a|
    ensures Sorted(MergeSortRange(r, left, right).a[left..right + 1])
    decreases right - left, 1
  {
    if left < right {
      var mid := (left + right) / 2;
      FirstHalfStaysSorted(r, left, mid, right);
      MergeSortRangeSorts(MergeSortRange(r, left, mid), mid + 1, right);
      MergeStepSorts(r, left, mid, right);
    }
  }

  /** The `Merge` that ends `MergeSort(arr, left, right)` sorts the range once both halves are
      sorted. */
  lemma MergeStepSorts(r: Run, left: int, mid: int, right: int)
    requires 0 <= left < right < |r.a| && mid == (left + right) / 2
    requires Sorted(MergeSortRange(MergeSortRange(r, left, mid), mid + 1, right).a[left..mid + 1])
    requires Sorted(MergeSortRange(MergeSortRange(r, left, mid), mid + 1, right).a[mid + 1..right + 1])
    ensures Sorted(MergeSortRange(r, left, right).a[left..right + 1])
  {
    MergeSortRangeSplits(r, left, mid, right);
    MergeRangesSorts(MergeSortRange(MergeSortRange(r, left, mid), mid + 1, right), left, mid, right);
  }

  /** The first half of `MergeSort(arr, left, right)`, once sorted, stays sorted while the second
      half is sorted. */
  lemma {:induction false} FirstHalfStaysSorted(r: Run, left: int, mid: int, right: int)
    requires 0 <= left <= mid < right < |r.a|
    ensures Sorted(MergeSortRange(MergeSortRange(r, left, mid), mid + 1, right).a[left..mid + 1])
    decreases right - left, 0
  {
    var r1 := MergeSortRange(r, left, mid);
    MergeSortRangeSorts(r, left, mid);
    MergeSortRangePermutes(r1, mid + 1, right);
    SecondHalfKeepsFirst(r1.a, MergeSortRange(r1, mid + 1, right).a, left, mid + 1, right + 1);
  }

  /** Sorting the second half after the first leaves the first half sorted. */
  lemma SecondHalfKeepsFirst(a1: seq<int>, a2: seq<int>, lo: int, mid: int, hi: int)
    requires Permuted(a1, a2, mid, hi) && 0 <= lo <= mid && Sorted(a1[lo..mid])
    ensures Sorted(a2[lo..mid])
  {
    assert a1[lo..mid] == a2[lo..mid];
  }

  /** `MergeSort(arr, left, right)` counts one swap per element written, `RangeWrites(left, right)`
      in all. */
  lemma {:induction false} MergeSortRangeWrites(r: Run, left: int, right: int)
    requires 0 <= left <= right + 1 <= |r.a|
    ensures MergeSortRange(r, left, right).swaps == r.swaps + RangeWrites(left, right)
    decreases right - left, 1
  {
    if left < right {
      var mid := (left + right) / 2;
      MergeStepCounts(r, left, mid, right);
      HalvesWrite(r, left, mid, right);
    }
  }

  /** The `Merge` that ends `MergeSort(arr, left, right)` counts one swap per element of the range,
      at most one comparison per element but one, and at least one comparison. */
  lemma MergeStepCounts(r: Run, left: int, mid: int, right: int)
    requires 0 <= left < right < |r.a| && mid == (left + right) / 2
    ensures MergeSortRange(r, left, right).swaps
         == MergeSortRange(MergeSortRange(r, left, mid), mid + 1, right).swaps + (right - left + 1)
    ensures MergeSortRange(r, left, right).comparisons
         <= MergeSortRange(MergeSortRange(r, left, mid), mid + 1, right).comparisons + (right - left)
    ensures MergeSortRange(r, left, right).comparisons
         >= MergeSortRange(MergeSortRange(r, left, mid), mid + 1, right).comparisons + 1
  {
    MergeSortRangeSplits(r, left, mid, right);
    MergeRangesCounts(MergeSortRange(MergeSortRange(r, left, mid), mid + 1, right), left, mid, right);
  }

  /** The two recursive calls of `MergeSort(arr, left, right)` count the writes of both halves. */
  lemma {:induction false} HalvesWrite(r: Run, left: int, mid: int, right: int)
    requires 0 <= left <= mid < right < |r.a|
    ensures MergeSortRange(MergeSortRange(r, left, mid), mid + 1, right).swaps
         == r.swaps + RangeWrites(left, mid) + RangeWrites(mid + 1, right)
    decreases right - left, 0
  {
    MergeSortRangeWrites(r, left, mid);
    MergeSortRangeWrites(MergeSortRange(r, left, mid), mid + 1, right);
  }

  /** With n = right - left + 1, `MergeSort(arr, left, right)` makes at least n - 1 fewer
      comparisons than writes. */
  lemma {:induction false} MergeSortRangeComparisons(r: Run, left: int, right: int)
    requires 0 <= left <= right + 1 <= |r.a|
    ensures MergeSortRange(r, left, right).comparisons + (right - left + 1)
         <= r.comparisons + (MergeSortRange(r, left, right).swaps - r.swaps) + 1
    decreases right - left
  {
    if left < right {
      var mid := (left + right) / 2;
      var r1 := MergeSortRange(r, left, mid);
      var r2 := MergeSortRange(r1, mid + 1, right);
      assert r1.comparisons + (mid - left + 1) <= r.comparisons + (r1.swaps - r.swaps) + 1 by {
        MergeSortRangeComparisons(r, left, mid);
      }
      assert r2.comparisons + (right - mid) <= r1.comparisons + (r2.swaps - r1.swaps) + 1 by {
        MergeSortRangeComparisons(r1, mid + 1, right);
      }
      MergeStepCounts(r, left, mid, right);
    }
  }

  /** With n = right - left + 1, `MergeSort(arr, left, right)` makes at least n - 1
      comparisons: each `Merge` of two non-empty halves makes at least one. */
  lemma {:induction false} MergeSortRangeAtLeast(r: Run, left: int, right: int)
    requires 0 <= left <= right + 1 <= |r.a|
    ensures MergeSortRange(r, left, right).comparisons + 1 >= r.comparisons + (right - left + 1)
    decreases right - left
  {
    if left < right {
      var mid := (left + right) / 2;
      var r1 := MergeSortRange(r, left, mid);
      MergeSortRangeAtLeast(r, left, mid);
      MergeSortRangeAtLeast(r1, mid + 1, right);
      MergeStepCounts(r, left, mid, right);
    }
  }

  /** `MergeSorter.Sort` on n >= 1 elements makes at least n - 1 comparisons. */
  lemma MergeSortComparisonsAtLeast(s: seq<int>)
    ensures |s| >= 1 ==> MergeSortRun(s).comparisons >= |s| - 1
  {
    MergeSortRangeAtLeast(Run(s, 0, 0), 0, |s| - 1);
  }

  /** `MergeSorter.Sort` leaves the list a sorted permutation of its input. */
  lemma MergeSortSorts(s: seq<int>)
    ensures Sorted(MergeSortRun(s).a)
    ensures multiset(MergeSortRun(s).a) == multiset(s)
  {
    MergeSortRangeSorts(Run(s, 0, 0), 0, |s| - 1);
    MergeSortRangePermutes(Run(s, 0, 0), 0, |s| - 1);
    assert MergeSortRun(s).a[0..|s|] == MergeSortRun(s).a;
  }

  /** With n = Count, `Sort` writes exactly `RangeWrites(0, n - 1)` <= n·⌈log₂ n⌉ elements and
      makes at most n·⌈log₂ n⌉ - (n - 1) comparisons. */
  lemma MergeSortCounts(s: seq<int>)
    ensures MergeSortRun(s).swaps == RangeWrites(0, |s| - 1)
    ensures MergeSortRun(s).swaps <= |s| * CeilLog2(|s|)
    ensures MergeSortRun(s).comparisons + |s| <= |s| * CeilLog2(|s|) + 1
  {
    assert MergeSortRun(s) == MergeSortRange(Run(s, 0, 0), 0, |s| - 1);
    WholeRangeCounts(Run(s, 0, 0), |s|);
  }

  /** The counters of `MergeSort(arr, 0, n - 1)` on a list of n elements. */
  lemma WholeRangeCounts(r: Run, n: int)
    requires n == |r.a|
    ensures MergeSortRange(r, 0, n - 1).swaps == r.swaps + RangeWrites(0, n - 1)
    ensures RangeWrites(0, n - 1) <= n * CeilLog2(n)
    ensures MergeSortRange(r, 0, n - 1).comparisons + n
         <= r.comparisons + RangeWrites(0, n - 1) + 1
  {
    MergeSortRangeWrites(r, 0, n - 1);
    RangeWritesBound(0, n - 1);
    MergeSortRangeComparisons(r, 0, n - 1);
  }

  /** Lists of length 0 or 1 are left as they are, with both counters 0. */
  lemma MergeSortTrivial(s: seq<int>)
    requires |s| <= 1
    ensures MergeSortRun(s) == Run(s, 0, 0)
  {
  }

  // ---------------------------------------------------------------------------------------
  // The sorter object
  // ---------------------------------------------------------------------------------------

  class MergeSorter {
    var comparisons: nat
    var swaps: nat

    constructor ()
      ensures comparisons == 0 && swaps == 0
    {
      comparisons, swaps := 0, 0;
    }

    /** The list `arr` and this sorter's counters, as one `Run`. */
    function State(arr: array<int>): (r: Run)
      reads this, arr
      ensures |r.a| == arr.Length
    {
      Run(arr[..], comparisons, swaps)
    }

    /** `Sorter.ResetStats` (Sorting.cs:12-17). */
    method ResetStats()
      modifies this
      ensures comparisons == 0 && swaps == 0
    {
      comparisons, swaps := 0, 0;
    }

    /** `MergeSorter.Sort` (Sorting.cs:52-59). */
    method Sort(arr: array<int>)
      modifies this, arr
      ensures State(arr) == MergeSortRun(old(arr[..]))
      ensures Sorted(arr[..]) && multiset(arr[..]) == multiset(old(arr[..]))
      ensures swaps <= arr.Length * CeilLog2(arr.Length)
    {
      ghost var s := arr[..];
      ResetStats();
      MergeSort(arr, 0, arr.Length - 1);
      MergeSortSorts(s);
      MergeSortCounts(s);
    }

    /** `MergeSorter.MergeSort` (Sorting.cs:61-69). */
    method MergeSort(arr: array<int>, left: int, right: int)
      requires 0 <= left <= right + 1 <= arr.Length
      modifies this, arr
      ensures State(arr) == MergeSortRange(old(State(arr)), left, right)
      decreases right - left
    {
      if left >= right {
        return;
      }
      var mid := (left + right) / 2;
      ghost var r0 := State(arr);
      MergeSort(arr, left, mid);
      MergeSort(arr, mid + 1, right);
      Merge(arr, left, mid, right);
      MergeSortRangeSplits(r0, left, mid, right);
    }

    /** `MergeSorter.Merge` (Sorting.cs:71-100). */
    method Merge(arr: array<int>, left: int, mid: int, right: int)
      requires 0 <= left <= mid < right < arr.Length
      modifies this, arr
      ensures State(arr) == MergeRanges(old(State(arr)), left, mid, right)
    {
      var L := arr[left..mid + 1];
      var R := arr[mid + 1..right + 1];
      ghost var goal := MergeRanges(State(arr), left, mid, right);
      ghost var cur := State(arr);
      var i, j, k := 0, 0, left;
      while i < |L| && j < |R|
        invariant i <= |L| && j <= |R| && k == left + i + j
        invariant State(arr) == cur && MergeLoop(cur, L, R, i, j, k) == goal
      {
        comparisons := comparisons + 1;
        if L[i] < R[j] {
          MergeLoopTakesLeft(cur, L, R, i, j, k);
          Put(arr, k, L[i]);
          cur := Run(cur.a[k := L[i]], cur.comparisons + 1, cur.swaps + 1);
          k, i := k + 1, i + 1;
        } else {
          MergeLoopTakesRight(cur, L, R, i, j, k);
          Put(arr, k, R[j]);
          cur := Run(cur.a[k := R[j]], cur.comparisons + 1, cur.swaps + 1);
          k, j := k + 1, j + 1;
        }
      }
      CopyRest(arr, L, R, i, j, k);
    }

    /** The second and third loops of `Merge` (Sorting.cs:89-99): once one copy is used up, the
        rest of the other is written back from `k` on, without comparisons. */
    method CopyRest(arr: array<int>, L: seq<int>, R: seq<int>, i0: nat, j0: nat, k0: nat)
      requires i0 <= |L| && j0 <= |R| && k0 + (|L| - i0) + (|R| - j0) <= arr.Length
      requires i0 == |L| || j0 == |R|
      modifies this, arr
      ensures State(arr) == MergeLoop(old(State(arr)), L, R, i0, j0, k0)
    {
      ghost var goal := MergeLoop(State(arr), L, R, i0, j0, k0);
      ghost var cur := State(arr);
      var i: nat, j: nat, k: nat := i0, j0, k0;
      while i < |L|
        invariant i <= |L| && j == j0 && (i < |L| ==> j == |R|)
        invariant k + (|L| - i) + (|R| - j) <= arr.Length
        invariant State(arr) == cur && MergeLoop(cur, L, R, i, j, k) == goal
      {
        MergeLoopTakesLeft(cur, L, R, i, j, k);
        Put(arr, k, L[i]);
        cur := Run(cur.a[k := L[i]], cur.comparisons, cur.swaps + 1);
        k, i := k + 1, i + 1;
      }
      while j < |R|
        invariant i == |L| && j <= |R| && k + (|R| - j) <= arr.Length
        invariant State(arr) == cur && MergeLoop(cur, L, R, i, j, k) == goal
      {
        MergeLoopTakesRight(cur, L, R, i, j, k);
        Put(arr, k, R[j]);
        cur := Run(cur.a[k := R[j]], cur.comparisons, cur.swaps + 1);
        k, j := k + 1, j + 1;
      }
      MergeLoopEnds(cur, L, R, i, j, k);
    }

    /** A write `arr[k++] = …` followed by `Swaps++` in the loops of `Merge` (Sorting.cs:81-86,
        91-92 and 97-98). */
    method Put(arr: array<int>, k: int, x: int)
      requires 0 <= k < arr.Length
      modifies this, arr
      ensures State(arr) == Run(old(arr[..])[k := x], old(comparisons), old(swaps) + 1)
    {
      arr[k] := x;
      swaps := swaps + 1;
    }
  }
}
