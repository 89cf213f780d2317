/** `QuickSorter` (Sorting.cs:147-212): recursive quick sort with Hoare-style partitioning around
    the first element of each range. */
module Quick {
  import opened Sorting

  // ---------------------------------------------------------------------------------------
  // The partition as a function of its state
  // ---------------------------------------------------------------------------------------

  /** The result of `Partition`: the state it leaves and the index it returns. */
  datatype Partitioned = Partitioned(run: Run, p: int)

  /** Where the cursors `lo` and `hi` of `Partition(arr, low, high)` can be at the head of its
      outer loop: before the first exchange they are where they started and `arr[low]` is the
      pivot; after it `hi` has left `high`, and while the cursors have not crossed, the elements
      just outside them (the last ones exchanged) stop the two scans; `lo` only passes `high` on
      a range of one. */
  predicate AtHead(a: seq<int>, low: int, high: int, pivot: int, lo: int, hi: int) {
    && 0 <= low <= high < |a|
    && low <= lo <= high + 1 && low - 1 <= hi <= high
    && (lo == low ==> hi == high && a[low] == pivot)
    && (lo > low ==> hi < high)
    && (lo > low && lo <= hi ==> a[lo - 1] <= pivot && a[hi + 1] >= pivot)
    && (low < high ==> lo <= high)
  }

  /** During the up scan: the element before `lo` is at most the pivot and the one after `hi`,
      which stops the scan, at least the pivot. */
  predicate InUp(a: seq<int>, low: int, high: int, pivot: int, lo: int, hi: int) {
    && 0 <= low <= lo && low <= high < |a|
    && (lo == low ==> hi == high && a[low] == pivot)
    && (lo > low ==> lo <= hi + 1 && hi < high && a[lo - 1] <= pivot && a[hi + 1] >= pivot)
  }

  /** During the down scan: `lo` has stopped at an element at least the pivot, and an element at
      most the pivot at or before `lo` stops the scan. */
  predicate InDown(a: seq<int>, low: int, high: int, pivot: int, lo: int, hi: int) {
    && 0 <= low <= lo <= high < |a|
    && a[lo] >= pivot
    && (lo == low ==> low <= hi <= high && a[low] == pivot)
    && (lo > low ==> lo - 1 <= hi < high && a[lo - 1] <= pivot)
  }

  /** At the exchange: both scans have stopped. */
  predicate InExchange(a: seq<int>, low: int, high: int, pivot: int, lo: int, hi: int) {
    InDown(a, low, high, pivot, lo, hi) && 0 <= hi && a[hi] <= pivot
  }

  /** `Partition` (Sorting.cs:175-202) from the head of its outer loop, with cursors `lo` and
      `hi`: once the cursors have crossed, `lo - 1` is returned. The three functions after it
      continue from the up scan, the down scan and the exchange. The scans count one comparison
      per step taken (the probe that stops a scan is not counted); the exchange counts a swap
      only for distinct positions and steps both cursors inward. */
  function PartitionHead(r: Run, low: int, high: int, pivot: int, lo: int, hi: int): (res: Partitioned)
    requires AtHead(r.a, low, high, pivot, lo, hi)
    ensures |res.run.a| == |r.a|
    ensures low <= res.p <= high
    ensures low < high ==> res.p < high
    decreases hi - lo + 3, 3
  {
    if lo <= hi then PartitionUp(r, low, high, pivot, lo, hi)
    else Partitioned(r, lo - 1)
  }

  /** `while (arr[low] < pivot) { Comparisons++; low++; }` (Sorting.cs:177-181). */
  function PartitionUp(r: Run, low: int, high: int, pivot: int, lo: int, hi: int): (res: Partitioned)
    requires InUp(r.a, low, high, pivot, lo, hi)
    ensures |res.run.a| == |r.a|
    ensures low <= res.p <= high
    ensures low < high ==> res.p < high
    decreases hi - lo + 3, 2
  {
    if r.a[lo] < pivot then PartitionUp(Run(r.a, r.comparisons + 1, r.swaps), low, high, pivot, lo + 1, hi)
    else PartitionDown(r, low, high, pivot, lo, hi)
  }

  /** `while (arr[high] > pivot) { Comparisons++; high--; }` (Sorting.cs:183-187). */
  function PartitionDown(r: Run, low: int, high: int, pivot: int, lo: int, hi: int): (res: Partitioned)
    requires InDown(r.a, low, high, pivot, lo, hi)
    ensures |res.run.a| == |r.a|
    ensures low <= res.p <= high
    ensures low < high ==> res.p < high
    decreases hi - lo + 3, 1
  {
    if r.a[hi] > pivot then PartitionDown(Run(r.a, r.comparisons + 1, r.swaps), low, high, pivot, lo, hi - 1)
    else PartitionExchange(r, low, high, pivot, lo, hi)
  }

  /** The exchange `if (low <= high) { ... }` (Sorting.cs:189-199), back to the loop head. */
  function PartitionExchange(r: Run, low: int, high: int, pivot: int, lo: int, hi: int): (res: Partitioned)
    requires InExchange(r.a, low, high, pivot, lo, hi)
    ensures |res.run.a| == |r.a|
    ensures low <= res.p <= high
    ensures low < high ==> res.p < high
    decreases hi - lo + 3, 0
  {
    if lo < hi then PartitionHead(Run(Swap(r.a, lo, hi), r.comparisons, r.swaps + 1), low, high, pivot, lo + 1, hi - 1)
    else if lo == hi then PartitionHead(r, low, high, pivot, lo + 1, hi - 1)
    else Partitioned(r, lo - 1)
  }

  /** `QuickSorter.Partition(arr, low, high)` (Sorting.cs:170-203) with the first element as
      pivot. */
  function PartitionRange(r: Run, low: int, high: int): (res: Partitioned)
    requires 0 <= low <= high < |r.a|
    ensures |res.run.a| == |r.a|
    ensures low <= res.p <= high
    ensures low < high ==> res.p < high
  {
    PartitionHead(r, low, high, r.a[low], low, high)
  }

  /** `QuickSorter.QuickSort(arr, low, high)` (Sorting.cs:159-168) as written: partition, then
      recurse into `[low, p - 1]` and `[p + 1, high]`. */
  function QuickSortRange(r: Run, low: int, high: int): (r': Run)
    requires 0 <= low <= high + 1 <= |r.a|
    ensures |r'.a| == |r.a|
    decreases high - low
  {
    if low >= high then r
    else
      var pr := PartitionRange(r, low, high);
      QuickSortRange(QuickSortRange(pr.run, low, pr.p - 1), pr.p + 1, high)
  }

  /** `QuickSorter.Sort` (Sorting.cs:149-157): reset the counters, then sort `[0, Count - 1]`. */
  function QuickSortRun(s: seq<int>): (r: Run)
    ensures |r.a| == |s|
  {
    QuickSortRange(Run(s, 0, 0), 0, |s| - 1)
  }

  /** Quick sort with the recursion `[low, p]`, `[p + 1, high]` that Hoare partitioning calls
      for: `Partition` splits around an index, not around the pivot's final position. */
  function FixedQuickSortRange(r: Run, low: int, high: int): (r': Run)
    requires 0 <= low <= high + 1 <= |r.a|
    ensures |r'.a| == |r.a|
    decreases high - low
  {
    if low >= high then r
    else
      var pr := PartitionRange(r, low, high);
      FixedQuickSortRange(FixedQuickSortRange(pr.run, low, pr.p), pr.p + 1, high)
  }

  function FixedQuickSortRun(s: seq<int>): (r: Run)
    ensures |r.a| == |s|
  {
    FixedQuickSortRange(Run(s, 0, 0), 0, |s| - 1)
  }

  /** `QuickSorter.Median` (Sorting.cs:205-211), the median of three values. */
  function Median(a: int, b: int, c: int): (m: int)
    ensures m == a || m == b || m == c
    ensures (if a <= m then 1 else 0) + (if b <= m then 1 else 0) + (if c <= m then 1 else 0) >= 2
    ensures (if a >= m then 1 else 0) + (if b >= m then 1 else 0) + (if c >= m then 1 else 0) >= 2
  {
    if a < b then (if b < c then b else Max(a, c))
    else (if a < c then a else Max(b, c))
  }

  /** `Math.Max`: the larger of `x` and `y`. */
  function Max(x: int, y: int): (m: int)
    ensures m >= x && m >= y
    ensures m == x || m == y
  {
    if x >= y then x else y
  }

  // ---------------------------------------------------------------------------------------
  // Lemmas about the partition
  // ---------------------------------------------------------------------------------------

  /** What the partition has established: everything before `lo` is at most the pivot and
      everything after `hi` at least the pivot. */
  predicate SplitSoFar(a: seq<int>, low: int, high: int, pivot: int, lo: int, hi: int)
    requires 0 <= low && lo <= high + 1 && high < |a| && -1 <= hi
  {
    && (forall m :: low <= m < lo ==> a[m] <= pivot)
    && (forall m :: hi < m <= high ==> a[m] >= pivot)
  }

  /** `[low, p]` holds only elements at most the pivot and `[p + 1, high]` only elements at least
      the pivot. */
  predicate SplitAt(a: seq<int>, low: int, high: int, pivot: int, p: int)
    requires 0 <= low <= p <= high < |a|
  {
    && (forall m :: low <= m <= p ==> a[m] <= pivot)
    && (forall m :: p < m <= high ==> a[m] >= pivot)
  }

  /** An exchange inside `[lo, hi)` permutes within it. */
  lemma SwapPermuted(s: seq<int>, i: int, j: int, lo: int, hi: int)
    requires 0 <= lo <= i < hi <= |s| && lo <= j < hi
    ensures Permuted(s, Swap(s, i, j), lo, hi)
  {
    SwapPermutes(s, i, j);
  }

  /** The partition only exchanges elements inside `[low, high]`: from the head of the outer
      loop, and from each of its other three phases below. */
  lemma {:induction false} PermutesFromHead(r: Run, low: int, high: int, pivot: int, lo: int, hi: int)
    requires AtHead(r.a, low, high, pivot, lo, hi)
    ensures Permuted(r.a, PartitionHead(r, low, high, pivot, lo, hi).run.a, low, high + 1)
    decreases hi - lo + 3, 3
  {
    if lo <= hi {
      EnterUp(r, low, high, pivot, lo, hi);
      PermutesFromUp(r, low, high, pivot, lo, hi);
    } else {
      Finish(r, low, high, pivot, lo, hi);
    }
  }

  lemma {:induction false} PermutesFromUp(r: Run, low: int, high: int, pivot: int, lo: int, hi: int)
    requires InUp(r.a, low, high, pivot, lo, hi)
    ensures Permuted(r.a, PartitionUp(r, low, high, pivot, lo, hi).run.a, low, high + 1)
    decreases hi - lo + 3, 2
  {
    if r.a[lo] < pivot {
      StepUp(r, low, high, pivot, lo, hi);
      PermutesFromUp(Run(r.a, r.comparisons + 1, r.swaps), low, high, pivot, lo + 1, hi);
    } else {
      EnterDown(r, low, high, pivot, lo, hi);
      PermutesFromDown(r, low, high, pivot, lo, hi);
    }
  }

  lemma {:induction false} PermutesFromDown(r: Run, low: int, high: int, pivot: int, lo: int, hi: int)
    requires InDown(r.a, low, high, pivot, lo, hi)
    ensures Permuted(r.a, PartitionDown(r, low, high, pivot, lo, hi).run.a, low, high + 1)
    decreases hi - lo + 3, 1
  {
    if r.a[hi] > pivot {
      StepDown(r, low, high, pivot, lo, hi);
      PermutesFromDown(Run(r.a, r.comparisons + 1, r.swaps), low, high, pivot, lo, hi - 1);
    } else {
      EnterExchange(r, low, high, pivot, lo, hi);
      PermutesFromExchange(r, low, high, pivot, lo, hi);
    }
  }

  lemma {:induction false} PermutesFromExchange(r: Run, low: int, high: int, pivot: int, lo: int, hi: int)
    requires InExchange(r.a, low, high, pivot, lo, hi)
    ensures Permuted(r.a, PartitionExchange(r, low, high, pivot, lo, hi).run.a, low, high + 1)
    decreases hi - lo + 3, 0
  {
    if lo < hi {
      StepExchange(r, low, high, pivot, lo, hi);
      PermutesFromSwap(r, low, high, pivot, lo, hi);
    } else if lo == hi {
      StepMeet(r, low, high, pivot, lo, hi);
      PermutesFromHead(r, low, high, pivot, lo + 1, hi - 1);
    } else {
      StepCrossed(r, low, high, pivot, lo, hi);
      Finish(r, low, high, pivot, lo, hi);
    }
  }

  /** The exchange of two distinct positions and what follows it. */
  lemma {:induction false} PermutesFromSwap(r: Run, low: int, high: int, pivot: int, lo: int, hi: int)
    requires InExchange(r.a, low, high, pivot, lo, hi) && lo < hi
    ensures AtHead(Swap(r.a, lo, hi), low, high, pivot, lo + 1, hi - 1)
    ensures Permuted(r.a, PartitionHead(Run(Swap(r.a, lo, hi), r.comparisons, r.swaps + 1), low, high, pivot, lo + 1, hi - 1).run.a, low, high + 1)
    decreases hi - lo + 2, 4
  {
    var r' := Run(Swap(r.a, lo, hi), r.comparisons, r.swaps + 1);
    StepExchange(r, low, high, pivot, lo, hi);
    PermutesFromHead(r', low, high, pivot, lo + 1, hi - 1);
    SwapPermuted(r.a, lo, hi, low, high + 1);
    PermutedTrans(r.a, r'.a, PartitionHead(r', low, high, pivot, lo + 1, hi - 1).run.a, low, high + 1, low, high + 1);
  }

  /** Hoare's partition property: once the cursors have crossed, `[low, p]` holds only elements
      at most the pivot and `[p + 1, high]` only elements at least the pivot; from the head of
      the outer loop, and from each of its other three phases below. */
  lemma {:induction false} SplitsFromHead(r: Run, low: int, high: int, pivot: int, lo: int, hi: int)
    requires AtHead(r.a, low, high, pivot, lo, hi)
    requires SplitSoFar(r.a, low, high, pivot, lo, hi)
    ensures var res := PartitionHead(r, low, high, pivot, lo, hi);
      SplitAt(res.run.a, low, high, pivot, res.p)
    decreases hi - lo + 3, 3
  {
    if lo <= hi {
      EnterUp(r, low, high, pivot, lo, hi);
      SplitsFromUp(r, low, high, pivot, lo, hi);
    } else {
      Finish(r, low, high, pivot, lo, hi);
    }
  }

  lemma {:induction false} SplitsFromUp(r: Run, low: int, high: int, pivot: int, lo: int, hi: int)
    requires InUp(r.a, low, high, pivot, lo, hi)
    requires lo <= high + 1 && -1 <= hi && SplitSoFar(r.a, low, high, pivot, lo, hi)
    ensures var res := PartitionUp(r, low, high, pivot, lo, hi);
      SplitAt(res.run.a, low, high, pivot, res.p)
    decreases hi - lo + 3, 2
  {
    if r.a[lo] < pivot {
      StepUp(r, low, high, pivot, lo, hi);
      SplitsFromUp(Run(r.a, r.comparisons + 1, r.swaps), low, high, pivot, lo + 1, hi);
    } else {
      EnterDown(r, low, high, pivot, lo, hi);
      SplitsFromDown(r, low, high, pivot, lo, hi);
    }
  }

  lemma {:induction false} SplitsFromDown(r: Run, low: int, high: int, pivot: int, lo: int, hi: int)
    requires InDown(r.a, low, high, pivot, lo, hi)
    requires -1 <= hi && SplitSoFar(r.a, low, high, pivot, lo, hi)
    ensures var res := PartitionDown(r, low, high, pivot, lo, hi);
      SplitAt(res.run.a, low, high, pivot, res.p)
    decreases hi - lo + 3, 1
  {
    if r.a[hi] > pivot {
      StepDown(r, low, high, pivot, lo, hi);
      SplitsFromDown(Run(r.a, r.comparisons + 1, r.swaps), low, high, pivot, lo, hi - 1);
    } else {
      EnterExchange(r, low, high, pivot, lo, hi);
      SplitsFromExchange(r, low, high, pivot, lo, hi);
    }
  }

  lemma {:induction false} SplitsFromExchange(r: Run, low: int, high: int, pivot: int, lo: int, hi: int)
    requires InExchange(r.a, low, high, pivot, lo, hi)
    requires SplitSoFar(r.a, low, high, pivot, lo, hi)
    ensures var res := PartitionExchange(r, low, high, pivot, lo, hi);
      SplitAt(res.run.a, low, high, pivot, res.p)
    decreases hi - lo + 3, 0
  {
    if lo < hi {
      var r' := Run(Swap(r.a, lo, hi), r.comparisons, r.swaps + 1);
      StepExchange(r, low, high, pivot, lo, hi);
      SwapExtendsSplit(r.a, low, high, pivot, lo, hi);
      SplitsFromHead(r', low, high, pivot, lo + 1, hi - 1);
    } else if lo == hi {
      StepMeet(r, low, high, pivot, lo, hi);
      SplitsFromHead(r, low, high, pivot, lo + 1, hi - 1);
    } else {
      StepCrossed(r, low, high, pivot, lo, hi);
      Finish(r, low, high, pivot, lo, hi);
    }
  }

  /** Exchanging the two elements the scans stopped at extends the split by one on each side. */
  lemma SwapExtendsSplit(a: seq<int>, low: int, high: int, pivot: int, lo: int, hi: int)
    requires InExchange(a, low, high, pivot, lo, hi) && lo < hi
    requires SplitSoFar(a, low, high, pivot, lo, hi)
    ensures SplitSoFar(Swap(a, lo, hi), low, high, pivot, lo + 1, hi - 1)
  {
    var a' := Swap(a, lo, hi);
    SwapPermutes(a, lo, hi);
    forall m | low <= m < lo + 1
      ensures a'[m] <= pivot
    {
      if m < lo {
        assert a'[m] == a[m];
      }
    }
    forall m | hi - 1 < m <= high
      ensures a'[m] >= pivot
    {
      if m > hi {
        assert a'[m] == a[m];
      }
    }
  }

  /** `Partition(arr, low, high)` splits `[low, high]` at the index it returns: nothing above the
      pivot `arr[low]` up to it, nothing below the pivot after it, and the range's elements only
      rearranged. */
  lemma PartitionRangeSplits(r: Run, low: int, high: int)
    requires 0 <= low <= high < |r.a|
    ensures var res := PartitionRange(r, low, high);
      && Permuted(r.a, res.run.a, low, high + 1)
      && SplitAt(res.run.a, low, high, r.a[low], res.p)
  {
    PermutesFromHead(r, low, high, r.a[low], low, high);
    SplitsFromHead(r, low, high, r.a[low], low, high);
  }

  /** On a sorted range the partition leaves the list as it is: every exchange it makes is
      between two copies of the pivot, the range's minimum. */
  lemma {:induction false} OnSortedFromHead(r: Run, low: int, high: int, pivot: int, lo: int, hi: int)
    requires AtHead(r.a, low, high, pivot, lo, hi)
    requires pivot == r.a[low] && forall i, j :: low <= i < j <= high ==> r.a[i] <= r.a[j]
    ensures PartitionHead(r, low, high, pivot, lo, hi).run.a == r.a
    decreases hi - lo + 3, 3
  {
    if lo <= hi {
      EnterUp(r, low, high, pivot, lo, hi);
      OnSortedFromUp(r, low, high, pivot, lo, hi);
    } else {
      Finish(r, low, high, pivot, lo, hi);
    }
  }

  lemma {:induction false} OnSortedFromUp(r: Run, low: int, high: int, pivot: int, lo: int, hi: int)
    requires InUp(r.a, low, high, pivot, lo, hi)
    requires pivot == r.a[low] && forall i, j :: low <= i < j <= high ==> r.a[i] <= r.a[j]
    ensures PartitionUp(r, low, high, pivot, lo, hi).run.a == r.a
    decreases hi - lo + 3, 2
  {
    // no element of the range is below its minimum, so the up scan does not move
    assert r.a[lo] >= pivot by {
      if lo > low {
        assert r.a[low] <= r.a[lo];
      }
    }
    EnterDown(r, low, high, pivot, lo, hi);
    OnSortedFromDown(r, low, high, pivot, lo, hi);
  }

  lemma {:induction false} OnSortedFromDown(r: Run, low: int, high: int, pivot: int, lo: int, hi: int)
    requires InDown(r.a, low, high, pivot, lo, hi)
    requires pivot == r.a[low] && forall i, j :: low <= i < j <= high ==> r.a[i] <= r.a[j]
    ensures PartitionDown(r, low, high, pivot, lo, hi).run.a == r.a
    decreases hi - lo + 3, 1
  {
    if r.a[hi] > pivot {
      StepDown(r, low, high, pivot, lo, hi);
      OnSortedFromDown(Run(r.a, r.comparisons + 1, r.swaps), low, high, pivot, lo, hi - 1);
    } else {
      EnterExchange(r, low, high, pivot, lo, hi);
      OnSortedFromExchange(r, low, high, pivot, lo, hi);
    }
  }

  lemma {:induction false} OnSortedFromExchange(r: Run, low: int, high: int, pivot: int, lo: int, hi: int)
    requires InExchange(r.a, low, high, pivot, lo, hi)
    requires pivot == r.a[low] && forall i, j :: low <= i < j <= high ==> r.a[i] <= r.a[j]
    ensures PartitionExchange(r, low, high, pivot, lo, hi).run.a == r.a
    decreases hi - lo + 3, 0
  {
    if lo < hi {
      // both stopping elements equal the pivot, so the exchange changes nothing
      assert r.a[low] <= r.a[lo] <= r.a[hi];
      assert Swap(r.a, lo, hi) == r.a;
      StepExchange(r, low, high, pivot, lo, hi);
      OnSortedFromHead(Run(r.a, r.comparisons, r.swaps + 1), low, high, pivot, lo + 1, hi - 1);
    } else if lo == hi {
      StepMeet(r, low, high, pivot, lo, hi);
      OnSortedFromHead(r, low, high, pivot, lo + 1, hi - 1);
    } else {
      StepCrossed(r, low, high, pivot, lo, hi);
      Finish(r, low, high, pivot, lo, hi);
    }
  }

  /** On a strictly increasing range the down scan from `hi` passes every element above the
      pivot `arr[low]`, one comparison each. */
  lemma {:induction false} DownOnIncreasing(r: Run, low: int, high: int, hi: int)
    requires 0 <= low <= hi <= high < |r.a|
    requires forall i, j :: low <= i < j <= high ==> r.a[i] < r.a[j]
    ensures PartitionDown(r, low, high, r.a[low], low, hi)
         == PartitionDown(Run(r.a, r.comparisons + (hi - low), r.swaps), low, high, r.a[low], low, low)
    decreases hi
  {
    if hi > low {
      DownOnIncreasing(Run(r.a, r.comparisons + 1, r.swaps), low, high, hi - 1);
    }
  }

  /** On a strictly increasing range the partition stops the down scan at the pivot itself after
      `high - low` comparisons, exchanges nothing and returns `low`. */
  lemma PartitionOnIncreasing(r: Run, low: int, high: int)
    requires 0 <= low <= high < |r.a|
    requires forall i, j :: low <= i < j <= high ==> r.a[i] < r.a[j]
    ensures PartitionRange(r, low, high) == Partitioned(Run(r.a, r.comparisons + (high - low), r.swaps), low)
  {
    var pivot := r.a[low];
    var r1 := Run(r.a, r.comparisons + (high - low), r.swaps);
    DownOnIncreasing(r, low, high, high);
    assert PartitionDown(r1, low, high, pivot, low, low) == Partitioned(r1, low) by {
      assert PartitionExchange(r1, low, high, pivot, low, low) == PartitionHead(r1, low, high, pivot, low + 1, low - 1);
    }
    assert PartitionRange(r, low, high) == PartitionUp(r, low, high, pivot, low, high);
  }

  // ---------------------------------------------------------------------------------------
  // Lemmas about the sorter as written
  // ---------------------------------------------------------------------------------------

  /** `QuickSort(arr, low, high)` rearranges `arr[low..high]` and touches nothing else. */
  lemma {:induction false} QuickSortRangeRearranges(r: Run, low: int, high: int)
    requires 0 <= low <= high + 1 <= |r.a|
    ensures Permuted(r.a, QuickSortRange(r, low, high).a, low, high + 1)
    decreases high - low
  {
    if low < high {
      var pr := PartitionRange(r, low, high);
      var p := pr.p;
      var r1 := QuickSortRange(pr.run, low, p - 1);
      var r2 := QuickSortRange(r1, p + 1, high);
      assert QuickSortRange(r, low, high) == r2;
      PermutesFromHead(r, low, high, r.a[low], low, high);
      QuickSortRangeRearranges(pr.run, low, p - 1);
      QuickSortRangeRearranges(r1, p + 1, high);
    }
  }

  /** `QuickSorter.Sort` permutes the list. */
  lemma QuickSortPermutes(s: seq<int>)
    ensures multiset(QuickSortRun(s).a) == multiset(s)
  {
    QuickSortRangeRearranges(Run(s, 0, 0), 0, |s| - 1);
  }

  /** A sorted range, duplicates allowed, stays as it is. */
  lemma {:induction false} QuickSortRangeOnSorted(r: Run, low: int, high: int)
    requires 0 <= low <= high + 1 <= |r.a|
    requires forall i, j :: low <= i < j <= high ==> r.a[i] <= r.a[j]
    ensures QuickSortRange(r, low, high).a == r.a
    decreases high - low
  {
    if low < high {
      var pr := PartitionRange(r, low, high);
      var p := pr.p;
      var r1 := QuickSortRange(pr.run, low, p - 1);
      assert QuickSortRange(r, low, high) == QuickSortRange(r1, p + 1, high);
      OnSortedFromHead(r, low, high, r.a[low], low, high);
      QuickSortRangeOnSorted(pr.run, low, p - 1);
      QuickSortRangeOnSorted(r1, p + 1, high);
    }
  }

  /** `QuickSorter.Sort` leaves an ascending list as it is. */
  lemma QuickSortOnSorted(s: seq<int>)
    requires Sorted(s)
    ensures QuickSortRun(s).a == s
  {
    QuickSortRangeOnSorted(Run(s, 0, 0), 0, |s| - 1);
  }

  /** The most comparisons the rest of `Partition` can count from cursors `lo` and `hi`. Every
      counted comparison moves one cursor one step, the scans never take a cursor more than one
      step past the other, and before the first exchange the up scan stops at the pivot itself. */
  function PartitionBound(low: int, lo: int, hi: int): int
  {
    if lo == low then hi - lo else if lo <= hi then hi - lo + 1 else 0
  }

  /** `Partition` counts at most `PartitionBound` comparisons: from the head of the outer loop, and
      from each of its other three phases below. */
  lemma {:induction false} CountsFromHead(r: Run, low: int, high: int, pivot: int, lo: int, hi: int)
    requires AtHead(r.a, low, high, pivot, lo, hi)
    ensures PartitionHead(r, low, high, pivot, lo, hi).run.comparisons <= r.comparisons + PartitionBound(low, lo, hi)
    decreases hi - lo + 3, 3
  {
    if lo <= hi {
      EnterUp(r, low, high, pivot, lo, hi);
      CountsFromUp(r, low, high, pivot, lo, hi);
    } else {
      Finish(r, low, high, pivot, lo, hi);
    }
  }

  lemma {:induction false} CountsFromUp(r: Run, low: int, high: int, pivot: int, lo: int, hi: int)
    requires InUp(r.a, low, high, pivot, lo, hi)
    ensures PartitionUp(r, low, high, pivot, lo, hi).run.comparisons <= r.comparisons + PartitionBound(low, lo, hi)
    decreases hi - lo + 3, 2
  {
    if r.a[lo] < pivot {
      StepUp(r, low, high, pivot, lo, hi);
      CountsFromUp(Run(r.a, r.comparisons + 1, r.swaps), low, high, pivot, lo + 1, hi);
    } else {
      EnterDown(r, low, high, pivot, lo, hi);
      CountsFromDown(r, low, high, pivot, lo, hi);
    }
  }

  lemma {:induction false} CountsFromDown(r: Run, low: int, high: int, pivot: int, lo: int, hi: int)
    requires InDown(r.a, low, high, pivot, lo, hi)
    ensures PartitionDown(r, low, high, pivot, lo, hi).run.comparisons <= r.comparisons + PartitionBound(low, lo, hi)
    decreases hi - lo + 3, 1
  {
    if r.a[hi] > pivot {
      StepDown(r, low, high, pivot, lo, hi);
      CountsFromDown(Run(r.a, r.comparisons + 1, r.swaps), low, high, pivot, lo, hi - 1);
    } else {
      EnterExchange(r, low, high, pivot, lo, hi);
      CountsFromExchange(r, low, high, pivot, lo, hi);
    }
  }

  lemma {:induction false} CountsFromExchange(r: Run, low: int, high: int, pivot: int, lo: int, hi: int)
    requires InExchange(r.a, low, high, pivot, lo, hi)
    ensures PartitionExchange(r, low, high, pivot, lo, hi).run.comparisons <= r.comparisons + PartitionBound(low, lo, hi)
    decreases hi - lo + 3, 0
  {
    if lo < hi {
      StepExchange(r, low, high, pivot, lo, hi);
      CountsFromHead(Run(Swap(r.a, lo, hi), r.comparisons, r.swaps + 1), low, high, pivot, lo + 1, hi - 1);
    } else if lo == hi {
      StepMeet(r, low, high, pivot, lo, hi);
      CountsFromHead(r, low, high, pivot, lo + 1, hi - 1);
    } else {
      StepCrossed(r, low, high, pivot, lo, hi);
      Finish(r, low, high, pivot, lo, hi);
    }
  }

  /** `Partition(arr, low, high)` counts at most `high - low` comparisons. */
  lemma PartitionRangeAtMost(r: Run, low: int, high: int)
    requires 0 <= low <= high < |r.a|
    ensures PartitionRange(r, low, high).run.comparisons <= r.comparisons + (high - low)
  {
    CountsFromHead(r, low, high, r.a[low], low, high);
  }

  /** n(n - 1)/2, the number of pairs among n elements. */
  function Pairs(n: nat): nat
  {
    if n == 0 then 0 else (n - 1) + Pairs(n - 1)
  }

  lemma {:induction false} PairsFormula(n: nat)
    ensures 2 * Pairs(n) == n * (n - 1)
  {
    if n > 0 {
      PairsFormula(n - 1);
      assert n * (n - 1) == (n - 1) * (n - 2) + 2 * (n - 1);
    }
  }

  /** On a strictly increasing range of n elements every partition returns its first index, so
      the sort makes n(n - 1)/2 comparisons, the most on any input (`QuickSortRangeAtMost`), and
      no swap. */
  lemma {:induction false} QuickSortRangeOnIncreasing(r: Run, low: int, high: int)
    requires 0 <= low <= high + 1 <= |r.a|
    requires forall i, j :: low <= i < j <= high ==> r.a[i] < r.a[j]
    ensures QuickSortRange(r, low, high) == Run(r.a, r.comparisons + Pairs(high - low + 1), r.swaps)
    decreases high - low
  {
    if low < high {
      var r1 := Run(r.a, r.comparisons + (high - low), r.swaps);
      PartitionOnIncreasing(r, low, high);
      assert QuickSortRange(r, low, high) == QuickSortRange(QuickSortRange(r1, low, low - 1), low + 1, high);
      QuickSortRangeOnIncreasing(r1, low + 1, high);
    }
  }

  /** Splitting n + 1 elements into a part of `a`, a part of `b` and one more never gains pairs:
      the pairs of the parts, plus one pair between the extra element and each other element. */
  lemma {:induction false} PairsSplit(a: nat, b: nat)
    ensures Pairs(a) + Pairs(b) + (a + b) <= Pairs(a + b + 1)
  {
    if a > 0 {
      PairsSplit(a - 1, b);
      assert Pairs(a + b + 1) == (a + b) + Pairs(a + b);
    }
  }

  /** On any range of n elements, `QuickSort` makes at most n(n - 1)/2 comparisons. */
  lemma {:induction false} QuickSortRangeAtMost(r: Run, low: int, high: int)
    requires 0 <= low <= high + 1 <= |r.a|
    ensures QuickSortRange(r, low, high).comparisons <= r.comparisons + Pairs(high - low + 1)
    decreases high - low
  {
    if low < high {
      var pr := PartitionRange(r, low, high);
      var r1 := QuickSortRange(pr.run, low, pr.p - 1);
      PartitionRangeAtMost(r, low, high);
      QuickSortRangeAtMost(pr.run, low, pr.p - 1);
      QuickSortRangeAtMost(r1, pr.p + 1, high);
      PairsSplit(pr.p - low, high - pr.p);
    }
  }

  /** `QuickSorter.Sort` on n elements makes at most n(n - 1)/2 comparisons, so strictly increasing
      input (`QuickSortOnIncreasing`) is the worst case. */
  lemma QuickSortAtMost(s: seq<int>)
    ensures QuickSortRun(s).comparisons <= Pairs(|s|)
    ensures 2 * QuickSortRun(s).comparisons <= |s| * (|s| - 1)
  {
    QuickSortRangeAtMost(Run(s, 0, 0), 0, |s| - 1);
    PairsFormula(|s|);
  }

  /** `QuickSorter.Sort` on a strictly increasing list of n elements makes exactly n(n - 1)/2
      comparisons and no swap, and leaves the list as it is. */
  lemma QuickSortOnIncreasing(s: seq<int>)
    requires StrictlyIncreasing(s)
    ensures QuickSortRun(s) == Run(s, Pairs(|s|), 0)
    ensures 2 * QuickSortRun(s).comparisons == |s| * (|s| - 1)
  {
    QuickSortRangeOnIncreasing(Run(s, 0, 0), 0, |s| - 1);
    PairsFormula(|s|);
  }

  /** Lists of length 0 or 1 are left as they are, with both counters 0. */
  lemma QuickSortTrivial(s: seq<int>)
    requires |s| <= 1
    ensures QuickSortRun(s) == Run(s, 0, 0)
  {
  }

  /** As written, `QuickSort` does not sort: the partition of [3, 1, 2] exchanges 3 and 2 and
      returns 1, and the recursion into `[0, 0]` and `[2, 2]` never looks at index 0 again. */
  lemma QuickSortCounterexample()
    ensures QuickSortRun([3, 1, 2]) == Run([2, 1, 3], 1, 1)
    ensures !Sorted(QuickSortRun([3, 1, 2]).a)
  {
    var a := [3, 1, 2];
    var b := [2, 1, 3];
    assert Swap(a, 0, 2) == b;
    var done := Partitioned(Run(b, 1, 1), 1);
    assert PartitionDown(Run(b, 1, 1), 0, 2, 3, 2, 1) == done;
    assert PartitionUp(Run(b, 0, 1), 0, 2, 3, 1, 1) == done;
    assert PartitionDown(Run(a, 0, 0), 0, 2, 3, 0, 2) == done;
    assert PartitionRange(Run(a, 0, 0), 0, 2) == done;
    assert b[0] > b[1];
  }

  // ---------------------------------------------------------------------------------------
  // One step of `Partition` at a time (used by the method `QuickSorter.Partition`)
  // ---------------------------------------------------------------------------------------

  /** Entering the outer loop body starts the up scan. */
  lemma EnterUp(r: Run, low: int, high: int, pivot: int, lo: int, hi: int)
    requires AtHead(r.a, low, high, pivot, lo, hi) && lo <= hi
    ensures InUp(r.a, low, high, pivot, lo, hi)
    ensures PartitionHead(r, low, high, pivot, lo, hi) == PartitionUp(r, low, high, pivot, lo, hi)
  {
  }

  /** One step of the up scan counts a comparison and moves `lo` up. */
  lemma StepUp(r: Run, low: int, high: int, pivot: int, lo: int, hi: int)
    requires InUp(r.a, low, high, pivot, lo, hi) && r.a[lo] < pivot
    ensures InUp(r.a, low, high, pivot, lo + 1, hi)
    ensures PartitionUp(r, low, high, pivot, lo, hi)
         == PartitionUp(Run(r.a, r.comparisons + 1, r.swaps), low, high, pivot, lo + 1, hi)
  {
  }

  /** The up scan stops at an element at least the pivot and the down scan begins. */
  lemma EnterDown(r: Run, low: int, high: int, pivot: int, lo: int, hi: int)
    requires InUp(r.a, low, high, pivot, lo, hi) && r.a[lo] >= pivot
    ensures InDown(r.a, low, high, pivot, lo, hi)
    ensures PartitionUp(r, low, high, pivot, lo, hi) == PartitionDown(r, low, high, pivot, lo, hi)
  {
  }

  /** One step of the down scan counts a comparison and moves `hi` down. */
  lemma StepDown(r: Run, low: int, high: int, pivot: int, lo: int, hi: int)
    requires InDown(r.a, low, high, pivot, lo, hi) && r.a[hi] > pivot
    ensures InDown(r.a, low, high, pivot, lo, hi - 1)
    ensures PartitionDown(r, low, high, pivot, lo, hi)
         == PartitionDown(Run(r.a, r.comparisons + 1, r.swaps), low, high, pivot, lo, hi - 1)
  {
  }

  /** The down scan stops at an element at most the pivot. */
  lemma EnterExchange(r: Run, low: int, high: int, pivot: int, lo: int, hi: int)
    requires InDown(r.a, low, high, pivot, lo, hi) && r.a[hi] <= pivot
    ensures InExchange(r.a, low, high, pivot, lo, hi)
    ensures PartitionDown(r, low, high, pivot, lo, hi) == PartitionExchange(r, low, high, pivot, lo, hi)
  {
  }

  /** The exchange of two distinct positions counts a swap. */
  lemma StepExchange(r: Run, low: int, high: int, pivot: int, lo: int, hi: int)
    requires InExchange(r.a, low, high, pivot, lo, hi) && lo < hi
    ensures AtHead(Swap(r.a, lo, hi), low, high, pivot, lo + 1, hi - 1)
    ensures PartitionExchange(r, low, high, pivot, lo, hi)
         == PartitionHead(Run(Swap(r.a, lo, hi), r.comparisons, r.swaps + 1), low, high, pivot, lo + 1, hi - 1)
  {
  }

  /** Cursors that meet step past each other without an exchange. */
  lemma StepMeet(r: Run, low: int, high: int, pivot: int, lo: int, hi: int)
    requires InExchange(r.a, low, high, pivot, lo, hi) && lo == hi
    ensures AtHead(r.a, low, high, pivot, lo + 1, hi - 1)
    ensures PartitionExchange(r, low, high, pivot, lo, hi)
         == PartitionHead(r, low, high, pivot, lo + 1, hi - 1)
  {
  }

  /** Cursors that have crossed at the exchange end the outer loop. */
  lemma StepCrossed(r: Run, low: int, high: int, pivot: int, lo: int, hi: int)
    requires InExchange(r.a, low, high, pivot, lo, hi) && lo > hi
    ensures AtHead(r.a, low, high, pivot, lo, hi)
    ensures PartitionExchange(r, low, high, pivot, lo, hi) == PartitionHead(r, low, high, pivot, lo, hi)
  {
  }

  /** Once the cursors have crossed, `Partition` returns `lo - 1` and changes nothing more. */
  lemma Finish(r: Run, low: int, high: int, pivot: int, lo: int, hi: int)
    requires AtHead(r.a, low, high, pivot, lo, hi) && lo > hi
    ensures PartitionHead(r, low, high, pivot, lo, hi) == Partitioned(r, lo - 1)
  {
  }

  // ---------------------------------------------------------------------------------------
  // Lemmas about the corrected recursion
  // ---------------------------------------------------------------------------------------

  /** Two sorted neighbouring slices with everything in the first at most `x` and everything in
      the second at least `x` form one sorted slice. */
  lemma SortedJoin(s: seq<int>, lo: int, mid: int, hi: int, x: int)
    requires 0 <= lo <= mid <= hi <= |s|
    requires Sorted(s[lo..mid]) && Sorted(s[mid..hi])
    requires forall m :: lo <= m < mid ==> s[m] <= x
    requires forall m :: mid <= m < hi ==> s[m] >= x
    ensures Sorted(s[lo..hi])
  {
    forall i, j | 0 <= i < j < hi - lo
      ensures s[lo..hi][i] <= s[lo..hi][j]
    {
      if j < mid - lo {
        assert s[lo..hi][i] == s[lo..mid][i] && s[lo..hi][j] == s[lo..mid][j];
      } else if i >= mid - lo {
        assert s[lo..hi][i] == s[mid..hi][i - (mid - lo)] && s[lo..hi][j] == s[mid..hi][j - (mid - lo)];
      }
    }
  }

  /** A bound on a slice survives a rearrangement within it (upper bound). */
  lemma RearrangedUpper(a: seq<int>, b: seq<int>, lo: int, hi: int, x: int)
    requires Permuted(a, b, lo, hi) && forall m :: lo <= m < hi ==> a[m] <= x
    ensures forall m :: lo <= m < hi ==> b[m] <= x
  {
    PermutationFixingOutside(a, b, lo, hi);
    forall k | lo <= k < hi
      ensures b[k] <= x
    {
      RearrangedElement(a, b, lo, hi, k);
    }
  }

  /** A bound on a slice survives a rearrangement within it (lower bound). */
  lemma RearrangedLower(a: seq<int>, b: seq<int>, lo: int, hi: int, x: int)
    requires Permuted(a, b, lo, hi) && forall m :: lo <= m < hi ==> a[m] >= x
    ensures forall m :: lo <= m < hi ==> b[m] >= x
  {
    PermutationFixingOutside(a, b, lo, hi);
    forall k | lo <= k < hi
      ensures b[k] >= x
    {
      RearrangedElement(a, b, lo, hi, k);
    }
  }

  /** The corrected recursion rearranges `arr[low..high]` and touches nothing else. */
  lemma {:induction false} FixedQuickSortRearranges(r: Run, low: int, high: int)
    requires 0 <= low <= high + 1 <= |r.a|
    ensures Permuted(r.a, FixedQuickSortRange(r, low, high).a, low, high + 1)
    decreases high - low
  {
    if low < high {
      var pr := PartitionRange(r, low, high);
      var p := pr.p;
      var r1 := FixedQuickSortRange(pr.run, low, p);
      var r2 := FixedQuickSortRange(r1, p + 1, high);
      assert FixedQuickSortRange(r, low, high) == r2;
      PermutesFromHead(r, low, high, r.a[low], low, high);
      FixedQuickSortRearranges(pr.run, low, p);
      FixedQuickSortRearranges(r1, p + 1, high);
    }
  }

  /** One step of the corrected recursion on lists alone: after a split at `p` around `pivot`,
      sorting `[low, p]` and then `[p + 1, high]` in place leaves `[low, high]` sorted. */
  lemma SortedAfterSplit(a0: seq<int>, a1: seq<int>, a2: seq<int>, low: int, p: int, high: int, pivot: int)
    requires 0 <= low <= p < high < |a0|
    requires SplitAt(a0, low, high, pivot, p)
    requires Permuted(a0, a1, low, p + 1) && Permuted(a1, a2, p + 1, high + 1)
    requires Sorted(a1[low..p + 1]) && Sorted(a2[p + 1..high + 1])
    ensures Sorted(a2[low..high + 1])
  {
    // sorting the left part keeps it at most the pivot and leaves the right part alone
    RearrangedUpper(a0, a1, low, p + 1, pivot);
    // sorting the right part keeps it at least the pivot and leaves the left part alone
    assert forall m :: p + 1 <= m <= high ==> a1[m] >= pivot;
    RearrangedLower(a1, a2, p + 1, high + 1, pivot);
    assert a2[low..p + 1] == a1[low..p + 1];
    SortedJoin(a2, low, p + 1, high + 1, pivot);
  }

  /** With the recursion `[low, p]`, `[p + 1, high]` the range ends up sorted. */
  lemma {:induction false} FixedQuickSortSortsRange(r: Run, low: int, high: int)
    requires 0 <= low <= high + 1 <= |r.a|
    ensures Sorted(FixedQuickSortRange(r, low, high).a[low..high + 1])
    decreases high - low
  {
    if low < high {
      var pr := PartitionRange(r, low, high);
      var p := pr.p;
      var r1 := FixedQuickSortRange(pr.run, low, p);
      var r2 := FixedQuickSortRange(r1, p + 1, high);
      assert FixedQuickSortRange(r, low, high) == r2;
      PartitionRangeSplits(r, low, high);
      FixedQuickSortRearranges(pr.run, low, p);
      FixedQuickSortRearranges(r1, p + 1, high);
      FixedQuickSortSortsRange(pr.run, low, p);
      FixedQuickSortSortsRange(r1, p + 1, high);
      SortedAfterSplit(pr.run.a, r1.a, r2.a, low, p, high, r.a[low]);
    }
  }

  /** The corrected quick sort leaves the list a sorted permutation of its input. */
  lemma FixedQuickSortSorts(s: seq<int>)
    ensures Sorted(FixedQuickSortRun(s).a)
    ensures multiset(FixedQuickSortRun(s).a) == multiset(s)
  {
    FixedQuickSortSortsRange(Run(s, 0, 0), 0, |s| - 1);
    FixedQuickSortRearranges(Run(s, 0, 0), 0, |s| - 1);
    assert FixedQuickSortRun(s).a[0..|s|] == FixedQuickSortRun(s).a;
  }

  /** The as-written and corrected recursions agree, counters included, on a strictly increasing
      range: every partition returns its first index, so `[low, p - 1]` is empty and `[low, p]`
      has one element. */
  lemma {:induction false} FixedAgreesOnSorted(r: Run, low: int, high: int)
    requires 0 <= low <= high + 1 <= |r.a|
    requires forall i, j :: low <= i < j <= high ==> r.a[i] < r.a[j]
    ensures FixedQuickSortRange(r, low, high) == QuickSortRange(r, low, high)
    decreases high - low
  {
    if low < high {
      var r1 := Run(r.a, r.comparisons + (high - low), r.swaps);
      PartitionOnIncreasing(r, low, high);
      assert FixedQuickSortRange(r, low, high) == FixedQuickSortRange(FixedQuickSortRange(r1, low, low), low + 1, high);
      assert QuickSortRange(r, low, high) == QuickSortRange(QuickSortRange(r1, low, low - 1), low + 1, high);
      FixedAgreesOnSorted(r1, low + 1, high);
    }
  }

  /** On sorted input, duplicates allowed, both recursions leave the list as it is. */
  lemma FixedAgreesOnSortedList(s: seq<int>)
    requires Sorted(s)
    ensures FixedQuickSortRun(s).a == QuickSortRun(s).a == s
  {
    QuickSortOnSorted(s);
    FixedQuickSortSorts(s);
    SortedPermutationUnique(FixedQuickSortRun(s).a, s);
  }

  /** With duplicates the counters can differ: on `[1, 1, 1]` the corrected recursion also
      partitions `[0, 1]`, exchanging the two equal elements, and counts one swap more. */
  lemma DuplicatesCostFixedASwap()
    ensures QuickSortRun([1, 1, 1]) == Run([1, 1, 1], 0, 1)
    ensures FixedQuickSortRun([1, 1, 1]) == Run([1, 1, 1], 0, 2)
  {
  }

  // ---------------------------------------------------------------------------------------
  // Median of three
  // ---------------------------------------------------------------------------------------

  /** The median does not depend on the order of its arguments. */
  lemma MedianSymmetric(a: int, b: int, c: int)
    ensures Median(a, b, c) == Median(b, a, c) == Median(a, c, b)
  {
  }

  /** The median of three values in ascending order is the middle one. */
  lemma MedianOfOrdered(a: int, b: int, c: int)
    requires a <= b <= c
    ensures Median(a, b, c) == b
  {
  }

  // ---------------------------------------------------------------------------------------
  // The sorter object
  // ---------------------------------------------------------------------------------------

  class QuickSorter {
    var comparisons: nat
    var swaps: nat

    constructor ()
      ensures comparisons == 0 && swaps == 0
    {
      comparisons, swaps := 0, 0;
    }

    /** The list `arr` and this sorter's counters, as one `Run`. */
    function State(arr: array<int>): (r: Run)
      reads this, arr
      ensures |r.a| == arr.Length
    {
      Run(arr[..], comparisons, swaps)
    }

    /** `Sorter.ResetStats` (Sorting.cs:12-17). */
    method ResetStats()
      modifies this
      ensures comparisons == 0 && swaps == 0
    {
      comparisons, swaps := 0, 0;
    }

    /** `QuickSorter.Sort` (Sorting.cs:149-157). */
    method Sort(data: array<int>)
      modifies this, data
      ensures State(data) == QuickSortRun(old(data[..]))
      ensures multiset(data[..]) == multiset(old(data[..]))
      ensures Sorted(old(data[..])) ==> data[..] == old(data[..])
    {
      ghost var s := data[..];
      ResetStats();
      QuickSort(data, 0, data.Length - 1);
      QuickSortPermutes(s);
      if Sorted(s) {
        QuickSortOnSorted(s);
      }
    }

    /** `QuickSorter.QuickSort` (Sorting.cs:159-168). */
    method QuickSort(arr: array<int>, low: int, high: int)
      requires 0 <= low <= high + 1 <= arr.Length
      modifies this, arr
      ensures State(arr) == QuickSortRange(old(State(arr)), low, high)
      decreases high - low
    {
      if low >= high {
        return;
      }
      var p := Partition(arr, low, high);
      QuickSort(arr, low, p - 1);
      QuickSort(arr, p + 1, high);
    }

    /** `QuickSort` with the corrected recursion into `[low, p]` and `[p + 1, high]`, which sorts
        the range (`FixedQuickSortSortsRange`). */
    method FixedQuickSort(arr: array<int>, low: int, high: int)
      requires 0 <= low <= high + 1 <= arr.Length
      modifies this, arr
      ensures State(arr) == FixedQuickSortRange(old(State(arr)), low, high)
      ensures Sorted(arr[low..high + 1])
      decreases high - low
    {
      ghost var r := State(arr);
      FixedQuickSortSortsRange(r, low, high);
      if low >= high {
        return;
      }
      var p := Partition(arr, low, high);
      FixedQuickSort(arr, low, p);
      FixedQuickSort(arr, p + 1, high);
    }

    /** `QuickSorter.Partition` (Sorting.cs:170-203). The source moves its parameters `low` and
        `high`; here they are copied into the cursors `lo` and `hi`. */
    method Partition(arr: array<int>, low: int, high: int) returns (p: int)
      requires 0 <= low <= high < arr.Length
      modifies this, arr
      ensures PartitionRange(old(State(arr)), low, high) == Partitioned(State(arr), p)
    {
      var pivot := arr[low];
      ghost var goal := PartitionRange(State(arr), low, high);
      ghost var cur := State(arr);
      var lo, hi := low, high;
      while lo <= hi
        invariant State(arr) == cur && AtHead(cur.a, low, high, pivot, lo, hi)
        invariant PartitionHead(cur, low, high, pivot, lo, hi) == goal
        decreases hi - lo + 2
      {
        EnterUp(cur, low, high, pivot, lo, hi);
        lo := ScanUp(arr, low, high, pivot, lo, hi);
        cur := State(arr);
        EnterDown(cur, low, high, pivot, lo, hi);
        hi := ScanDown(arr, low, high, pivot, lo, hi);
        cur := State(arr);
        EnterExchange(cur, low, high, pivot, lo, hi);
        lo, hi := ExchangeStep(arr, low, high, pivot, lo, hi);
        cur := State(arr);
      }
      Finish(cur, low, high, pivot, lo, hi);
      p := lo - 1;
    }

    /** The exchange `if (low <= high) { ... }` of `Partition` (Sorting.cs:189-199): distinct
        positions are exchanged and counted, and unless the cursors have crossed both step
        inward. */
    method ExchangeStep(arr: array<int>, low: int, high: int, pivot: int, lo0: int, hi0: int) returns (lo: int, hi: int)
      requires InExchange(arr[..], low, high, pivot, lo0, hi0)
      modifies this, arr
      ensures AtHead(arr[..], low, high, pivot, lo, hi)
      ensures lo0 <= hi0 ==> lo == lo0 + 1 && hi == hi0 - 1
      ensures lo0 > hi0 ==> lo == lo0 && hi == hi0
      ensures PartitionExchange(old(State(arr)), low, high, pivot, lo0, hi0) == PartitionHead(State(arr), low, high, pivot, lo, hi)
    {
      ghost var r := State(arr);
      lo, hi := lo0, hi0;
      if lo <= hi {
        if lo != hi {
          StepExchange(r, low, high, pivot, lo, hi);
          arr[lo], arr[hi] := arr[hi], arr[lo];
          swaps := swaps + 1;
          assert State(arr) == Run(Swap(r.a, lo, hi), r.comparisons, r.swaps + 1);
        } else {
          StepMeet(r, low, high, pivot, lo, hi);
        }
        lo := lo + 1;
        hi := hi - 1;
      } else {
        StepCrossed(r, low, high, pivot, lo, hi);
      }
    }

    /** The loop `while (arr[low] < pivot) { Comparisons++; low++; }` of `Partition`
        (Sorting.cs:177-181). */
    method ScanUp(arr: array<int>, low: int, high: int, pivot: int, lo0: int, hi: int) returns (lo: int)
      requires InUp(arr[..], low, high, pivot, lo0, hi)
      modifies this
      ensures lo0 <= lo && InUp(arr[..], low, high, pivot, lo, hi) && arr[lo] >= pivot
      ensures PartitionUp(State(arr), low, high, pivot, lo, hi) == PartitionUp(old(State(arr)), low, high, pivot, lo0, hi)
    {
      ghost var start := PartitionUp(State(arr), low, high, pivot, lo0, hi);
      lo := lo0;
      while arr[lo] < pivot
        invariant lo0 <= lo && InUp(arr[..], low, high, pivot, lo, hi)
        invariant PartitionUp(State(arr), low, high, pivot, lo, hi) == start
        decreases hi - lo + 1
      {
        ghost var r := State(arr);
        StepUp(r, low, high, pivot, lo, hi);
        comparisons := comparisons + 1;
        lo := lo + 1;
        assert State(arr) == Run(r.a, r.comparisons + 1, r.swaps);
      }
    }

    /** The loop `while (arr[high] > pivot) { Comparisons++; high--; }` of `Partition`
        (Sorting.cs:183-187). */
    method ScanDown(arr: array<int>, low: int, high: int, pivot: int, lo: int, hi0: int) returns (hi: int)
      requires InDown(arr[..], low, high, pivot, lo, hi0)
      modifies this
      ensures hi <= hi0 && InDown(arr[..], low, high, pivot, lo, hi) && arr[hi] <= pivot
      ensures PartitionDown(State(arr), low, high, pivot, lo, hi) == PartitionDown(old(State(arr)), low, high, pivot, lo, hi0)
    {
      ghost var start := PartitionDown(State(arr), low, high, pivot, lo, hi0);
      hi := hi0;
      while arr[hi] > pivot
        invariant hi <= hi0 && InDown(arr[..], low, high, pivot, lo, hi)
        invariant PartitionDown(State(arr), low, high, pivot, lo, hi) == start
        decreases hi - lo + 1
      {
        ghost var r := State(arr);
        StepDown(r, low, high, pivot, lo, hi);
        comparisons := comparisons + 1;
        hi := hi - 1;
        assert State(arr) == Run(r.a, r.comparisons + 1, r.swaps);
      }
    }
  }
}
