/** `HeapSorter` (Sorting.cs:103-145): in-place heap sort over a max-heap stored in the list,
    node `i` having children `2i + 1` and `2i + 2`. */
module Heap {
  import opened Sorting

  // ---------------------------------------------------------------------------------------
  // The sorter as a function of its state
  // ---------------------------------------------------------------------------------------

  /** The `largest` that `Heapify(arr, n, i)` selects (Sorting.cs:126-136): the left child if it
      lies in the heap and is strictly greater than node `i`, then the right child if it lies in
      the heap and is strictly greater than the current choice. */
  function Largest(a: seq<int>, n: int, i: int): (m: int)
    requires 0 <= i && 0 <= n <= |a|
    ensures m == i || (2 * i + 1 <= m <= 2 * i + 2 && m < n)
    ensures i < n ==> a[i] <= a[m]
    ensures 2 * i + 1 < n ==> a[2 * i + 1] <= a[m]
    ensures 2 * i + 2 < n ==> a[2 * i + 2] <= a[m]
    ensures m != i ==> a[i] < a[m]
  {
    var l, r := 2 * i + 1, 2 * i + 2;
    var largest := if l < n && a[l] > a[i] then l else i;
    if r < n && a[r] > a[largest] then r else largest
  }

  /** `HeapSorter.Heapify(arr, n, i)` (Sorting.cs:124-144): two comparisons counted on every
      call; when a child is larger, exchange it with node `i` (one swap) and continue there. */
  function SiftDown(r: Run, n: int, i: int): (r': Run)
    requires 0 <= i && 0 <= n <= |r.a|
    ensures |r'.a| == |r.a|
    decreases n - i
  {
    var m := Largest(r.a, n, i);
    if m != i then SiftDown(Run(Swap(r.a, i, m), r.comparisons + 2, r.swaps + 1), n, m)
    else Run(r.a, r.comparisons + 2, r.swaps)
  }

  /** The first loop of `HeapSorter.Sort` (Sorting.cs:111-112) from `i` down to 0. */
  function BuildLoop(r: Run, n: int, i: int): (r': Run)
    requires 0 <= n <= |r.a| && -1 <= i
    ensures |r'.a| == |r.a|
    decreases i + 1
  {
    if i < 0 then r else BuildLoop(SiftDown(r, n, i), n, i - 1)
  }

  /** The second loop of `HeapSorter.Sort` (Sorting.cs:114-119) from `i` down to 1: move the root
      behind the heap (one swap), shrink the heap to `i` elements and sift the new root down. */
  function ExtractLoop(r: Run, i: int): (r': Run)
    requires i < |r.a|
    ensures |r'.a| == |r.a|
    decreases i
  {
    if i <= 0 then r
    else ExtractLoop(SiftDown(Run(Swap(r.a, 0, i), r.comparisons, r.swaps + 1), i, 0), i - 1)
  }

  /** `HeapSorter.Sort` (Sorting.cs:105-122): reset the counters, build the heap, extract. */
  function HeapSortRun(s: seq<int>): (r: Run)
    ensures |r.a| == |s|
  {
    var n := |s|;
    ExtractLoop(BuildLoop(Run(s, 0, 0), n, n / 2 - 1), n - 1)
  }

  // ---------------------------------------------------------------------------------------
  // The heap property
  // ---------------------------------------------------------------------------------------

  /** The parent of node `c > 0`. */
  function Parent(c: int): int
  {
    (c - 1) / 2
  }

  /** The first `n` elements satisfy the max-heap order at every node from `lo` on: a parent is
      at least as large as each of its children. */
  predicate HeapFrom(s: seq<int>, n: int, lo: int) {
    && 0 <= n <= |s|
    && forall c {:trigger Parent(c)} :: 0 < c < n && lo <= Parent(c) ==> s[Parent(c)] >= s[c]
  }

  /** ⌊log₂ n⌋ (0 for n <= 1): the depth of the last node of an n-element heap. */
  function Log2(n: nat): nat
  {
    if n <= 1 then 0 else 1 + Log2(n / 2)
  }

  /** A node at or after n / 2 has no child inside an n-element heap, so there is nothing to
      check from there on. */
  lemma HeapFromLeaves(s: seq<int>, n: int)
    requires 0 <= n <= |s|
    ensures HeapFrom(s, n, n / 2)
  {
  }

  /** The root of a heap is its maximum. */
  lemma {:induction false} HeapRootMax(s: seq<int>, n: int, k: int)
    requires HeapFrom(s, n, 0) && 0 <= k < n
    ensures s[k] <= s[0]
    decreases k
  {
    if k > 0 {
      HeapRootMax(s, n, Parent(k));
    }
  }

  /** Exchanging node `i` with its larger child `m` moves the defect of the heap order from `i`
      to `m`. */
  lemma SwapMovesDefect(a: seq<int>, n: int, i: int, m: int, lo: int)
    requires 0 <= lo <= i < n <= |a| && m == Largest(a, n, i) && m != i
    requires forall c {:trigger Parent(c)} :: 0 < c < n && lo <= Parent(c) && Parent(c) != i ==> a[Parent(c)] >= a[c]
    requires i > 0 && lo <= Parent(i) ==>
      (2 * i + 1 < n ==> a[Parent(i)] >= a[2 * i + 1]) && (2 * i + 2 < n ==> a[Parent(i)] >= a[2 * i + 2])
    ensures forall c {:trigger Parent(c)} :: 0 < c < n && lo <= Parent(c) && Parent(c) != m ==> Swap(a, i, m)[Parent(c)] >= Swap(a, i, m)[c]
    ensures (2 * m + 1 < n ==> Swap(a, i, m)[i] >= Swap(a, i, m)[2 * m + 1])
         && (2 * m + 2 < n ==> Swap(a, i, m)[i] >= Swap(a, i, m)[2 * m + 2])
  {
    var b := Swap(a, i, m);
    assert Parent(2 * m + 1) == m && Parent(2 * m + 2) == m;
    forall c | 0 < c < n && lo <= Parent(c) && Parent(c) != m
      ensures b[Parent(c)] >= b[c]
    {
      var p := Parent(c);
      if p == i {
        // c is m or its sibling; the new parent is the largest of the three
        assert c == 2 * i + 1 || c == 2 * i + 2;
      } else if c == i {
        // the parent of i dominates i and both of i's children
        assert a[p] >= a[i];
      } else {
        assert c != m;
      }
    }
  }

  /** `SiftDown` at `i` restores the heap order from `lo` on when it holds everywhere except at
      `i`, and `i`'s parent (when it is checked) dominates `i`'s children. With `lo == i` this is
      the textbook form as the first loop of `Sort` uses it: when the order holds at every node
      after `i`, so in particular the subtrees rooted at `i`'s children are heaps, `Heapify`
      extends it to `i`. With `lo < i` it is the form the recursion needs: the
      exchange at the parent has left a defect at `i` only. */
  lemma {:induction false} SiftDownHeap(r: Run, n: int, i: int, lo: int)
    requires 0 <= lo <= i < n <= |r.a|
    requires forall c {:trigger Parent(c)} :: 0 < c < n && lo <= Parent(c) && Parent(c) != i ==> r.a[Parent(c)] >= r.a[c]
    requires i > 0 && lo <= Parent(i) ==>
      (2 * i + 1 < n ==> r.a[Parent(i)] >= r.a[2 * i + 1]) && (2 * i + 2 < n ==> r.a[Parent(i)] >= r.a[2 * i + 2])
    ensures HeapFrom(SiftDown(r, n, i).a, n, lo)
    decreases n - i
  {
    var m := Largest(r.a, n, i);
    if m != i {
      var r2 := Run(Swap(r.a, i, m), r.comparisons + 2, r.swaps + 1);
      var r3 := SiftDown(r2, n, m);
      assert SiftDown(r, n, i) == r3;
      assert HeapFrom(r3.a, n, lo) by {
        assert Parent(m) == i;
        SwapMovesDefect(r.a, n, i, m, lo);
        SiftDownHeap(r2, n, m, lo);
      }
    } else {
      assert SiftDown(r, n, i).a == r.a;
      NoDefectAtLargest(r.a, n, i, lo);
    }
  }

  /** When node `i` is already the largest of itself and its children, the only defect is gone. */
  lemma NoDefectAtLargest(a: seq<int>, n: int, i: int, lo: int)
    requires 0 <= lo <= i < n <= |a| && Largest(a, n, i) == i
    requires forall c {:trigger Parent(c)} :: 0 < c < n && lo <= Parent(c) && Parent(c) != i ==> a[Parent(c)] >= a[c]
    ensures HeapFrom(a, n, lo)
  {
    forall c | 0 < c < n && lo <= Parent(c)
      ensures a[Parent(c)] >= a[c]
    {
      if Parent(c) == i {
        assert c == 2 * i + 1 || c == 2 * i + 2;
      }
    }
  }

  /** `SiftDown` at `i < n` rearranges `[i, n)` and touches nothing else. */
  lemma {:induction false} SiftDownRearranges(r: Run, n: int, i: int)
    requires 0 <= i < n <= |r.a|
    ensures RearrangedWithin(r.a, SiftDown(r, n, i).a, i, n)
    decreases n - i
  {
    var m := Largest(r.a, n, i);
    if m != i {
      var r2 := Run(Swap(r.a, i, m), r.comparisons + 2, r.swaps + 1);
      var r3 := SiftDown(r2, n, m);
      assert SiftDown(r, n, i) == r3;
      assert RearrangedWithin(r.a, r3.a, i, n) by {
        SwapRearranges(r.a, i, m, i, n);
        SiftDownRearranges(r2, n, m);
        RearrangedWiden(r2.a, r3.a, m, n, i, n);
        RearrangedTrans(r.a, r2.a, r3.a, i, n);
      }
    } else {
      RearrangedRefl(r.a, i, n);
    }
  }

  /** `SiftDown` permutes the list. */
  lemma SiftDownPermutes(r: Run, n: int, i: int)
    requires 0 <= i < n <= |r.a|
    ensures multiset(SiftDown(r, n, i).a) == multiset(r.a)
  {
    SiftDownRearranges(r, n, i);
    RearrangedIsPermutation(r.a, SiftDown(r, n, i).a, i, n);
  }

  /** The first loop turns the first `n` elements into a heap, given that the nodes after `i` are
      already in heap order. */
  lemma {:induction false} BuildLoopHeap(r: Run, n: int, i: int)
    requires 0 <= n <= |r.a| && -1 <= i < n
    requires HeapFrom(r.a, n, i + 1)
    ensures HeapFrom(BuildLoop(r, n, i).a, n, 0)
    decreases i + 1
  {
    if i >= 0 {
      SiftDownHeap(r, n, i, i);
      BuildLoopHeap(SiftDown(r, n, i), n, i - 1);
    }
  }

  /** The first loop rearranges the first `n` elements and touches nothing else. */
  lemma {:induction false} BuildLoopRearranges(r: Run, n: int, i: int)
    requires 0 <= n <= |r.a| && -1 <= i < n
    ensures RearrangedWithin(r.a, BuildLoop(r, n, i).a, 0, n)
    decreases i + 1
  {
    if i < 0 {
      RearrangedRefl(r.a, 0, n);
    } else {
      var r1 := SiftDown(r, n, i);
      SiftDownRearranges(r, n, i);
      RearrangedWiden(r.a, r1.a, i, n, 0, n);
      BuildLoopRearranges(r1, n, i - 1);
      RearrangedTrans(r.a, r1.a, BuildLoop(r1, n, i - 1).a, 0, n);
    }
  }

  /** What holds before each iteration of the second loop: `[0, i]` is a heap, `(i, |s|)` is
      sorted, and nothing in the heap exceeds anything behind it. */
  predicate ExtractInv(s: seq<int>, i: int) {
    && 0 <= i < |s|
    && HeapFrom(s, i + 1, 0)
    && Sorted(s[i + 1..])
    && forall x, y :: 0 <= x <= i < y < |s| ==> s[x] <= s[y]
  }

  /** One iteration of the second loop keeps `ExtractInv`. */
  lemma ExtractStep(r: Run, i: int)
    requires ExtractInv(r.a, i) && i > 0
    ensures ExtractInv(SiftDown(Run(Swap(r.a, 0, i), r.comparisons, r.swaps + 1), i, 0).a, i - 1)
  {
    var a := r.a;
    var r1 := Run(Swap(a, 0, i), r.comparisons, r.swaps + 1);
    var b := SiftDown(r1, i, 0).a;
    assert forall k :: 0 <= k <= i ==> a[k] <= a[0] by {
      forall k | 0 <= k <= i
        ensures a[k] <= a[0]
      {
        HeapRootMax(a, i + 1, k);
      }
    }
    SiftDownHeap(r1, i, 0, 0);
    SiftDownRearranges(r1, i, 0);
    assert b[i..] == r1.a[i..];
    forall y | i <= y < |b|
      ensures a[0] <= b[y]
    {
      assert b[y] == r1.a[i..][y - i];
    }
    assert Sorted(b[i..]) by {
      forall x, y | 0 <= x < y < |b[i..]|
        ensures b[i..][x] <= b[i..][y]
      {
        if x > 0 {
          assert b[i..][x] == a[i + 1..][x - 1];
          assert b[i..][y] == a[i + 1..][y - 1];
        }
      }
    }
    forall x, y | 0 <= x <= i - 1 < y < |b|
      ensures b[x] <= b[y]
    {
      RearrangedElement(r1.a, b, 0, i, x);
      var m :| 0 <= m < i && r1.a[m] == b[x];
      assert r1.a[m] <= a[0];
    }
  }

  /** The second loop sorts the list once `ExtractInv` holds. */
  lemma {:induction false} ExtractLoopSorts(r: Run, i: int)
    requires ExtractInv(r.a, i)
    ensures Sorted(ExtractLoop(r, i).a)
    decreases i
  {
    if i > 0 {
      ExtractLoopStep(r, i);
      ExtractStep(r, i);
      ExtractLoopSorts(SiftDown(Run(Swap(r.a, 0, i), r.comparisons, r.swaps + 1), i, 0), i - 1);
    } else {
      ExtractLoopDone(r, i);
      assert r.a == [r.a[0]] + r.a[1..];
    }
  }

  /** The second loop permutes the list. */
  lemma {:induction false} ExtractLoopPermutes(r: Run, i: int)
    requires -1 <= i < |r.a|
    ensures multiset(ExtractLoop(r, i).a) == multiset(r.a)
    decreases i
  {
    if i > 0 {
      var r1 := Run(Swap(r.a, 0, i), r.comparisons, r.swaps + 1);
      var r2 := SiftDown(r1, i, 0);
      assert multiset(r2.a) == multiset(r.a) by {
        SwapPermutes(r.a, 0, i);
        SiftDownPermutes(r1, i, 0);
      }
      ExtractLoopPermutes(r2, i - 1);
      ExtractLoopStep(r, i);
    } else {
      ExtractLoopDone(r, i);
    }
  }

  // ---------------------------------------------------------------------------------------
  // Counters
  // ---------------------------------------------------------------------------------------

  /** Every call of `Heapify` counts two comparisons, so a sift that makes `d` exchanges counts
      2(d + 1) comparisons. */
  lemma {:induction false} SiftDownCounts(r: Run, n: int, i: int)
    requires 0 <= i && 0 <= n <= |r.a|
    ensures SiftDown(r, n, i).swaps >= r.swaps
    ensures SiftDown(r, n, i).comparisons == r.comparisons + 2 * (SiftDown(r, n, i).swaps - r.swaps) + 2
    decreases n - i
  {
    var m := Largest(r.a, n, i);
    if m != i {
      var r2 := Run(Swap(r.a, i, m), r.comparisons + 2, r.swaps + 1);
      assert SiftDown(r, n, i) == SiftDown(r2, n, m);
      SiftDownCounts(r2, n, m);
    }
  }

  /** The arithmetic of one exchange: moving from node `i` to a child `m` at least doubles the
      1-based position. */
  lemma DoubleStep(i: nat, m: nat, n: nat, p: nat)
    requires 2 * (i + 1) <= m + 1 && (m + 1) * p <= n
    ensures (i + 1) * (2 * p) <= n
  {
    assert (i + 1) * (2 * p) == (2 * (i + 1)) * p;
    assert (2 * (i + 1)) * p <= (m + 1) * p;
  }

  /** Each exchange of a sift at least doubles the 1-based position of the sifted node, so a sift
      from `i` that makes `d` exchanges inside an n-element heap has (i + 1)·2^d <= n. */
  lemma {:induction false} SiftDownPow(r: Run, n: int, i: int)
    requires 0 <= i < n <= |r.a|
    ensures SiftDown(r, n, i).swaps >= r.swaps
    ensures (i + 1) * Pow2(SiftDown(r, n, i).swaps - r.swaps) <= n
    decreases n - i
  {
    var m := Largest(r.a, n, i);
    if m != i {
      var r2 := Run(Swap(r.a, i, m), r.comparisons + 2, r.swaps + 1);
      var r3 := SiftDown(r2, n, m);
      assert SiftDown(r, n, i) == r3;
      SiftDownPow(r2, n, m);
      var d := r3.swaps - r2.swaps;
      assert r3.swaps - r.swaps == d + 1;
      assert Pow2(d + 1) == 2 * Pow2(d);
      DoubleStep(i, m, n, Pow2(d));
    } else {
      assert SiftDown(r, n, i).swaps == r.swaps;
    }
  }

  /** 2^d <= n bounds d by ⌊log₂ n⌋. */
  lemma {:induction false} Log2Bound(n: nat, d: nat)
    requires Pow2(d) <= n
    ensures d <= Log2(n)
  {
    if d > 0 {
      Log2Bound(n / 2, d - 1);
    }
  }

  /** ⌊log₂⌋ is monotone. */
  lemma {:induction false} Log2Monotone(m: nat, n: nat)
    requires m <= n
    ensures Log2(m) <= Log2(n)
  {
    if m > 1 {
      Log2Monotone(m / 2, n / 2);
    }
  }

  /** A sift inside an n-element heap makes at most ⌊log₂ n⌋ exchanges. */
  lemma SiftDownDepth(r: Run, n: int, i: int)
    requires 0 <= i < n <= |r.a|
    ensures SiftDown(r, n, i).swaps <= r.swaps + Log2(n)
  {
    SiftDownPow(r, n, i);
    var d := SiftDown(r, n, i).swaps - r.swaps;
    assert Pow2(d) <= (i + 1) * Pow2(d);
    Log2Bound(n, d);
  }

  /** The sum of `k` budgets of `b` each (0 when k <= 0). */
  function Budget(k: int, b: nat): nat
    decreases k
  {
    if k <= 0 then 0 else b + Budget(k - 1, b)
  }

  lemma {:induction false} BudgetIsProduct(k: nat, b: nat)
    ensures Budget(k, b) == k * b
  {
    if k > 0 {
      BudgetIsProduct(k - 1, b);
      assert k * b == (k - 1) * b + b;
    }
  }

  /** The first loop from `i` counts two comparisons per exchange plus two per `Heapify` call. */
  lemma {:induction false} BuildLoopCounts(r: Run, n: int, i: int)
    requires 0 <= n <= |r.a| && -1 <= i
    ensures BuildLoop(r, n, i).swaps >= r.swaps
    ensures BuildLoop(r, n, i).comparisons == r.comparisons + 2 * (BuildLoop(r, n, i).swaps - r.swaps) + 2 * (i + 1)
    decreases i + 1
  {
    if i >= 0 {
      var r1 := SiftDown(r, n, i);
      assert BuildLoop(r, n, i) == BuildLoop(r1, n, i - 1);
      SiftDownCounts(r, n, i);
      BuildLoopCounts(r1, n, i - 1);
    }
  }

  /** The first loop from `i < n` makes at most ⌊log₂ n⌋ exchanges per `Heapify` call. */
  lemma {:induction false} BuildLoopSwaps(r: Run, n: int, i: int, calls: int)
    requires 0 <= n <= |r.a| && -1 <= i < n && calls == i + 1
    ensures BuildLoop(r, n, i).swaps <= r.swaps + Budget(calls, Log2(n))
    decreases i + 1
  {
    if i >= 0 {
      var r1 := SiftDown(r, n, i);
      assert BuildLoop(r, n, i) == BuildLoop(r1, n, i - 1);
      SiftDownDepth(r, n, i);
      BuildLoopSwaps(r1, n, i - 1, calls - 1);
    }
  }

  /** The second loop from `i` counts exactly two comparisons per swap (one `Heapify` call per
      root exchange) and makes at least one swap per iteration. */
  lemma {:induction false} ExtractLoopCounts(r: Run, i: int)
    requires i < |r.a|
    ensures ExtractLoop(r, i).swaps >= r.swaps + (if i < 0 then 0 else i)
    ensures ExtractLoop(r, i).comparisons == r.comparisons + 2 * (ExtractLoop(r, i).swaps - r.swaps)
    decreases i
  {
    if i > 0 {
      var r1 := Run(Swap(r.a, 0, i), r.comparisons, r.swaps + 1);
      var r2 := SiftDown(r1, i, 0);
      assert ExtractLoop(r, i) == ExtractLoop(r2, i - 1);
      SiftDownCounts(r1, i, 0);
      ExtractLoopCounts(r2, i - 1);
    }
  }

  /** The second loop from `i` makes at most 1 + ⌊log₂ |a|⌋ swaps per iteration. */
  lemma {:induction false} ExtractLoopSwaps(r: Run, i: int, n: int)
    requires i < |r.a| == n
    ensures ExtractLoop(r, i).swaps <= r.swaps + Budget(i, 1 + Log2(n))
    decreases i
  {
    if i > 0 {
      var r1 := Run(Swap(r.a, 0, i), r.comparisons, r.swaps + 1);
      var r2 := SiftDown(r1, i, 0);
      assert ExtractLoop(r, i) == ExtractLoop(r2, i - 1);
      SiftDownDepth(r1, i, 0);
      Log2Monotone(i, n);
      ExtractLoopSwaps(r2, i - 1, n);
    }
  }

  // ---------------------------------------------------------------------------------------
  // Lemmas about the sorter
  // ---------------------------------------------------------------------------------------

  /** `HeapSorter.Sort` leaves the list sorted. */
  lemma HeapSortSorted(s: seq<int>)
    ensures Sorted(HeapSortRun(s).a)
  {
    var n := |s|;
    var b := BuildLoop(Run(s, 0, 0), n, n / 2 - 1);
    if n > 0 {
      HeapFromLeaves(s, n);
      BuildLoopHeap(Run(s, 0, 0), n, n / 2 - 1);
      assert ExtractInv(b.a, n - 1);
      ExtractLoopSorts(b, n - 1);
    }
  }

  /** `HeapSorter.Sort` permutes the list. */
  lemma HeapSortPermutes(s: seq<int>)
    ensures multiset(HeapSortRun(s).a) == multiset(s)
  {
    var n := |s|;
    var b := BuildLoop(Run(s, 0, 0), n, n / 2 - 1);
    BuildLoopRearranges(Run(s, 0, 0), n, n / 2 - 1);
    RearrangedIsPermutation(s, b.a, 0, n);
    ExtractLoopPermutes(b, n - 1);
  }

  /** Heap sort of n elements counts exactly 2·swaps + 2·⌊n/2⌋ comparisons — two per `Heapify`
      call, one call per exchange and ⌊n/2⌋ calls to build the heap — and makes at least n - 1
      swaps, one per root exchange. */
  lemma HeapSortCounts(s: seq<int>)
    ensures HeapSortRun(s).comparisons == 2 * HeapSortRun(s).swaps + 2 * (|s| / 2)
    ensures |s| >= 1 ==> HeapSortRun(s).swaps >= |s| - 1
  {
    var n := |s|;
    var b := BuildLoop(Run(s, 0, 0), n, n / 2 - 1);
    BuildLoopCounts(Run(s, 0, 0), n, n / 2 - 1);
    ExtractLoopCounts(b, n - 1);
  }

  /** ⌊n/2⌋·⌊log₂ n⌋ + (n - 1)(1 + ⌊log₂ n⌋): at most ⌊log₂ n⌋ exchanges for each of the ⌊n/2⌋
      sifts that build the heap, and one root exchange plus at most ⌊log₂ n⌋ exchanges for each
      of the n - 1 extractions. */
  function HeapSwapsBound(n: nat): int
  {
    (n / 2) * Log2(n) + (n - 1) * (1 + Log2(n))
  }

  /** The swaps of heap sort on n >= 1 elements stay within `HeapSwapsBound(n)`. */
  lemma HeapSortSwapsBound(s: seq<int>)
    requires |s| >= 1
    ensures HeapSortRun(s).swaps <= HeapSwapsBound(|s|)
  {
    var n := |s|;
    var r := Run(s, 0, 0);
    assert HeapSortRun(s).swaps <= HeapSwapsBound(n) by {
      assert HeapSortRun(s) == ExtractLoop(BuildLoop(r, n, n / 2 - 1), n - 1);
      LoopsSwapsBound(r, n);
    }
  }

  lemma LoopsSwapsBound(r: Run, n: int)
    requires |r.a| == n >= 1
    ensures ExtractLoop(BuildLoop(r, n, n / 2 - 1), n - 1).swaps <= r.swaps + HeapSwapsBound(n)
  {
    SortLoopsSwaps(r, n);
    BudgetsMakeBound(n);
  }

  /** Both loops of `Sort`, from any run over n >= 1 elements. */
  lemma SortLoopsSwaps(r: Run, n: int)
    requires |r.a| == n >= 1
    ensures ExtractLoop(BuildLoop(r, n, n / 2 - 1), n - 1).swaps
      <= r.swaps + Budget(n / 2, Log2(n)) + Budget(n - 1, 1 + Log2(n))
  {
    var b := BuildLoop(r, n, n / 2 - 1);
    BuildLoopSwaps(r, n, n / 2 - 1, n / 2);
    ExtractLoopSwaps(b, n - 1, n);
  }

  lemma BudgetsMakeBound(n: nat)
    requires n >= 1
    ensures Budget(n / 2, Log2(n)) + Budget(n - 1, 1 + Log2(n)) == HeapSwapsBound(n)
  {
    var h, k, L := n / 2, n - 1, Log2(n);
    assert Budget(h, L) == h * L by {
      BudgetIsProduct(h, L);
    }
    assert Budget(k, 1 + L) == k * (1 + L) by {
      BudgetIsProduct(k, 1 + L);
    }
    assert HeapSwapsBound(n) == h * L + k * (1 + L);
  }

  /** Lists of length 0 or 1 are left as they are: one list of length 1 takes no `Heapify`
      call, so both counters stay 0. */
  lemma HeapSortTrivial(s: seq<int>)
    requires |s| <= 1
    ensures HeapSortRun(s) == Run(s, 0, 0)
  {
  }

  /** A reverse-sorted list of four: the heap is already built (4 comparisons, no exchange),
      then three root exchanges and one further exchange while sifting. */
  lemma HeapSortExample()
    ensures HeapSortRun([4, 3, 2, 1]) == Run([1, 2, 3, 4], 12, 4)
  {
    var r0 := Run([4, 3, 2, 1], 0, 0);
    var b := BuildLoop(r0, 4, 1);
    assert b == Run([4, 3, 2, 1], 4, 0);
    var e3 := SiftDown(Run([1, 3, 2, 4], 4, 1), 3, 0);
    assert e3 == Run([3, 1, 2, 4], 8, 2);
    var e2 := SiftDown(Run([2, 1, 3, 4], 8, 3), 2, 0);
    assert e2 == Run([2, 1, 3, 4], 10, 3);
    var e1 := SiftDown(Run([1, 2, 3, 4], 10, 4), 1, 0);
    assert e1 == Run([1, 2, 3, 4], 12, 4);
  }

  // ---------------------------------------------------------------------------------------
  // One call of `Heapify` at a time (used by the method `HeapSorter.Heapify`)
  // ---------------------------------------------------------------------------------------

  /** One iteration of the first loop of `Sort`: `Heapify(arr, n, i)`. */
  lemma BuildLoopStep(r: Run, n: int, i: int)
    requires 0 <= n <= |r.a| && 0 <= i
    ensures BuildLoop(r, n, i) == BuildLoop(SiftDown(r, n, i), n, i - 1)
  {
  }

  lemma BuildLoopDone(r: Run, n: int, i: int)
    requires 0 <= n <= |r.a| && i == -1
    ensures BuildLoop(r, n, i) == r
  {
  }

  /** One iteration of the second loop of `Sort`: exchange the root with `arr[i]`, then
      `Heapify(arr, i, 0)`. */
  lemma ExtractLoopStep(r: Run, i: int)
    requires 0 < i < |r.a|
    ensures ExtractLoop(r, i) == ExtractLoop(SiftDown(Run(Swap(r.a, 0, i), r.comparisons, r.swaps + 1), i, 0), i - 1)
  {
  }

  lemma ExtractLoopDone(r: Run, i: int)
    requires i <= 0 && i < |r.a|
    ensures ExtractLoop(r, i) == r
  {
  }

  /** A larger child is exchanged with node `i`, and the sift goes on from that child. */
  lemma SiftDownExchanges(r: Run, n: int, i: int)
    requires 0 <= i && 0 <= n <= |r.a| && Largest(r.a, n, i) != i
    ensures var m := Largest(r.a, n, i);
      SiftDown(r, n, i) == SiftDown(Run(Swap(r.a, i, m), r.comparisons + 2, r.swaps + 1), n, m)
  {
  }

  /** No child is larger than node `i`: the sift ends after its two comparisons. */
  lemma SiftDownStops(r: Run, n: int, i: int)
    requires 0 <= i && 0 <= n <= |r.a| && Largest(r.a, n, i) == i
    ensures SiftDown(r, n, i) == Run(r.a, r.comparisons + 2, r.swaps)
  {
  }

  // ---------------------------------------------------------------------------------------
  // The sorter object
  // ---------------------------------------------------------------------------------------

  class HeapSorter {
    var comparisons: nat
    var swaps: nat

    constructor ()
      ensures comparisons == 0 && swaps == 0
    {
      comparisons, swaps := 0, 0;
    }

    /** The list `arr` and this sorter's counters, as one `Run`. */
    function State(arr: array<int>): (r: Run)
      reads this, arr
      ensures |r.a| == arr.Length
    {
      Run(arr[..], comparisons, swaps)
    }

    /** `Sorter.ResetStats` (Sorting.cs:12-17). */
    method ResetStats()
      modifies this
      ensures comparisons == 0 && swaps == 0
    {
      comparisons, swaps := 0, 0;
    }

    /** `HeapSorter.Sort` (Sorting.cs:105-122). */
    method Sort(arr: array<int>)
      modifies this, arr
      ensures State(arr) == HeapSortRun(old(arr[..]))
      ensures Sorted(arr[..]) && multiset(arr[..]) == multiset(old(arr[..]))
      ensures comparisons == 2 * swaps + 2 * (arr.Length / 2)
    {
      ghost var s := arr[..];
      ResetStats();
      BuildHeap(arr);
      ExtractRoots(arr);
      HeapSortSorted(s);
      HeapSortPermutes(s);
      HeapSortCounts(s);
    }

    /** The first loop of `Sort` (Sorting.cs:111-112): `Heapify` every node that has a child,
        from the last one back to the root. */
    method BuildHeap(arr: array<int>)
      modifies this, arr
      ensures State(arr) == BuildLoop(old(State(arr)), arr.Length, arr.Length / 2 - 1)
    {
      ghost var goal := BuildLoop(State(arr), arr.Length, arr.Length / 2 - 1);
      var n := arr.Length;
      var i := n / 2 - 1;
      while i >= 0
        invariant -1 <= i <= n / 2 - 1
        invariant BuildLoop(State(arr), n, i) == goal
        decreases i
      {
        BuildLoopStep(State(arr), n, i);
        Heapify(arr, n, i);
        i := i - 1;
      }
      BuildLoopDone(State(arr), n, i);
    }

    /** The second loop of `Sort` (Sorting.cs:114-119): exchange the root with the last
        position of the heap, count the exchange, and sift the new root down the shorter heap. */
    method ExtractRoots(arr: array<int>)
      modifies this, arr
      ensures State(arr) == ExtractLoop(old(State(arr)), arr.Length - 1)
    {
      ghost var goal := ExtractLoop(State(arr), arr.Length - 1);
      var i := arr.Length - 1;
      while i > 0
        invariant -1 <= i < arr.Length
        invariant ExtractLoop(State(arr), i) == goal
        decreases i
      {
        ghost var r0 := State(arr);
        ExtractLoopStep(r0, i);
        SwapCounted(arr, 0, i);
        ghost var r1 := Run(Swap(r0.a, 0, i), r0.comparisons, r0.swaps + 1);
        assert State(arr) == r1;
        Heapify(arr, i, 0);
        i := i - 1;
      }
      ExtractLoopDone(State(arr), i);
    }

    /** An exchange `(arr[i], arr[j]) = (arr[j], arr[i])` followed by `Swaps++`
        (Sorting.cs:116-117 and 139-140). */
    method SwapCounted(arr: array<int>, i: int, j: int)
      requires 0 <= i < arr.Length && 0 <= j < arr.Length
      modifies this, arr
      ensures State(arr) == Run(Swap(old(arr[..]), i, j), old(comparisons), old(swaps) + 1)
    {
      Exchange(arr, i, j);
      swaps := swaps + 1;
    }

    /** `HeapSorter.Heapify` (Sorting.cs:124-144). */
    method Heapify(arr: array<int>, n: int, i: int)
      requires 0 <= i && 0 <= n <= arr.Length
      modifies this, arr
      ensures State(arr) == SiftDown(old(State(arr)), n, i)
      decreases n - i
    {
      ghost var r0 := State(arr);
      var largest := i;
      var l := 2 * i + 1;
      var r := 2 * i + 2;
      comparisons := comparisons + 1;
      if l < n && arr[l] > arr[largest] {
        largest := l;
      }
      comparisons := comparisons + 1;
      if r < n && arr[r] > arr[largest] {
        largest := r;
      }
      assert largest == Largest(r0.a, n, i);
      if largest != i {
        SwapCounted(arr, i, largest);
        SiftDownExchanges(r0, n, i);
        Heapify(arr, n, largest);
      } else {
        assert State(arr) == Run(r0.a, r0.comparisons + 2, r0.swaps);
        SiftDownStops(r0, n, i);
      }
    }
  }
}
