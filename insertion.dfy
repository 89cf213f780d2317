/** `InsertionSorter` (Sorting.cs:22-48): shift-based insertion sort with its counters. */
module Insertion {
  import opened Sorting

  // ---------------------------------------------------------------------------------------
  // The sorter as a function of its state
  // ---------------------------------------------------------------------------------------

  /** The inner `while (j >= 0)` loop together with the final `arr[j + 1] = key`
      (Sorting.cs:33-43), from the state at the top of the loop. */
  function ShiftInsert(r: Run, key: int, j: int): (r': Run)
    requires -1 <= j < |r.a| - 1
    ensures |r'.a| == |r.a|
    decreases j + 1
  {
    if j < 0 then Run(r.a[0 := key], r.comparisons, r.swaps)
    else if r.a[j] <= key then Run(r.a[j + 1 := key], r.comparisons + 1, r.swaps)
    else ShiftInsert(Run(r.a[j + 1 := r.a[j]], r.comparisons + 1, r.swaps + 1), key, j - 1)
  }

  /** The outer `for (int i = 1; i < arr.Count; i++)` loop (Sorting.cs:28-44), from iteration `i` on. */
  function Outer(r: Run, i: nat): (r': Run)
    requires 1 <= i
    ensures |r'.a| == |r.a|
    decreases |r.a| - i
  {
    if i >= |r.a| then r else Outer(ShiftInsert(r, r.a[i], i - 1), i + 1)
  }

  /** One pass of the inner loop that moves `arr[j]` one step to the right. */
  lemma ShiftInsertShifts(r: Run, key: int, j: int)
    requires 0 <= j < |r.a| - 1 && r.a[j] > key
    ensures ShiftInsert(r, key, j) == ShiftInsert(Run(r.a[j + 1 := r.a[j]], r.comparisons + 1, r.swaps + 1), key, j - 1)
  {
  }

  /** The inner loop stops on `arr[j] <= key` and stores `key` at `j + 1`. */
  lemma ShiftInsertStops(r: Run, key: int, j: int)
    requires 0 <= j < |r.a| - 1 && r.a[j] <= key
    ensures ShiftInsert(r, key, j) == Run(r.a[j + 1 := key], r.comparisons + 1, r.swaps)
  {
  }

  /** The inner loop ran past the front and stores `key` at 0. */
  lemma ShiftInsertEnds(r: Run, key: int)
    requires |r.a| >= 1
    ensures ShiftInsert(r, key, -1) == Run(r.a[0 := key], r.comparisons, r.swaps)
  {
  }

  /** One iteration of the outer loop. */
  lemma OuterStep(r: Run, i: nat)
    requires 1 <= i < |r.a|
    ensures Outer(r, i) == Outer(ShiftInsert(r, r.a[i], i - 1), i + 1)
  {
  }

  /** The outer loop is done once `i` reaches `Count`. */
  lemma OuterEnds(r: Run, i: nat)
    requires 1 <= i && |r.a| <= i
    ensures Outer(r, i) == r
  {
  }

  /** `InsertionSorter.Sort` (Sorting.cs:24-47): reset the counters, then run the outer loop. */
  function InsertionSortRun(s: seq<int>): (r: Run)
    ensures |r.a| == |s|
  {
    Outer(Run(s, 0, 0), 1)
  }

  // ---------------------------------------------------------------------------------------
  // Reference definitions: inserting into a slice, inversions
  // ---------------------------------------------------------------------------------------

  /** `key` placed right after the last element of `t` that is not greater than it, every
      element behind that place moved one step to the right. */
  function Insert(t: seq<int>, key: int): seq<int>
  {
    if t == [] then [key]
    else if t[|t| - 1] <= key then t + [key]
    else Insert(t[..|t| - 1], key) + [t[|t| - 1]]
  }

  /** Number of elements the scan of `Insert(t, key)` moves to the right. */
  function Shifts(t: seq<int>, key: int): nat
  {
    if t == [] then 0
    else if t[|t| - 1] <= key then 0
    else 1 + Shifts(t[..|t| - 1], key)
  }

  /** Number of elements of `t` the scan of `Insert(t, key)` compares with `key`. */
  function Probes(t: seq<int>, key: int): nat
  {
    if t == [] then 0
    else if t[|t| - 1] <= key then 1
    else 1 + Probes(t[..|t| - 1], key)
  }

  /** Number of elements of `t` greater than `key`. */
  function CountGreater(t: seq<int>, key: int): nat
  {
    if t == [] then 0
    else CountGreater(t[..|t| - 1], key) + (if t[|t| - 1] > key then 1 else 0)
  }

  /** Number of inversions of `s`: pairs of positions `m < k` with `s[m] > s[k]`, counted for
      each `k` from the left. */
  function Inversions(s: seq<int>): nat
  {
    if s == [] then 0
    else Inversions(s[..|s| - 1]) + CountGreater(s[..|s| - 1], s[|s| - 1])
  }

  /** Number of positions `k >= 1` of `s` that have an earlier element not greater than `s[k]`. */
  function Stops(s: seq<int>): nat
  {
    if |s| <= 1 then 0
    else Stops(s[..|s| - 1]) + (if CountGreater(s[..|s| - 1], s[|s| - 1]) < |s| - 1 then 1 else 0)
  }

  // ---------------------------------------------------------------------------------------
  // Lemmas
  // ---------------------------------------------------------------------------------------

  /** The shift loop computes `Insert` on the unscanned part `arr[0..j]`, makes one comparison per
      probe and one swap per shift. */
  lemma {:induction false} ShiftInsertIsInsert(r: Run, key: int, j: int)
    requires -1 <= j < |r.a| - 1
    ensures ShiftInsert(r, key, j) == Run(Insert(r.a[..j + 1], key) + r.a[j + 2..],
                                          r.comparisons + Probes(r.a[..j + 1], key),
                                          r.swaps + Shifts(r.a[..j + 1], key))
    decreases j + 1
  {
    var t := r.a[..j + 1];
    if j < 0 {
      assert r.a[0 := key] == [key] + r.a[1..];
    } else if r.a[j] <= key {
      assert r.a[j + 1 := key] == t + [key] + r.a[j + 2..];
    } else {
      var r2 := Run(r.a[j + 1 := r.a[j]], r.comparisons + 1, r.swaps + 1);
      ShiftInsertIsInsert(r2, key, j - 1);
      var p := t[..|t| - 1];
      assert r2.a[..j] == p;
      assert Insert(t, key) == Insert(p, key) + [r.a[j]];
      assert Probes(t, key) == 1 + Probes(p, key) && Shifts(t, key) == 1 + Shifts(p, key);
      assert r2.a[j + 1..] == [r.a[j]] + r.a[j + 2..];
      assert Insert(p, key) + r2.a[j + 1..] == Insert(t, key) + r.a[j + 2..];
    }
  }

  lemma {:induction false} InsertLength(t: seq<int>, key: int)
    ensures |Insert(t, key)| == |t| + 1
  {
    if t != [] && t[|t| - 1] > key {
      InsertLength(t[..|t| - 1], key);
    }
  }

  /** `Insert` adds exactly `key` to the elements of `t`. */
  lemma {:induction false} InsertMultiset(t: seq<int>, key: int)
    ensures multiset(Insert(t, key)) == multiset(t) + multiset{key}
  {
    if t != [] && t[|t| - 1] > key {
      var p := t[..|t| - 1];
      InsertMultiset(p, key);
      assert t == p + [t[|t| - 1]];
    }
  }

  /** Inserting into a sorted slice keeps it sorted. */
  lemma {:induction false} InsertSorted(t: seq<int>, key: int)
    requires Sorted(t)
    ensures Sorted(Insert(t, key))
  {
    if t != [] && t[|t| - 1] > key {
      var p, last := t[..|t| - 1], t[|t| - 1];
      InsertSorted(p, key);
      InsertMultiset(p, key);
      InsertLength(p, key);
      var u := Insert(p, key);
      forall k | 0 <= k < |u|
        ensures u[k] <= last
      {
        assert u[k] in multiset(p) + multiset{key};
        if u[k] != key {
          assert u[k] in p;
        }
      }
    }
  }

  lemma {:induction false} ShiftsAtMostLength(t: seq<int>, key: int)
    ensures Shifts(t, key) <= |t|
    ensures Probes(t, key) == Shifts(t, key) + (if Shifts(t, key) < |t| then 1 else 0)
  {
    if t != [] && t[|t| - 1] > key {
      ShiftsAtMostLength(t[..|t| - 1], key);
    }
  }

  lemma {:induction false} CountGreaterNone(t: seq<int>, key: int)
    requires forall k :: 0 <= k < |t| ==> t[k] <= key
    ensures CountGreater(t, key) == 0
  {
    if t != [] {
      CountGreaterNone(t[..|t| - 1], key);
    }
  }

  /** On a sorted slice the scan moves exactly the elements greater than `key`. */
  lemma {:induction false} ShiftsCountGreater(t: seq<int>, key: int)
    requires Sorted(t)
    ensures Shifts(t, key) == CountGreater(t, key)
  {
    if t != [] {
      if t[|t| - 1] <= key {
        CountGreaterNone(t, key);
      } else {
        ShiftsCountGreater(t[..|t| - 1], key);
      }
    }
  }

  lemma {:induction false} CountGreaterAppend(t: seq<int>, u: seq<int>, key: int)
    ensures CountGreater(t + u, key) == CountGreater(t, key) + CountGreater(u, key)
    decreases |u|
  {
    if u != [] {
      assert (t + u)[..|t + u| - 1] == t + u[..|u| - 1];
      CountGreaterAppend(t, u[..|u| - 1], key);
    } else {
      assert t + u == t;
    }
  }

  /** Taking one element out of `u` lowers the count by one exactly when that element exceeds `key`. */
  lemma CountGreaterRemove(u: seq<int>, k: int, key: int)
    requires 0 <= k < |u|
    ensures CountGreater(u, key) == CountGreater(u[..k] + u[k + 1..], key) + (if u[k] > key then 1 else 0)
  {
    assert u == u[..k] + ([u[k]] + u[k + 1..]);
    CountGreaterAppend(u[..k], [u[k]] + u[k + 1..], key);
    CountGreaterAppend([u[k]], u[k + 1..], key);
    CountGreaterAppend(u[..k], u[k + 1..], key);
    assert [u[k]][..0] == [];
  }

  /** How many elements exceed `key` depends only on the multiset of elements. */
  lemma {:induction false} CountGreaterPermutation(t: seq<int>, u: seq<int>, key: int)
    requires multiset(t) == multiset(u)
    ensures CountGreater(t, key) == CountGreater(u, key)
    decreases |t|
  {
    if t == [] {
      assert |u| == |multiset(u)| == 0;
    } else {
      var p, x := t[..|t| - 1], t[|t| - 1];
      assert t == p + [x];
      assert multiset(t) == multiset(p) + multiset{x};
      assert x in multiset(u);
      var k :| 0 <= k < |u| && u[k] == x;
      var u' := u[..k] + u[k + 1..];
      assert multiset(u') == multiset(u) - multiset{x} by {
        assert u == u[..k] + [x] + u[k + 1..];
      }
      CountGreaterPermutation(p, u', key);
      CountGreaterRemove(u, k, key);
    }
  }

  /** The outer loop, started with a sorted prefix `arr[0..i)`, leaves a sorted permutation. */
  lemma {:induction false} OuterSorts(r: Run, i: nat)
    requires 1 <= i <= |r.a| && Sorted(r.a[..i])
    ensures Sorted(Outer(r, i).a)
    ensures multiset(Outer(r, i).a) == multiset(r.a)
    decreases |r.a| - i
  {
    if i < |r.a| {
      var r' := ShiftInsert(r, r.a[i], i - 1);
      ShiftInsertIsInsert(r, r.a[i], i - 1);
      InsertSorted(r.a[..i], r.a[i]);
      InsertLength(r.a[..i], r.a[i]);
      InsertMultiset(r.a[..i], r.a[i]);
      assert r'.a[..i + 1] == Insert(r.a[..i], r.a[i]);
      assert r.a == r.a[..i] + [r.a[i]] + r.a[i + 1..];
      OuterSorts(r', i + 1);
    } else {
      assert r.a[..i] == r.a;
    }
  }

  /** The outer loop, started on a sorted permutation `arr[0..i)` of `s[0..i)` with the rest of
      `s` untouched, adds one swap per inversion of `s` not inside `s[0..i)`, and one comparison
      more per key that stops on an element not greater than it. */
  lemma {:induction false} OuterCounts(r: Run, i: nat, s: seq<int>)
    requires 1 <= i <= |s| && |r.a| == |s|
    requires Sorted(r.a[..i]) && multiset(r.a[..i]) == multiset(s[..i]) && r.a[i..] == s[i..]
    ensures Outer(r, i).swaps + Inversions(s[..i]) == r.swaps + Inversions(s)
    ensures Outer(r, i).comparisons + Inversions(s[..i]) + Stops(s[..i])
         == r.comparisons + Inversions(s) + Stops(s)
    decreases |r.a| - i
  {
    if i < |s| {
      var key := r.a[i];
      assert key == s[i] by { assert r.a[i..][0] == s[i..][0]; }
      var r' := ShiftInsert(r, key, i - 1);
      ShiftInsertIsInsert(r, key, i - 1);
      InsertSorted(r.a[..i], key);
      InsertLength(r.a[..i], key);
      InsertMultiset(r.a[..i], key);
      ShiftsCountGreater(r.a[..i], key);
      ShiftsAtMostLength(r.a[..i], key);
      CountGreaterPermutation(r.a[..i], s[..i], key);
      assert r'.a[..i + 1] == Insert(r.a[..i], key);
      assert r'.a[i + 1..] == r.a[i + 1..];
      assert s[..i + 1] == s[..i] + [key];
      assert s[..i + 1][..i] == s[..i];
      assert r.a[i + 1..] == s[i + 1..] by { assert r.a[i + 1..] == r.a[i..][1..]; }
      OuterCounts(r', i + 1, s);
    } else {
      assert s[..i] == s;
    }
  }

  /** `InsertionSorter.Sort` leaves the list non-decreasing. */
  lemma InsertionSortSorted(s: seq<int>)
    ensures Sorted(InsertionSortRun(s).a)
  {
    if |s| >= 1 {
      OuterSorts(Run(s, 0, 0), 1);
    }
  }

  /** `InsertionSorter.Sort` only rearranges the list. */
  lemma InsertionSortPermutation(s: seq<int>)
    ensures multiset(InsertionSortRun(s).a) == multiset(s)
  {
    if |s| >= 1 {
      OuterSorts(Run(s, 0, 0), 1);
    }
  }

  /** `Swaps` counts the inversions of the input; `Comparisons` is that number plus one for every
      key whose scan stops on a predecessor not greater than it. */
  lemma InsertionSortCounts(s: seq<int>)
    ensures InsertionSortRun(s).swaps == Inversions(s)
    ensures InsertionSortRun(s).comparisons == Inversions(s) + Stops(s)
  {
    if |s| >= 1 {
      assert s[..1] == [s[0]];
      assert [s[0]][..0] == [];
      OuterCounts(Run(s, 0, 0), 1, s);
    }
  }

  lemma {:induction false} InversionsOfSorted(s: seq<int>)
    requires Sorted(s)
    ensures Inversions(s) == 0
    ensures |s| >= 1 ==> Stops(s) == |s| - 1
  {
    if s != [] {
      var p := s[..|s| - 1];
      InversionsOfSorted(p);
      CountGreaterNone(p, s[|s| - 1]);
    }
  }

  /** On non-decreasing input of length n >= 1 the sorter keeps the list, with n - 1 comparisons and
      no swaps. */
  lemma InsertionSortOnSorted(s: seq<int>)
    requires Sorted(s) && |s| >= 1
    ensures InsertionSortRun(s) == Run(s, |s| - 1, 0)
  {
    InsertionSortSorted(s);
    InsertionSortPermutation(s);
    InsertionSortCounts(s);
    InversionsOfSorted(s);
    SortedPermutationUnique(InsertionSortRun(s).a, s);
  }

  /** Every key after the first either moves past a predecessor (an inversion) or stops on one. */
  lemma {:induction false} InversionsStopsAtLeast(s: seq<int>)
    ensures |s| >= 1 ==> Inversions(s) + Stops(s) >= |s| - 1
  {
    if |s| >= 2 {
      InversionsStopsAtLeast(s[..|s| - 1]);
    }
  }

  /** Every input of length n >= 1 costs at least n - 1 comparisons, so sorted input, which costs
      exactly n - 1 (`InsertionSortOnSorted`), is the best case. */
  lemma InsertionSortComparisonsAtLeast(s: seq<int>)
    ensures |s| >= 1 ==> InsertionSortRun(s).comparisons >= |s| - 1
  {
    InsertionSortCounts(s);
    InversionsStopsAtLeast(s);
  }

  /** Lists of length 0 or 1 are left as they are, with both counters 0. */
  lemma InsertionSortTrivial(s: seq<int>)
    requires |s| <= 1
    ensures InsertionSortRun(s) == Run(s, 0, 0)
  {
  }

  lemma ExampleCounts()
    ensures Inversions([5, 3, 4, 1, 2]) == 8 && Stops([5, 3, 4, 1, 2]) == 2
  {
    assert [5, 3, 4, 1, 2][..4] == [5, 3, 4, 1];
    assert [5, 3, 4, 1][..3] == [5, 3, 4];
    assert [5, 3, 4][..2] == [5, 3];
    assert [5, 3][..1] == [5];
    assert [5][..0] == [];
  }

  /** The worked example `[5, 3, 4, 1, 2]`: ten comparisons and eight shifts. */
  lemma InsertionSortExample()
    ensures InsertionSortRun([5, 3, 4, 1, 2]) == Run([1, 2, 3, 4, 5], 10, 8)
  {
    var s, t := [5, 3, 4, 1, 2], [1, 2, 3, 4, 5];
    var r := InsertionSortRun(s);
    InsertionSortCounts(s);
    ExampleCounts();
    assert r.a == t by {
      InsertionSortSorted(s);
      InsertionSortPermutation(s);
      ExampleMultiset();
      ExampleSorted();
      SortedPermutationUnique(r.a, t);
    }
  }

  lemma ExampleMultiset()
    ensures multiset([5, 3, 4, 1, 2]) == multiset([1, 2, 3, 4, 5])
  {
  }

  lemma ExampleSorted()
    ensures Sorted([1, 2, 3, 4, 5])
  {
  }

  // ---------------------------------------------------------------------------------------
  // The sorter object
  // ---------------------------------------------------------------------------------------

  class InsertionSorter {
    var comparisons: nat
    var swaps: nat

    constructor ()
      ensures comparisons == 0 && swaps == 0
    {
      comparisons, swaps := 0, 0;
    }

    /** The list `arr` and this sorter's counters, as one `Run`. */
    function State(arr: array<int>): (r: Run)
      reads this, arr
      ensures |r.a| == arr.Length
    {
      Run(arr[..], comparisons, swaps)
    }

    /** `Sorter.ResetStats` (Sorting.cs:12-17). */
    method ResetStats()
      modifies this
      ensures comparisons == 0 && swaps == 0
    {
      comparisons, swaps := 0, 0;
    }

    /** `InsertionSorter.Sort` (Sorting.cs:24-47). */
    method Sort(arr: array<int>)
      modifies this, arr
      ensures State(arr) == InsertionSortRun(old(arr[..]))
      ensures Sorted(arr[..]) && multiset(arr[..]) == multiset(old(arr[..]))
      ensures swaps == Inversions(old(arr[..]))
    {
      ghost var s := arr[..];
      ResetStats();
      ghost var goal := InsertionSortRun(s);
      var i := 1;
      while i < arr.Length
        invariant 1 <= i
        invariant Outer(State(arr), i) == goal
        decreases arr.Length - i
      {
        var key := arr[i];
        var j := i - 1;
        ghost var target := ShiftInsert(State(arr), key, j);
        OuterStep(State(arr), i);
        ghost var cur := State(arr);
        while j >= 0
          invariant -1 <= j < i
          invariant State(arr) == cur && ShiftInsert(cur, key, j) == target
          decreases j
        {
          comparisons := comparisons + 1;
          if arr[j] <= key {
            ShiftInsertStops(cur, key, j);
            break;
          }
          ShiftInsertShifts(cur, key, j);
          arr[j + 1] := arr[j];
          swaps := swaps + 1;
          cur := Run(cur.a[j + 1 := cur.a[j]], cur.comparisons + 1, cur.swaps + 1);
          j := j - 1;
        }
        if j < 0 {
          ShiftInsertEnds(cur, key);
        }
        arr[j + 1] := key;
        assert State(arr) == target;
        i := i + 1;
      }
      OuterEnds(State(arr), i);
      InsertionSortSorted(s);
      InsertionSortPermutation(s);
      InsertionSortCounts(s);
    }
  }
}
