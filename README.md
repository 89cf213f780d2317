# Instrumented sorters

A model of the four instrumented sorters in `Sorting.cs`: insertion sort, top-down merge sort,
heap sort and quick sort with the first element as pivot. Each sorter is a class. It holds the
two counters that the benchmark reads (`Comparisons`, `Swaps`) and sorts an `array<int>` in
place. Each method is proved equal to a specification function over a `Run`, which is the list
together with both counters. That function follows the code's branches, loops and counter
increments step by step. The properties are then proved as lemmas about those functions:
- the result is sorted;
- the result is a permutation of the input;
- the counters take exact values, or stay within bounds;
- sorted input costs insertion sort n - 1 comparisons, the fewest any input of n >= 1 elements
  can cost it; strictly increasing input costs quick sort n(n - 1)/2 comparisons, the most any
  input can cost it.

Modules:
- `Sorting` (`sorting.dfy`): the `Run` state, order, exchanges and rearrangements of a slice.
- `Insertion` (`insertion.dfy`): `InsertionSorter`.
- `Merge` (`merge.dfy`): `MergeSorter`.
- `Heap` (`heap.dfy`): `HeapSorter`.
- `Quick` (`quick.dfy`): `QuickSorter`, `Median`, and the corrected recursion described under
  Findings.

Points of the code that the counters depend on:
- **Insertion sort example.** On `[5,3,4,1,2]` the code makes 10 comparisons and 8 shifts
  (`Insertion.InsertionSortExample`).
- **Probes that end a scan.** Insertion sort counts the probe that ends its scan: `Comparisons++`
  comes before the `arr[j] <= key` test. Quick sort's two scan loops increment `Comparisons` only
  inside the loop body, so the probe that ends each scan is not counted.
- **Merge ties.** On equal heads the test `L[i] < R[j]` fails, so `Merge` takes the head of `R`.
- **Quick sort recursion.** `QuickSort` recurses into `[low, p - 1]` and `[p + 1, high]` (see
  Findings).

## Model

All source paths are `1sorting/DotnetComparison/Sorting.cs`.

| member | source | states |
|---|---|---|
| Sorting.Swap | 1sorting/DotnetComparison/Sorting.cs:193 | the tuple exchange puts each of the two elements in the other's place and keeps the length |
| Sorting.SwapPermutes | 1sorting/DotnetComparison/Sorting.cs:193 | an exchange changes no other position and keeps the multiset of elements |
| Sorting.SwapRearranges | 1sorting/DotnetComparison/Sorting.cs:140 | exchanging two positions of a slice rearranges that slice and leaves the rest alone |
| Sorting.Exchange | 1sorting/DotnetComparison/Sorting.cs:193 | the array exchange leaves the array equal to `Swap` of its old contents |
| Insertion.ShiftInsert | 1sorting/DotnetComparison/Sorting.cs:33-43 | the inner `while (j >= 0)` loop and the final `arr[j + 1] = key`, from the top of the loop at `j`: the list keeps its length; the step lemmas below fix each branch |
| Insertion.Outer | 1sorting/DotnetComparison/Sorting.cs:28-44 | the outer `for` loop from iteration `i`: the list keeps its length; `OuterStep` and `OuterEnds` fix its iterations |
| Insertion.InsertionSortRun | 1sorting/DotnetComparison/Sorting.cs:24-47 | `Sort` as a function of the input: the list keeps its length; the lemmas below state what it computes |
| Insertion.ShiftInsertShifts | 1sorting/DotnetComparison/Sorting.cs:33-42 | a probe of an element greater than `key` counts one comparison, moves that element one step right, counts one swap and continues at `j - 1` |
| Insertion.ShiftInsertStops | 1sorting/DotnetComparison/Sorting.cs:35-37 | a probe of an element not greater than `key` counts one comparison and places `key` right after it |
| Insertion.ShiftInsertEnds | 1sorting/DotnetComparison/Sorting.cs:33 | a scan that runs past the front places `key` at position 0 and counts nothing more |
| Insertion.OuterStep | 1sorting/DotnetComparison/Sorting.cs:28-31 | iteration `i` of the outer loop inserts `arr[i]` by a scan from `i - 1`, then continues at `i + 1` |
| Insertion.OuterEnds | 1sorting/DotnetComparison/Sorting.cs:28 | once `i` reaches the count, the outer loop changes nothing |
| Insertion.ShiftInsertIsInsert | 1sorting/DotnetComparison/Sorting.cs:33-43 | the shift loop puts `Insert(arr[0..j], key)` in place of `arr[0..j+1]`, and adds one comparison per probe and one swap per shift |
| Insertion.InsertLength | 1sorting/DotnetComparison/Sorting.cs:43 | inserting adds exactly one element |
| Insertion.InsertMultiset | 1sorting/DotnetComparison/Sorting.cs:43 | inserting adds `key` and keeps every other element |
| Insertion.InsertSorted | 1sorting/DotnetComparison/Sorting.cs:33-43 | inserting into a sorted prefix gives a sorted prefix |
| Insertion.ShiftsAtMostLength | 1sorting/DotnetComparison/Sorting.cs:33-42 | at most `\|t\|` shifts; one probe more than the shifts unless the scan runs past the front |
| Insertion.CountGreaterNone | 1sorting/DotnetComparison/Sorting.cs:36-37 | a prefix whose elements are all at most `key` has no element greater than `key` |
| Insertion.ShiftsCountGreater | 1sorting/DotnetComparison/Sorting.cs:39-40 | into a sorted prefix, the shifts equal the number of elements greater than `key` |
| Insertion.CountGreaterAppend | 1sorting/DotnetComparison/Sorting.cs:39-40 | the count of elements greater than `key` adds up over a concatenation |
| Insertion.CountGreaterRemove | 1sorting/DotnetComparison/Sorting.cs:39-40 | removing one element lowers that count by one exactly when the element exceeds `key` |
| Insertion.CountGreaterPermutation | 1sorting/DotnetComparison/Sorting.cs:28-44 | the count of elements greater than `key` depends only on the multiset, so it is unchanged when the prefix is sorted |
| Insertion.OuterSorts | 1sorting/DotnetComparison/Sorting.cs:28-44 | from a sorted prefix `arr[0..i)`, the rest of the outer loop sorts the list and permutes it |
| Insertion.OuterCounts | 1sorting/DotnetComparison/Sorting.cs:28-44 | the outer loop adds the inversions of the input to `Swaps`, and the inversions plus the stops to `Comparisons` |
| Insertion.InsertionSortSorted | 1sorting/DotnetComparison/Sorting.cs:24-47 | the result is sorted |
| Insertion.InsertionSortPermutation | 1sorting/DotnetComparison/Sorting.cs:24-47 | the result is a permutation of the input |
| Insertion.InsertionSortCounts | 1sorting/DotnetComparison/Sorting.cs:24-47 | `Swaps` is the number of inversions; `Comparisons` is the inversions plus the positions whose scan stops at an element |
| Insertion.InversionsOfSorted | 1sorting/DotnetComparison/Sorting.cs:33-37 | a sorted list has no inversions, and every position after the first stops its scan |
| Sorting.SortedPermutationUnique | 1sorting/DotnetComparison/Sorting.cs:24-47 | two sorted lists with the same elements are equal, so the result is determined by the input's multiset |
| Insertion.InsertionSortOnSorted | 1sorting/DotnetComparison/Sorting.cs:24-47 | sorted input is left in place, with `n - 1` comparisons and no swaps |
| Insertion.InversionsStopsAtLeast | 1sorting/DotnetComparison/Sorting.cs:33-42 | every position after the first either moves past a larger predecessor or stops on one, so inversions plus stops are at least n - 1 |
| Insertion.InsertionSortComparisonsAtLeast | 1sorting/DotnetComparison/Sorting.cs:24-47 | every input of n >= 1 elements costs at least n - 1 comparisons, so sorted input is the best case |
| Insertion.InsertionSortTrivial | 1sorting/DotnetComparison/Sorting.cs:28 | empty and one-element lists are left alone with both counters 0 |
| Insertion.ExampleCounts | 1sorting/DotnetComparison/Sorting.cs:24-47 | `[5,3,4,1,2]` has 8 inversions and 2 stops |
| Insertion.InsertionSortExample | 1sorting/DotnetComparison/Sorting.cs:24-47 | `[5,3,4,1,2]` sorts to `[1,2,3,4,5]` with 10 comparisons and 8 swaps |
| Insertion.InsertionSorter.constructor | 1sorting/DotnetComparison/Sorting.cs:8-9 | a new sorter starts with both counters 0 |
| Insertion.InsertionSorter.ResetStats | 1sorting/DotnetComparison/Sorting.cs:12-17 | both counters become 0 |
| Insertion.InsertionSorter.State | 1sorting/DotnetComparison/Sorting.cs:8-9 | the array and this sorter's two counters as one `Run`, whose list has the array's length |
| Insertion.InsertionSorter.Sort | 1sorting/DotnetComparison/Sorting.cs:24-47 | the final list and counters are `InsertionSortRun` of the input; the array is sorted and a permutation of the input; `Swaps` is the input's inversion count |
| Merge.MergeLoop | 1sorting/DotnetComparison/Sorting.cs:78-99 | the three loops of `Merge` from cursors `i`, `j`, `k`: the list keeps its length; the step lemmas below fix each branch |
| Merge.MergeRanges | 1sorting/DotnetComparison/Sorting.cs:71-100 | `Merge(arr, left, mid, right)`: the list keeps its length; `MergeRangesIsMergeSeq` says what it writes |
| Merge.MergeSortRange | 1sorting/DotnetComparison/Sorting.cs:61-69 | `MergeSort(arr, left, right)`: the list keeps its length; `MergeSortRangeSplits` fixes its recursion |
| Merge.MergeSortRun | 1sorting/DotnetComparison/Sorting.cs:52-59 | `Sort` as a function of the input: the list keeps its length; the lemmas below state what it computes |
| Merge.MergeSeq | 1sorting/DotnetComparison/Sorting.cs:78-99 | the reference merge of two sequences, taking the head of `R` on a tie: the merge has as many elements as both inputs together |
| Merge.MergeLoopTakesLeft | 1sorting/DotnetComparison/Sorting.cs:80-93 | taking the head of `L` writes it at `k`, counts one swap, and counts one comparison only while `R` is not used up |
| Merge.MergeLoopTakesRight | 1sorting/DotnetComparison/Sorting.cs:80-99 | taking the head of `R` writes it at `k`, counts one swap, and counts one comparison only while `L` is not used up |
| Merge.MergeLoopEnds | 1sorting/DotnetComparison/Sorting.cs:78-99 | once both copies are used up, the loops change nothing |
| Merge.MergeSortRangeSplits | 1sorting/DotnetComparison/Sorting.cs:63-68 | a range of two or more is sorted as its two halves, then merged |
| Merge.Halves | 1sorting/DotnetComparison/Sorting.cs:65 | the halves split at `mid` have sizes ⌈n/2⌉ and ⌊n/2⌋ |
| Merge.MergeSeqMultiset | 1sorting/DotnetComparison/Sorting.cs:71-100 | a merge keeps every element of both copies |
| Merge.MergeSeqLowerBound | 1sorting/DotnetComparison/Sorting.cs:71-100 | a bound below all elements of both copies is below all elements of the merge |
| Merge.MergeSeqSorted | 1sorting/DotnetComparison/Sorting.cs:78-99 | merging two sorted copies gives a sorted sequence |
| Merge.MergeComparisonsBounds | 1sorting/DotnetComparison/Sorting.cs:78-87 | a merge makes at most `\|L\| + \|R\| - 1` comparisons, and at least as many as the shorter copy has elements |
| Merge.MergeLoopCounts | 1sorting/DotnetComparison/Sorting.cs:78-99 | the loops count one comparison per head-to-head step and one swap per element written |
| Merge.MergeLoopWrites | 1sorting/DotnetComparison/Sorting.cs:78-99 | the loops write the merge of the unused parts of `L` and `R` from `k` on, and leave the rest of the list alone |
| Merge.LeftWrites | 1sorting/DotnetComparison/Sorting.cs:81-82 | the same, for a step that takes the head of `L` |
| Merge.RightWrites | 1sorting/DotnetComparison/Sorting.cs:83-84 | the same, for a step that takes the head of `R` |
| Merge.WritesSplitBound | 1sorting/DotnetComparison/Sorting.cs:61-69 | the n·⌈log₂ n⌉ write bounds of the two halves, plus the n writes of the merge, stay within n·⌈log₂ n⌉ |
| Merge.RangeWritesBound | 1sorting/DotnetComparison/Sorting.cs:61-69 | `MergeSort` on n elements writes at most n·⌈log₂ n⌉ elements |
| Merge.MergeRangesIsMergeSeq | 1sorting/DotnetComparison/Sorting.cs:71-100 | `Merge` replaces `[left, right]` by the merge of the copies `[left, mid]` and `[mid+1, right]` |
| Merge.MergeRangesCounts | 1sorting/DotnetComparison/Sorting.cs:71-100 | `Merge` counts one swap per element of the range, at most `right - left` comparisons, and at least as many as the shorter half has elements |
| Merge.MergeRangesPermutes | 1sorting/DotnetComparison/Sorting.cs:71-100 | `Merge` permutes `[left, right]` and changes nothing outside it |
| Merge.MergedPermutes | 1sorting/DotnetComparison/Sorting.cs:73-74 | writing the merge of the two copies back over the range is such a permutation |
| Merge.SplitHalves | 1sorting/DotnetComparison/Sorting.cs:73-74 | a list is its part before `left`, the two copied halves and its part after `right`, in that order |
| Merge.MergeRangesSorts | 1sorting/DotnetComparison/Sorting.cs:71-100 | merging two sorted halves sorts the range |
| Merge.MergeSortRangePermutes | 1sorting/DotnetComparison/Sorting.cs:61-69 | `MergeSort` permutes `[left, right]` and changes nothing outside it |
| Merge.HalvesPermute | 1sorting/DotnetComparison/Sorting.cs:66-67 | the two recursive calls together permute `[left, right]` |
| Merge.MergeSortRangeSorts | 1sorting/DotnetComparison/Sorting.cs:61-69 | `MergeSort` sorts `[left, right]` |
| Merge.MergeStepSorts | 1sorting/DotnetComparison/Sorting.cs:66-68 | sorted halves left by the recursive calls are merged into a sorted range |
| Merge.FirstHalfStaysSorted | 1sorting/DotnetComparison/Sorting.cs:66-67 | sorting the second half keeps the first half sorted |
| Merge.SecondHalfKeepsFirst | 1sorting/DotnetComparison/Sorting.cs:67 | a change outside a sorted slice keeps it sorted |
| Merge.MergeSortRangeWrites | 1sorting/DotnetComparison/Sorting.cs:61-69 | `MergeSort` adds `RangeWrites(left, right)` to `Swaps`, whatever the elements |
| Merge.MergeStepCounts | 1sorting/DotnetComparison/Sorting.cs:68 | the final `Merge` adds the range's length to `Swaps`, at most one less to `Comparisons`, and at least one comparison |
| Merge.HalvesWrite | 1sorting/DotnetComparison/Sorting.cs:66-67 | the two recursive calls add the writes of both halves to `Swaps` |
| Merge.MergeSortRangeComparisons | 1sorting/DotnetComparison/Sorting.cs:61-69 | `MergeSort` makes at least `n - 1` fewer comparisons than it writes elements |
| Merge.MergeSortRangeAtLeast | 1sorting/DotnetComparison/Sorting.cs:61-69 | `MergeSort` on n elements makes at least n - 1 comparisons, since each merge of two non-empty halves makes at least one |
| Merge.MergeSortSorts | 1sorting/DotnetComparison/Sorting.cs:52-59 | the result is sorted and a permutation of the input |
| Merge.MergeSortCounts | 1sorting/DotnetComparison/Sorting.cs:52-59 | `Swaps` depends only on the length and is at most n·⌈log₂ n⌉; comparisons are at most n·⌈log₂ n⌉ - n + 1 |
| Merge.MergeSortComparisonsAtLeast | 1sorting/DotnetComparison/Sorting.cs:52-59 | on n >= 1 elements `Sort` makes at least n - 1 comparisons, the lower bound that goes with the upper bound above |
| Merge.WholeRangeCounts | 1sorting/DotnetComparison/Sorting.cs:56 | the call on `[0, n - 1]` adds `RangeWrites(0, n - 1)` swaps, at most n·⌈log₂ n⌉, and the comparison bound above |
| Merge.MergeSortTrivial | 1sorting/DotnetComparison/Sorting.cs:63 | empty and one-element lists are left alone with both counters 0 |
| Merge.MergeSorter.constructor | 1sorting/DotnetComparison/Sorting.cs:8-9 | a new sorter starts with both counters 0 |
| Merge.MergeSorter.ResetStats | 1sorting/DotnetComparison/Sorting.cs:12-17 | both counters become 0 |
| Merge.MergeSorter.State | 1sorting/DotnetComparison/Sorting.cs:8-9 | the array and this sorter's two counters as one `Run`, whose list has the array's length |
| Merge.MergeSorter.Sort | 1sorting/DotnetComparison/Sorting.cs:52-59 | the final state is `MergeSortRun` of the input; the array is sorted and a permutation of the input; `Swaps` is at most n·⌈log₂ n⌉ |
| Merge.MergeSorter.MergeSort | 1sorting/DotnetComparison/Sorting.cs:61-69 | the new state is `MergeSortRange` of the old one |
| Merge.MergeSorter.Merge | 1sorting/DotnetComparison/Sorting.cs:71-100 | the new state is `MergeRanges` of the old one |
| Merge.MergeSorter.CopyRest | 1sorting/DotnetComparison/Sorting.cs:89-99 | the two drain loops finish `MergeLoop` from where the first loop stopped |
| Merge.MergeSorter.Put | 1sorting/DotnetComparison/Sorting.cs:82-98 | one write `arr[k++] = …` changes position `k` and counts one swap |
| Heap.SiftDown | 1sorting/DotnetComparison/Sorting.cs:124-144 | `Heapify(arr, n, i)`: the list keeps its length; `SiftDownExchanges` and `SiftDownStops` fix its branches |
| Heap.BuildLoop | 1sorting/DotnetComparison/Sorting.cs:111-112 | the first loop of `Sort` from `i` down to 0: the list keeps its length; `BuildLoopStep` and `BuildLoopDone` fix its iterations |
| Heap.ExtractLoop | 1sorting/DotnetComparison/Sorting.cs:114-119 | the second loop of `Sort` from `i` down to 1: the list keeps its length; `ExtractLoopStep` and `ExtractLoopDone` fix its iterations |
| Heap.HeapSortRun | 1sorting/DotnetComparison/Sorting.cs:105-122 | `Sort` as a function of the input: the list keeps its length; the lemmas below state what it computes |
| Heap.Largest | 1sorting/DotnetComparison/Sorting.cs:126-136 | `largest` is `i` or a child of `i` inside the heap, no smaller than `i` or either child, and strictly greater than `arr[i]` when it moved |
| Heap.HeapFromLeaves | 1sorting/DotnetComparison/Sorting.cs:111 | nodes from `n / 2` on have no child in the heap, so the first loop can start at `n / 2 - 1` |
| Heap.HeapRootMax | 1sorting/DotnetComparison/Sorting.cs:116 | the root of a max-heap is its largest element |
| Heap.SwapMovesDefect | 1sorting/DotnetComparison/Sorting.cs:138-141 | exchanging `i` with `largest` repairs the order at `i` and leaves at most the subtree of `largest` out of order |
| Heap.SiftDownHeap | 1sorting/DotnetComparison/Sorting.cs:124-144 | `Heapify(arr, n, i)` on a heap whose only defect is at `i` makes it a heap from `i` on |
| Heap.NoDefectAtLargest | 1sorting/DotnetComparison/Sorting.cs:138 | when `largest == i`, the heap order already holds from `i` on |
| Heap.SiftDownRearranges | 1sorting/DotnetComparison/Sorting.cs:124-144 | `Heapify` rearranges `[i, n)` and changes nothing else |
| Heap.SiftDownPermutes | 1sorting/DotnetComparison/Sorting.cs:124-144 | `Heapify` permutes the list |
| Heap.BuildLoopHeap | 1sorting/DotnetComparison/Sorting.cs:111-112 | the first loop leaves a max-heap of all n elements |
| Heap.BuildLoopRearranges | 1sorting/DotnetComparison/Sorting.cs:111-112 | the first loop permutes the list |
| Heap.ExtractStep | 1sorting/DotnetComparison/Sorting.cs:114-119 | one extraction keeps the loop invariant: a heap in front, a sorted tail behind it, and nothing in the heap above the tail |
| Heap.ExtractLoopSorts | 1sorting/DotnetComparison/Sorting.cs:114-119 | the second loop sorts the list |
| Heap.ExtractLoopPermutes | 1sorting/DotnetComparison/Sorting.cs:114-119 | the second loop permutes the list |
| Heap.SiftDownCounts | 1sorting/DotnetComparison/Sorting.cs:130-142 | each call of `Heapify` counts two comparisons, whether or not the children exist, so `Comparisons` grows by 2 per swap plus 2 |
| Heap.SiftDownPow | 1sorting/DotnetComparison/Sorting.cs:138-142 | each exchange at least doubles the node index plus one, and the last one is still inside the heap |
| Heap.SiftDownDepth | 1sorting/DotnetComparison/Sorting.cs:124-144 | `Heapify` swaps at most ⌊log₂ n⌋ times |
| Heap.BuildLoopCounts | 1sorting/DotnetComparison/Sorting.cs:111-112 | the first loop counts two comparisons per call it makes and two per swap |
| Heap.BuildLoopSwaps | 1sorting/DotnetComparison/Sorting.cs:111-112 | the first loop swaps at most ⌊log₂ n⌋ times per node it visits |
| Heap.ExtractLoopCounts | 1sorting/DotnetComparison/Sorting.cs:114-119 | the second loop makes at least one swap per iteration and counts exactly two comparisons per swap: each root exchange is matched by the two comparisons of its `Heapify` call |
| Heap.ExtractLoopSwaps | 1sorting/DotnetComparison/Sorting.cs:114-119 | the second loop swaps at most 1 + ⌊log₂ n⌋ times per iteration |
| Heap.HeapSortSorted | 1sorting/DotnetComparison/Sorting.cs:105-122 | the result is sorted |
| Heap.HeapSortPermutes | 1sorting/DotnetComparison/Sorting.cs:105-122 | the result is a permutation of the input |
| Heap.HeapSortCounts | 1sorting/DotnetComparison/Sorting.cs:105-122 | `Comparisons` is exactly twice `Swaps` plus 2·⌊n/2⌋, and there are at least n - 1 swaps |
| Heap.HeapSortSwapsBound | 1sorting/DotnetComparison/Sorting.cs:105-122 | `Swaps` is at most ⌊n/2⌋·⌊log₂ n⌋ + (n - 1)(1 + ⌊log₂ n⌋) |
| Heap.LoopsSwapsBound | 1sorting/DotnetComparison/Sorting.cs:111-119 | together the two loops keep to that bound |
| Heap.SortLoopsSwaps | 1sorting/DotnetComparison/Sorting.cs:111-119 | the loops' swaps are within the sum of the two per-loop budgets |
| Heap.BudgetsMakeBound | 1sorting/DotnetComparison/Sorting.cs:111-119 | the two per-loop budgets add up to the stated bound |
| Heap.HeapSortTrivial | 1sorting/DotnetComparison/Sorting.cs:111-114 | empty and one-element lists are left alone with both counters 0 |
| Heap.HeapSortExample | 1sorting/DotnetComparison/Sorting.cs:105-122 | `[4,3,2,1]` sorts to `[1,2,3,4]` with 12 comparisons and 4 swaps |
| Heap.BuildLoopStep | 1sorting/DotnetComparison/Sorting.cs:111-112 | one iteration of the first loop is `Heapify(arr, n, i)` followed by the loop from `i - 1` |
| Heap.BuildLoopDone | 1sorting/DotnetComparison/Sorting.cs:111 | the first loop stops below 0 |
| Heap.ExtractLoopStep | 1sorting/DotnetComparison/Sorting.cs:114-119 | one iteration of the second loop moves the root behind the heap with a counted swap, then sifts over `i` elements |
| Heap.ExtractLoopDone | 1sorting/DotnetComparison/Sorting.cs:114 | the second loop stops at 0 |
| Heap.SiftDownExchanges | 1sorting/DotnetComparison/Sorting.cs:130-142 | when `largest != i`, `Heapify` counts two comparisons, exchanges, counts a swap and recurses at `largest` |
| Heap.SiftDownStops | 1sorting/DotnetComparison/Sorting.cs:130-138 | when `largest == i`, `Heapify` counts two comparisons and stops |
| Heap.HeapSorter.constructor | 1sorting/DotnetComparison/Sorting.cs:8-9 | a new sorter starts with both counters 0 |
| Heap.HeapSorter.ResetStats | 1sorting/DotnetComparison/Sorting.cs:12-17 | both counters become 0 |
| Heap.HeapSorter.State | 1sorting/DotnetComparison/Sorting.cs:8-9 | the array and this sorter's two counters as one `Run`, whose list has the array's length |
| Heap.HeapSorter.Sort | 1sorting/DotnetComparison/Sorting.cs:105-122 | the final state is `HeapSortRun` of the input; the array is sorted and a permutation of the input; `Comparisons` is 2·`Swaps` + 2·⌊n/2⌋ |
| Heap.HeapSorter.BuildHeap | 1sorting/DotnetComparison/Sorting.cs:111-112 | the new state is `BuildLoop` of the old one from `n / 2 - 1` |
| Heap.HeapSorter.ExtractRoots | 1sorting/DotnetComparison/Sorting.cs:114-119 | the new state is `ExtractLoop` of the old one from `n - 1` |
| Heap.HeapSorter.SwapCounted | 1sorting/DotnetComparison/Sorting.cs:139-141 | an exchange followed by `Swaps++` |
| Heap.HeapSorter.Heapify | 1sorting/DotnetComparison/Sorting.cs:124-144 | the new state is `SiftDown` of the old one |
| Quick.QuickSortRange | 1sorting/DotnetComparison/Sorting.cs:159-168 | `QuickSort(arr, low, high)` as written: the list keeps its length; the lemmas below state what it does |
| Quick.QuickSortRun | 1sorting/DotnetComparison/Sorting.cs:149-157 | `Sort` as a function of the input: the list keeps its length |
| Quick.FixedQuickSortRange | 1sorting/DotnetComparison/Sorting.cs:159-168 | `QuickSort` with the recursion `[low, p]`, `[p + 1, high]`: the list keeps its length; `FixedQuickSortSortsRange` says it sorts |
| Quick.FixedQuickSortRun | 1sorting/DotnetComparison/Sorting.cs:149-157 | `Sort` with the corrected recursion: the list keeps its length |
| Quick.Max | 1sorting/DotnetComparison/Sorting.cs:208-210 | `Math.Max`: the result is at least both arguments and is one of them |
| Quick.Median | 1sorting/DotnetComparison/Sorting.cs:205-211 | the result is one of the three arguments, with at least two arguments at or below it and at least two at or above it |
| Quick.PartitionHead | 1sorting/DotnetComparison/Sorting.cs:175-202 | from the loop head, the returned index lies in `[low, high]`, and below `high` when the range has two or more elements |
| Quick.PartitionUp | 1sorting/DotnetComparison/Sorting.cs:177-181 | the same bound, from inside the up scan |
| Quick.PartitionDown | 1sorting/DotnetComparison/Sorting.cs:183-187 | the same bound, from inside the down scan |
| Quick.PartitionExchange | 1sorting/DotnetComparison/Sorting.cs:189-199 | the same bound, from the exchange |
| Quick.PartitionRange | 1sorting/DotnetComparison/Sorting.cs:170-203 | `Partition` returns an index in `[low, high]`, below `high` when the range has two or more elements |
| Quick.SwapPermuted | 1sorting/DotnetComparison/Sorting.cs:193 | an exchange inside a range permutes it and changes nothing outside |
| Quick.PermutesFromHead | 1sorting/DotnetComparison/Sorting.cs:175-200 | from the loop head, the rest of `Partition` permutes `[low, high]` and changes nothing outside |
| Quick.PermutesFromUp | 1sorting/DotnetComparison/Sorting.cs:177-181 | the same, from the up scan |
| Quick.PermutesFromDown | 1sorting/DotnetComparison/Sorting.cs:183-187 | the same, from the down scan |
| Quick.PermutesFromExchange | 1sorting/DotnetComparison/Sorting.cs:189-199 | the same, from the exchange |
| Quick.PermutesFromSwap | 1sorting/DotnetComparison/Sorting.cs:191-198 | the same, after an exchange of distinct positions |
| Quick.SplitsFromHead | 1sorting/DotnetComparison/Sorting.cs:175-202 | from the loop head, every element of `[low, p]` ends at most the pivot and every element of `(p, high]` at least the pivot |
| Quick.SplitsFromUp | 1sorting/DotnetComparison/Sorting.cs:177-181 | the same, from the up scan |
| Quick.SplitsFromDown | 1sorting/DotnetComparison/Sorting.cs:183-187 | the same, from the down scan |
| Quick.SplitsFromExchange | 1sorting/DotnetComparison/Sorting.cs:189-199 | the same, from the exchange |
| Quick.SwapExtendsSplit | 1sorting/DotnetComparison/Sorting.cs:191-198 | exchanging the two stopped elements extends both settled sides by one |
| Quick.PartitionRangeSplits | 1sorting/DotnetComparison/Sorting.cs:170-203 | `Partition` permutes the range and splits it at the returned index around the pivot `arr[low]` |
| Quick.OnSortedFromHead | 1sorting/DotnetComparison/Sorting.cs:175-200 | on a sorted range `Partition` moves no element: every exchange it makes swaps equal elements |
| Quick.OnSortedFromUp | 1sorting/DotnetComparison/Sorting.cs:177-181 | the same, from the up scan |
| Quick.OnSortedFromDown | 1sorting/DotnetComparison/Sorting.cs:183-187 | the same, from the down scan |
| Quick.OnSortedFromExchange | 1sorting/DotnetComparison/Sorting.cs:189-199 | the same, from the exchange |
| Quick.DownOnIncreasing | 1sorting/DotnetComparison/Sorting.cs:183-187 | on strictly increasing input, the down scan walks from `hi` back to `low`, counting one comparison per step |
| Quick.PartitionOnIncreasing | 1sorting/DotnetComparison/Sorting.cs:170-203 | on strictly increasing input, `Partition` makes `high - low` comparisons, no swap, and returns `low` |
| Quick.CountsFromHead | 1sorting/DotnetComparison/Sorting.cs:175-200 | from the loop head, the rest of `Partition` counts at most `PartitionBound(low, lo, hi)` comparisons: one per cursor step, never more than the distance between the cursors |
| Quick.CountsFromUp | 1sorting/DotnetComparison/Sorting.cs:177-181 | the same bound, from the up scan |
| Quick.CountsFromDown | 1sorting/DotnetComparison/Sorting.cs:183-187 | the same bound, from the down scan |
| Quick.CountsFromExchange | 1sorting/DotnetComparison/Sorting.cs:189-199 | the same bound, from the exchange |
| Quick.PartitionRangeAtMost | 1sorting/DotnetComparison/Sorting.cs:170-203 | `Partition` counts at most `high - low` comparisons |
| Quick.QuickSortRangeRearranges | 1sorting/DotnetComparison/Sorting.cs:159-168 | `QuickSort` as written permutes `[low, high]` and changes nothing outside |
| Quick.QuickSortPermutes | 1sorting/DotnetComparison/Sorting.cs:149-157 | the result is a permutation of the input |
| Quick.QuickSortRangeOnSorted | 1sorting/DotnetComparison/Sorting.cs:159-168 | a sorted range is left as it is |
| Quick.QuickSortOnSorted | 1sorting/DotnetComparison/Sorting.cs:149-157 | sorted input is left as it is |
| Quick.QuickSortRangeOnIncreasing | 1sorting/DotnetComparison/Sorting.cs:159-168 | on a strictly increasing range of m elements, `QuickSort` makes m(m-1)/2 comparisons and no swaps |
| Quick.PairsFormula | 1sorting/DotnetComparison/Sorting.cs:159-168 | the pair count n(n - 1)/2 used for the comparison bounds is exact |
| Quick.PairsSplit | 1sorting/DotnetComparison/Sorting.cs:164-167 | splitting n + 1 elements into two parts and one more never gains pairs, so partition steps plus both recursions stay within n(n - 1)/2 |
| Quick.QuickSortRangeAtMost | 1sorting/DotnetComparison/Sorting.cs:159-168 | on any range of n elements `QuickSort` makes at most n(n - 1)/2 comparisons |
| Quick.QuickSortAtMost | 1sorting/DotnetComparison/Sorting.cs:149-157 | `Sort` on n elements makes at most n(n - 1)/2 comparisons, so strictly increasing input is the worst case |
| Quick.QuickSortOnIncreasing | 1sorting/DotnetComparison/Sorting.cs:172 | on strictly increasing input of n elements, the first-element pivot costs exactly n(n-1)/2 comparisons, with no swaps |
| Quick.QuickSortTrivial | 1sorting/DotnetComparison/Sorting.cs:161-162 | empty and one-element lists are left alone with both counters 0 |
| Quick.QuickSortCounterexample | 1sorting/DotnetComparison/Sorting.cs:164-167 | `[3,1,2]` ends as `[2,1,3]`, which is not sorted |
| Quick.EnterUp | 1sorting/DotnetComparison/Sorting.cs:175-177 | at the loop head with `low <= high`, the up scan begins |
| Quick.StepUp | 1sorting/DotnetComparison/Sorting.cs:177-181 | one step of the up scan counts one comparison and moves `low` up |
| Quick.EnterDown | 1sorting/DotnetComparison/Sorting.cs:177-183 | the up scan stops at an element at least the pivot, and the down scan begins |
| Quick.StepDown | 1sorting/DotnetComparison/Sorting.cs:183-187 | one step of the down scan counts one comparison and moves `high` down |
| Quick.EnterExchange | 1sorting/DotnetComparison/Sorting.cs:183-189 | the down scan stops at an element at most the pivot |
| Quick.StepExchange | 1sorting/DotnetComparison/Sorting.cs:191-198 | distinct cursors exchange their elements, count one swap and step inward |
| Quick.StepMeet | 1sorting/DotnetComparison/Sorting.cs:191-198 | equal cursors step inward with no swap counted |
| Quick.StepCrossed | 1sorting/DotnetComparison/Sorting.cs:189 | crossed cursors go back to the loop head unchanged |
| Quick.Finish | 1sorting/DotnetComparison/Sorting.cs:175-202 | once the cursors have crossed, `Partition` returns `low - 1` with the state unchanged |
| Quick.FixedQuickSortRearranges | 1sorting/DotnetComparison/Sorting.cs:164-167 | the corrected recursion permutes `[low, high]` and changes nothing outside |
| Quick.SortedAfterSplit | 1sorting/DotnetComparison/Sorting.cs:164-167 | sorting both sides of a split around the pivot sorts the range |
| Quick.FixedQuickSortSortsRange | 1sorting/DotnetComparison/Sorting.cs:159-168 | the corrected recursion sorts `[low, high]` |
| Quick.FixedQuickSortSorts | 1sorting/DotnetComparison/Sorting.cs:149-157 | the corrected recursion sorts the list and permutes it |
| Quick.FixedAgreesOnSorted | 1sorting/DotnetComparison/Sorting.cs:159-168 | on strictly increasing input, the corrected recursion ends in the same state as the code, counters included |
| Quick.FixedAgreesOnSortedList | 1sorting/DotnetComparison/Sorting.cs:149-168 | on sorted input, duplicates allowed, both recursions leave the list as it is |
| Quick.DuplicatesCostFixedASwap | 1sorting/DotnetComparison/Sorting.cs:159-199 | on `[1, 1, 1]` the code counts 0 comparisons and 1 swap, and the corrected recursion 0 comparisons and 2 swaps, so with duplicates the counters differ |
| Quick.MedianSymmetric | 1sorting/DotnetComparison/Sorting.cs:205-211 | swapping the first two arguments, or the last two, does not change the median |
| Quick.MedianOfOrdered | 1sorting/DotnetComparison/Sorting.cs:205-211 | the median of `a <= b <= c` is `b` |
| Quick.QuickSorter.constructor | 1sorting/DotnetComparison/Sorting.cs:8-9 | a new sorter starts with both counters 0 |
| Quick.QuickSorter.ResetStats | 1sorting/DotnetComparison/Sorting.cs:12-17 | both counters become 0 |
| Quick.QuickSorter.State | 1sorting/DotnetComparison/Sorting.cs:8-9 | the array and this sorter's two counters as one `Run`, whose list has the array's length |
| Quick.QuickSorter.Sort | 1sorting/DotnetComparison/Sorting.cs:149-157 | the final state is `QuickSortRun` of the input; the array is a permutation of the input; sorted input is left as it is |
| Quick.QuickSorter.QuickSort | 1sorting/DotnetComparison/Sorting.cs:159-168 | the new state is `QuickSortRange` of the old one |
| Quick.QuickSorter.FixedQuickSort | 1sorting/DotnetComparison/Sorting.cs:159-168 | the corrected recursion's new state is `FixedQuickSortRange` of the old one, and the range ends sorted |
| Quick.QuickSorter.Partition | 1sorting/DotnetComparison/Sorting.cs:170-203 | the new state and the returned index are `PartitionRange` of the old state |
| Quick.QuickSorter.ExchangeStep | 1sorting/DotnetComparison/Sorting.cs:189-199 | the exchange moves the cursors inward unless they have crossed, and continues `PartitionExchange` from the loop head |
| Quick.QuickSorter.ScanUp | 1sorting/DotnetComparison/Sorting.cs:177-181 | the scan stops at an element at least the pivot, and the state continues `PartitionUp` |
| Quick.QuickSorter.ScanDown | 1sorting/DotnetComparison/Sorting.cs:183-187 | the scan stops at an element at most the pivot, and the state continues `PartitionDown` |

Definitions and helper lemmas without a row of their own: they model no source line and serve as
the vocabulary the rows above are stated in.
- `Sorting`: `Run`, `Sorted`, `StrictlyIncreasing`, `RearrangedWithin`, `Permuted`, `Pow2`, and the
  lemmas `Split3`, `RearrangedIsPermutation`, `PermutationFixingOutside`, `RearrangedRefl`,
  `RearrangedTrans`, `RearrangedWiden`, `RearrangedElement`, `RearrangedBounds`, `PermutedTrans`,
  `SortedLastIsMax`, `MultisetDropLast`, `SortedPrefix`, `EqualByLast`.
- `Insertion`: `Insert`, `Shifts`, `Probes`, `CountGreater`, `Inversions`, `Stops`.
- `Merge`: `MergeComparisons`, `CeilLog2`, `RangeWrites`, `WriteBound`, and the lemma
  `HeadTailMultiset`.
- `Heap`: `Parent`, `HeapFrom`, `Log2`, `ExtractInv`, `Budget`, `HeapSwapsBound`.
- `Quick`: `Partitioned`, `AtHead`, `InUp`, `InDown`, `InExchange`, `SplitSoFar`, `SplitAt`,
  `Pairs`, `PartitionBound`.

## Left out

- Timing: `Milliseconds` and the `Stopwatch` calls (Sorting.cs:10, 16, 27, 45-46 and the same lines in every `Sort`) read a clock and are not modelled.
- The benchmark driver, input generation and CSV output are not part of this model.
- `Sorter` base class: each sorter class carries its own two counters and its own `ResetStats` in place of the shared `Sorter` base class.
- Counter width: `Comparisons` and `Swaps` are C# `int`s, modelled as unbounded `nat`. Wrap-around past 2³¹ - 1 on very long inputs is not modelled.
- `List<int>`: modelled as an `array<int>`. The sorters never change its `Count`, and `Merge`'s `GetRange` copies are sequences taken from the array.
- Method structure: the quick sort scans and exchange, merge's drain loops (`CopyRest`), merge's counted write (`Put`), heap sort's two loops (`BuildHeap`, `ExtractRoots`) and its counted exchange (`SwapCounted`) are separate methods. The source writes each of them inline. The order of state changes is kept, and merge's `Swaps++` after the branch is folded into each write.
- `Quick.Median` is never called by the source and is modelled as a function on its own.
- Quick.QuickSorter.Sort: does not promise a sorted result, because the code as written does not sort every input (see Findings).

## Findings

| source | as written | input that shows it | evidently intended | confidence | as-written member | corrected member |
|---|---|---|---|---|---|---|
| 1sorting/DotnetComparison/Sorting.cs:166 | after the Hoare-style `Partition`, which splits at an index rather than at the pivot's final position, `QuickSort` recurses into `[low, p - 1]` and `[p + 1, high]`, so `arr[p]` is never sorted into either side | `[3, 1, 2]`: `Partition` exchanges 3 and 2 and returns 1, both sides have a single element, and the list ends `[2, 1, 3]` | recurse into `[low, p]` and `[p + 1, high]`, which sorts every input | not executed | Quick.QuickSortCounterexample | Quick.FixedQuickSortSorts |
