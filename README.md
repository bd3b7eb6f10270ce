# Sorting in Rust, modelled in Dafny

A model of a small teaching library of sorting routines over slices
(`src/main.rs`): the in-place `insertion_sort` and `quicksort`, the allocating
`merge_sort` with its `merge` step, and the `is_sorted` checker. Elements are
mathematical integers, so the order is total.

- `Spec.dfy` (module `Spec`): what sorted means. `Sorted` is the all-pairs goal
  the sorters state (`0 ≤ x < y < length ⇒ v[x] ≤ v[y]`); `AdjacentSorted` is
  the adjacent-pair condition that `is_sorted` scans for. It also proves that
  a sorted permutation of a sequence is unique, and it holds the library's
  ten-item test vectors.
- `Checker.dfy` (module `Checker`): `is_sorted`, both as written and with the
  empty slice guarded (see Findings).
- `Insertion.dfy` (module `Insertion`): `insertion_sort` as a method on an
  `array<int>`. It keeps the for loop, the inner while loop with the guard
  `j > 0 && a[j-1] > a[j]`, and the adjacent swap.
- `Quick.dfy` (module `Quick`): `quicksort` as a recursive method on an index
  range `[lo, hi)` of one array, which stands for the Rust sub-slice
  `v[lo..hi]`. The pivot is the first element of the range. The partition
  follows the contract in the source comments, and the recursion is on
  `[lo, p)` and `[p + 1, hi)`, as written.
- `Merging.dfy` (module `Merging`): the reference function `Merged` and the
  two-cursor `Merge` method proved equal to it. `MergeSort` is a function on
  sequences that splits at `len / 2`, recurses and merges. A Dafny sequence is
  a value, so the input is untouched, just as `merge_sort` takes a shared
  borrow and returns a new `Vec`.
- `Tests.dfy` (module `Tests`): the repository's unit tests, as verified
  clients of the sorters.

The source leaves two bodies unfinished. The partition in `quicksort` sets
`smaller` to 0, and `merge` returns `xs` unchanged. The comments describe
both intended algorithms in detail. The model implements those described
algorithms, not the placeholder bodies.

## Model

| member | source | states |
|---|---|---|
| `Spec.AdjacentSortedIffSorted` | src/main.rs:190-197 | every adjacent pair being in order, as `is_sorted` checks, holds exactly when the all-pairs goal `x < y ⇒ v[x] ≤ v[y]` holds (both directions) |
| `Spec.SortedUnique` | src/main.rs:46 | two sorted sequences with the same multiset of elements are equal, so every sorter's output is fixed by its input |
| `Spec.SortingSortedIsIdentity` | src/main.rs:234-241 | a sorted permutation of an already sorted sequence is that sequence: sorting presorted input changes nothing |
| `Spec.SortedAroundPivot` | src/main.rs:86-98 | a sorted front strictly below the pivot, then the pivot, then a sorted back at or above it, is sorted as a whole |
| `Spec.TenItemsSortedIsSorted` | src/main.rs:234-241 | the expected test output `[0,0,2,2,3,3,5,6,8,9]` is sorted |
| `Spec.TenItemsSortedIsPermutation` | src/main.rs:225-232 | the expected test output has the same elements as the test input `[3,2,0,5,8,9,6,3,2,0]` |
| `Spec.TenItemsExpected` | src/main.rs:225-232 | any sorted permutation of the ten-item test input is exactly the expected output |
| `Checker.IsSortedAsWritten` | src/main.rs:190-198 | as written: panics exactly when the slice is empty, because `len - 1` underflows; otherwise returns whether every adjacent pair is in order, false at the first violation |
| `Checker.IsSorted` | src/main.rs:190-198 | with the empty slice guarded: true iff every adjacent pair is in order, iff the slice is sorted; true for length 0 and 1 |
| `Checker.EmptySliceDiscrepancy` | src/main.rs:191-192 | on the empty slice the code as written panics, while the intended check answers true |
| `Insertion.SwapAdjacent` | src/main.rs:66 | `swap(j-1, j)` exchanges exactly those two positions, keeps all others and keeps the multiset |
| `Insertion.InsertionSort` | src/main.rs:45-73 | the array ends sorted and a permutation of its old contents. Outer loop: the prefix before `i` is sorted and the rest is untouched. Inner loop: only the element being bubbled is out of place. An already sorted or empty array is never swapped and stays unchanged |
| `Quick.Partition` | src/main.rs:86-111 | with the first element as pivot: the pivot ends at index `p` (`smaller`), everything before it in the range is `<` the pivot, everything after it is `≥` the pivot, the range keeps its elements, and nothing outside the range changes |
| `Quick.SortedAfterRecursion` | src/main.rs:113-118 | after partitioning and sorting `[lo, p)` and then `[p + 1, hi)` in place, the whole range is sorted and nothing outside it has moved |
| `Quick.QuickSortRange` | src/main.rs:100-118 | the range ends sorted and a permutation of its old contents, and nothing outside it changes; a range shorter than 2 is untouched; both recursive calls are on strictly shorter ranges (`decreases hi - lo`) |
| `Quick.QuickSort` | src/main.rs:85-105 | the array ends sorted and a permutation of its old contents; an array shorter than 2, or one already sorted, is unchanged |
| `Merging.MergedPermutation` | src/main.rs:177-183 | the merge's multiset is the union of the inputs' multisets, and its length is `|xs| + |ys|` |
| `Merging.MergedSorted` | src/main.rs:172-176 | merging two sorted sequences gives a sorted sequence |
| `Merging.MergedExample` | src/main.rs:172-176 | `<5, 8, 9>` merged with `<0, 2, 3, 6>` is `<0, 2, 3, 5, 6, 8, 9>` |
| `Merging.Merge` | src/main.rs:171-188 | the two-index loop returns the merge of the inputs: exactly their elements, `|xs| + |ys|` of them, sorted when both inputs are |
| `Merging.MergeHalves` | src/main.rs:156-164 | merging sorted permutations of the two halves split at `middle` gives a sorted permutation of the whole input |
| `Merging.MergeSort` | src/main.rs:140-165 | the result is sorted and a permutation of the input; `[]` gives `[]` and `[x]` gives `[x]` |
| `Merging.MergeSortOfSorted` | src/main.rs:294-301 | merge sort returns an already sorted input unchanged |
| `Merging.MergeSortTenItems` | src/main.rs:285-292 | merge sort of the ten-item input is the expected output |
| `Tests.InsertionSortEmpty` | src/main.rs:216-223 | insertion sort of the empty array leaves it empty |
| `Tests.InsertionSortTenItems` | src/main.rs:225-232 | insertion sort of `[3,2,0,5,8,9,6,3,2,0]` gives `[0,0,2,2,3,3,5,6,8,9]` |
| `Tests.InsertionSortPresorted` | src/main.rs:234-241 | insertion sort of the sorted ten items leaves them as they were |
| `Tests.QuickSortEmpty` | src/main.rs:246-253 | quicksort of the empty array leaves it empty |
| `Tests.QuickSortTenItems` | src/main.rs:255-262 | quicksort of `[3,2,0,5,8,9,6,3,2,0]` gives `[0,0,2,2,3,3,5,6,8,9]` |
| `Tests.QuickSortPresorted` | src/main.rs:264-271 | quicksort of the sorted ten items leaves them as they were |
| `Tests.MergeSortTests` | src/main.rs:276-301 | merge sort gives `[]` for `[]`, the expected output for the ten items, and the presorted input unchanged |

## Left out

- `main` (src/main.rs:4-33) is not modelled. It times the sorters with the wall clock and prints the results.
- `generate_random_array` (src/main.rs:200-209) is not modelled. It only draws random numbers.
- Genericity is not modelled. The source sorts any `T: PartialOrd`; the model sorts `int`. A partial order such as floating point with NaN has no meaningful sortedness.
- The `Debug` and `Copy` bounds and Rust ownership are not modelled. Borrowing a slice becomes an array index range. Copying elements into a new `Vec` becomes building a sequence value.
- Element width is not modelled. The tests use `i32`, but the sorters only compare elements and never do arithmetic on them, so unbounded `int` behaves the same. Indices are `nat`; the only `usize` arithmetic that can go wrong is the subtraction in `is_sorted`.
- The unfinished placeholder bodies (src/main.rs:111 and src/main.rs:187) are not modelled. `Quick.Partition` and `Merging.Merge` implement the algorithms the comments describe.
- The O(N²) and O(N log N) running-time claims are not modelled.
- Stability is not modelled. `Merged` takes the left element on ties, but equal integers are indistinguishable, so stability states nothing here.

## Findings

| source | as written | input that shows it | evidently intended | confidence | as-written member | corrected member |
|---|---|---|---|---|---|---|
| src/main.rs:192 | `for i in 0..len-1` computes `len - 1` on `usize`. On an empty slice a debug build panics on the subtraction; a release build wraps and then panics reading `slice[0]` | `is_sorted(&[])`, shown by `Checker.EmptySliceDiscrepancy` | an empty slice is sorted, so the answer should be `true` with the empty case guarded | high; not executed | `Checker.IsSortedAsWritten` | `Checker.IsSorted` |
