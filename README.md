# Order statistics: quickselect and the paired min/max scan

This project models the selection core of the OrderStatisticsAlgorithms
repository in Dafny and proves it correct:

- **quickselect** (`quickSelect.py`): a Lomuto `partition` that rearranges an
  inclusive index range `[left, right]` of an integer list in place around a
  pivot; `pivot_selector`, which partitions around a randomly drawn pivot and
  narrows the range until the pivot lands at rank `k`; and `quick_select`,
  which checks `k` and starts the search over the whole list;
- **order statistics** (`order_statistics.py`): `find_kth_largest`, which
  checks a one-based rank and turns it into the zero-based rank `n - k` for
  `quick_select`, and `find_min_max`, which finds the minimum and the maximum
  in one pass over pairs of elements, with about 3n/2 comparisons.

The reference meaning of "the k-th smallest element" is the element at
position `k` of the ascending sort of the list, as the baseline
`sorted(nums)[k]` computes it. In the model this is the ghost function
`SortedSpec.SortedOf`, an insertion sort. It is proved sorted and a
permutation of its input. A sorted permutation is unique (`SortedUnique`), so
`SortedOf` is exactly Python's `sorted`.

Layout:

- `outcomes.dfy`: module `Outcomes`, the failure kinds and a `Result` type;
- `sorted_spec.dfy`: module `SortedSpec`, the ghost reference (sorting,
  "in its sorted place", minimum and maximum) and the lemmas about it;
- `quick_select.dfy`: module `QuickSelect`, `Swap`, `Partition`,
  `PivotSelector` and `QuickSelect`, as methods on `array<int>`;
- `order_statistics.dfy`: module `OrderStatistics`, `FindKthLargest` and
  `FindMinMax`.

Modelling decisions:

- The Python list is an `array<int>`. The selection routines reorder it in
  place, so their contracts speak of `old(a[..])` and `a[..]`. Python integers
  are unbounded, like Dafny's `int`, so there is no overflow to model.
- The random pivot `random.randint(left, right)` is the nondeterministic
  choice `var pivotIndex :| left <= pivotIndex <= right`. Every property of
  `PivotSelector` and `QuickSelect` is proved for every sequence of choices.
- `pivot_selector` is tail recursion. It stays a recursive method with
  `decreases right - left`.
- Each `ValueError` becomes `Err` of a failure kind: `EmptyInput`,
  `OutOfRange` or `InvalidRank`. The message text is not modelled.
- `find_min_max`'s comparisons are counted by a ghost out-parameter
  `comparisons`: 1 for ordering the first two elements of an even-length
  list, and 3 for each pair after that. Each increment sits just before the
  comparison it counts.

Where the source's own comments and docstrings differ from its code, the
model follows the code:

- Elements equal to the pivot end up to its right. The comments at
  quickSelect.py:67-69 and the docstring at quickSelect.py:88-91 speak only of
  smaller elements going left and greater ones going right. The partition's
  test is a strict `<` (quickSelect.py:112), so elements equal to the pivot
  also go right. This is what `Partitioned` states.
- The selection mutates the caller's list. The demo comment at
  quickSelect.py:141 says a copy is modified, which is not so.

Two further facts about the code:

- `quick_select` checks the rank before it checks for emptiness
  (quickSelect.py:28-31). So an empty list fails with the range error, and
  the emptiness check can never fire. `QuickSelect.QuickSelect` states
  `a.Length == 0 ==> r == Err(OutOfRange)`.
- The repository has no median-of-medians selector. `median_of_medians` in
  medians.py:1-8 has no body.

## Model

| member | source | states |
|---|---|---|
| `SortedSpec.SortedOf` | simpleApproach.py:11-12 | the reference sort is a permutation of its input, of the same length |
| `SortedSpec.SortedOfSorted` | simpleApproach.py:11-12 | the reference sort is in ascending order |
| `SortedSpec.SortedUnique` | simpleApproach.py:12 | two ascending lists with the same multiset of elements are equal, so `sorted(nums)` depends only on the elements |
| `SortedSpec.SortedOfPermutation` | quickSelect.py:14-35 | reordering a list does not change its sort, so the rank being searched is the same before and after the list is rearranged |
| `SortedSpec.RangeMultiset` | quickSelect.py:104-121 | a permutation of the whole list that leaves everything outside `[lo, hi]` alone is a permutation of `[lo, hi]` |
| `SortedSpec.SelectedIsSortedAt` | quickSelect.py:75-76 | if `s[k]` is in its sorted place within `[lo, hi]`, and that range holds the elements of `orig`, then `s[k]` is `sorted(orig)[k - lo]` |
| `SortedSpec.InPlaceIsSortedAt` | quickSelect.py:75-76 | the same for a whole list: an element with nothing larger before it and nothing smaller after it is the element at its own index of the sort |
| `SortedSpec.MinimumIsFirstSorted` | test_order_statistics.py:83 | `min(arr)` is `sorted(arr)[0]`, the rank-0 selection |
| `SortedSpec.MaximumIsLastSorted` | test_order_statistics.py:83 | `max(arr)` is `sorted(arr)[n - 1]`, the rank-(n-1) selection |
| `SortedSpec.AllEqualSelectsValue` | test_order_statistics.py:14 | in a list whose elements are all equal to `v`, every rank selects `v` |
| `QuickSelect.Swap` | quickSelect.py:104 | the two positions are exchanged, every other position is unchanged, and the multiset of the array is unchanged |
| `QuickSelect.Partition` | quickSelect.py:84-124 | for `left <= pivot_index <= right < n`: the result `r` is in `[left, right]`; `a[r]` is the original pivot; everything in `[left, r)` is strictly smaller and everything in `(r, right]` is at least as large; the array's elements are only reordered, and nothing outside `[left, right]` moves; loop invariant of the scan over `final_index` and `i` |
| `QuickSelect.PartitionedAtRank` | quickSelect.py:118-124 | after partitioning, the pivot's final index `r` is its rank: `a[r]` is position `r - left` of the sorted original range |
| `QuickSelect.SelectedBelowPivot` | quickSelect.py:77-79 | searching left of the pivot and finding `a[k]` in place there leaves `a[k]` in place in the whole range, because everything from the pivot on is larger |
| `QuickSelect.SelectedAbovePivot` | quickSelect.py:80-82 | searching right of the pivot and finding `a[k]` in place there leaves `a[k]` in place in the whole range, because everything up to the pivot is smaller or equal |
| `QuickSelect.PivotSelector` | quickSelect.py:37-82 | for `left <= k <= right`, and for every pivot drawn: terminates; returns `a[k]` of the final array; that value is position `k - left` of the sorted original `a[left..right]`; `a[k]` ends in its sorted place within the range; the array is a permutation of the original, unchanged outside `[left, right]`; base case `left == right` returns `a[left]` |
| `QuickSelect.QuickSelect` | quickSelect.py:14-35 | for `0 <= k < n` returns `Ok(sorted(arr)[k])`; for `k < 0` or `k >= n`, including an empty list, returns `Err(OutOfRange)` and leaves the array unchanged; the array afterwards is a permutation of the input, with the result at index `k` in its sorted place |
| `OrderStatistics.FindKthLargest` | order_statistics.py:3-28 | an empty list gives `Err(EmptyInput)`; otherwise `k <= 0` or `k > n` gives `Err(InvalidRank)` with the array unchanged; for `1 <= k <= n` returns `Ok(sorted(arr)[n - k])`, the k-th largest with duplicates counted; the array is only reordered |
| `OrderStatistics.FindMinMax` | order_statistics.py:30-78 | fails with `EmptyInput` exactly on an empty list; every non-empty list succeeds and returns `(min(arr), max(arr))`, both being elements of `arr`, with `min <= max`; does not modify `arr`; loop invariant: the running values are the minimum and maximum of `arr[0..i)`, with the parity-dependent start making the pairs cover the rest exactly; makes exactly `MinMaxComparisons(n)` element comparisons |
| `OrderStatistics.MinMaxComparisonsBound` | order_statistics.py:31-33 | the scan's comparison count is at most the ceiling of 3n/2, and below the naive `2n - 2` for `n >= 2` |

## Left out

- medians.py: `median_of_medians` has only a docstring and returns nothing, so there is no median-of-medians algorithm to model.
- simpleApproach.py: the sort-and-index baseline is not a modelled operation. It serves only as the meaning of "k-th smallest" (`SortedOf`). Its stray `self` parameter is ignored.
- The distribution of `random.randint` and the expected running time: the pivot is an arbitrary index in `[left, right]`, so correctness is proved for every draw, and nothing probabilistic is stated.
- Elements other than integers: the source compares with `<` on any comparable values; the model fixes `int`.
- The `if __name__ == "__main__":` demonstration blocks and their printing (order_statistics.py:80-222, quickSelect.py:127-180).
- The `ValueError` message strings: only the kind of failure is kept.
- test_order_statistics.py: a unittest harness. It is used only as the source of the behaviour the contracts state.
