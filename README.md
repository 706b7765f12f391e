# Hybrid merge/insertion sort

A Dafny model of the sorting core of `HybridSortBenchmark.java`:

- `hybridMergeSort` sorts an inclusive index range `[left, right]` of an `int[]` in place. It splits the range at `left + (right - left) / 2` until a range holds at most `s` elements, then sorts it with `insertionSort`. It joins the sorted halves with `merge`.
- `merge` copies both halves and writes them back interleaved, taking from the left half on ties.

The model also covers the driver code in `main` that matters for the sort:

- how the list of thresholds `s` is built: M samples between 1 and N, clamped, deduplicated and sorted;
- the benchmark loop, which sorts a fresh copy of the master array once per threshold.

The model is imperative where the source is:

- the three sort routines are methods on `array<int>` with `modifies arr`;
- each loop is a `while` loop with invariants;
- each method is proved against specification functions and predicates in module `SortSpec`:
  - `Sorted` and `IsSortingOf` give sortedness plus multiset equality;
  - `SortsRange` adds that nothing outside the range changes;
  - `Merged` is the tie-breaking two-way merge.

Modules:

- `SortSpec`: the specification vocabulary, plus lemmas:
  - a merge of sorted runs is sorted and a permutation;
  - a sorted permutation is unique, which gives threshold independence and idempotence.
- `Insertion`: `insertionSort`.
- `Merging`: `merge`. Its first loop is `MergeRuns` and its two draining loops are `Drain`.
- `HybridSort`: `hybridMergeSort` and the branch it takes (`NextStep`).
- `Thresholds`: the sampling loop that fills `sValues`, and `distinct().sorted()`.
- `Sweep`: the per-threshold benchmark loop, without timing and output.

## Model

| member | source | states |
|---|---|---|
| HybridSort.HybridMergeSort | HybridSortBenchmark.java:97-109 | For every threshold `s`, a range of two or more cells ends sorted and a permutation of what it held, and every cell outside `[left, right]` is unchanged. When `left >= right` the array is unchanged. |
| HybridSort.NextStep | HybridSortBenchmark.java:98-105 | A split point satisfies `left <= mid < right`. Both halves are therefore non-empty and strictly smaller, which is why the recursion ends, and the left half is the same size as the right or one larger. |
| HybridSort.MergeStepSortsRange | HybridSortBenchmark.java:105-108 | Sorting `[left, mid]` and `[mid + 1, right]` in place and then merging them sorts `[left, right]` and leaves the rest of the array alone. |
| HybridSort.ThresholdOneIsPureMergeSort | HybridSortBenchmark.java:100-104 | With `s <= 1`, a range of two or more elements always takes the split branch, never insertion sort. |
| HybridSort.LargeThresholdIsPureInsertionSort | HybridSortBenchmark.java:100-103 | A range no larger than `s` goes to insertion sort without splitting. |
| HybridSort.SplitArithmeticFitsInt32 | HybridSortBenchmark.java:100-105 | For array indices, `size` stays within the Java `int` range. When `NextStep` splits, its `mid` lies in `[left, right)`, so `mid` and `mid + 1` are `int` values too. |
| HybridSort.TextbookMidpointOverflows | HybridSortBenchmark.java:105 | Valid indices exist whose sum `left + right` exceeds the Java `int` range, while `left + (right - left) / 2` stays inside it. |
| Insertion.InsertionSort | HybridSortBenchmark.java:111-121 | The range `[left, right]` ends sorted and a permutation of what it held, cells outside it are unchanged, and a range of at most one element is a no-op. The loop invariants show that the prefix `[left, i - 1]` stays sorted and that the inner loop never moves below `left`. |
| Insertion.InsertStepSorts | HybridSortBenchmark.java:115-119 | When the shifting stops, putting the key into the gap leaves `[left, i]` sorted. |
| Insertion.InsertStepPermutes | HybridSortBenchmark.java:115-119 | Shifting larger elements right and dropping the key into the gap permutes `[left, i]`. |
| Insertion.SortedInPlaceSortsRange | HybridSortBenchmark.java:111-121 | A sorted range that holds a permutation of its old contents, with the rest of the array unchanged, satisfies `SortsRange`. |
| Merging.Merge | HybridSortBenchmark.java:123-143 | `arr[left..right]` becomes `Merged` of the old `arr[left..mid]` and `arr[mid+1..right]`, and nothing else changes. The halves need not be sorted for this to hold, matching the source. |
| Merging.MergeRuns | HybridSortBenchmark.java:131-138 | When the first loop ends, one half is used up. The cells written so far are exactly the first `i + j` elements of the merge, and what remains to merge is the rest of it. |
| Merging.Drain | HybridSortBenchmark.java:139-142 | A draining loop copies the rest of one half, `src[i..]`, to `arr[k..]`, ends with `i == |src|`, and advances `k` by the number of cells copied. |
| Merging.DrainsComplete | HybridSortBenchmark.java:139-142 | With one half used up, the two drains complete the merge. |
| SortSpec.Merged | HybridSortBenchmark.java:131-142 | The reference merge that `Merging.Merge` is proved to produce. Its length is the sum of the two runs' lengths. Its sortedness, permutation and tie properties are the lemmas below. |
| SortSpec.MergeFrom | HybridSortBenchmark.java:131-142 | The merge of what is left of the runs from positions `i` and `j` on. It takes `l[i]` when `l[i] <= r[j]` and `r[j]` otherwise, and copies the rest of one run once the other is used up. Its length is what is left of both runs. |
| SortSpec.MergedSorted | HybridSortBenchmark.java:132-142 | Merging two sorted runs gives a sorted permutation of their concatenation. |
| SortSpec.MergedPermutes | HybridSortBenchmark.java:132-142 | Merging is a permutation of the two runs, whether or not they are sorted. |
| SortSpec.MergedOrderedHalves | HybridSortBenchmark.java:133-134 | If everything in the left run is at most everything in the right run, the merge is the left run followed by the right run. This is the tie rule `L[i] <= R[j]` at work: equal elements from the left half come first. |
| SortSpec.SortedPermutationUnique | HybridSortBenchmark.java:97-109 | Two sorted sequences with the same multiset are equal. |
| SortSpec.SortingSortedIsIdentity | HybridSortBenchmark.java:97-109 | Any sorting of an already sorted sequence is that sequence. |
| SortSpec.SortsRangeIdempotent | HybridSortBenchmark.java:97-109 | Sorting a range that is already sorted leaves the array unchanged, so sorting is idempotent. |
| SortSpec.SortsRangeDeterministic | HybridSortBenchmark.java:97-109 | Any two outcomes that sort the same range of the same array are equal. So `hybridMergeSort` gives the same array for every threshold. |
| Thresholds.SampleCount | HybridSortBenchmark.java:40 | `M` is at least 2 and at least `samplePoints`. It is one of the two. |
| Thresholds.RoundHalfUp | HybridSortBenchmark.java:44-45 | The result is the nearest integer to `num / den`, with halves rounded up. |
| Thresholds.Clamp | HybridSortBenchmark.java:46-49 | For `N >= 1` a clamped sample lies in `[1, N]`: a sample below 1 becomes 1, a sample above `N` becomes `N`, and a sample already in `[1, N]` is unchanged. |
| Thresholds.SampleAt | HybridSortBenchmark.java:44-49 | The `i`-th sample, `1 + round(i * (N - 1) / (M - 1))` clamped; for `N >= 1` it lies in `[1, N]`. |
| Thresholds.Samples | HybridSortBenchmark.java:42-51 | The list of all samples, which `SampleThresholds` is proved to compute: it has `M` entries, and for `N >= 1` each lies in `[1, N]`. |
| Thresholds.ClampNeverFires | HybridSortBenchmark.java:44-49 | For `N >= 1` the rounded sample already lies in `[1, N]`, so neither clamp changes it. |
| Thresholds.SampleEndpoints | HybridSortBenchmark.java:43-45 | The first sample is 1 and the last is `N`: the endpoints are inclusive. |
| Thresholds.SamplesMonotone | HybridSortBenchmark.java:42-45 | Samples never decrease along the list. |
| Thresholds.SampleThresholds | HybridSortBenchmark.java:40-51 | The filled `sValues` array has `M` entries, and entry `i` is the `i`-th clamped sample. |
| Thresholds.InsertUnique | HybridSortBenchmark.java:54 | Adding one value to a strictly ascending list keeps it strictly ascending, and the new list holds exactly the old elements and that value. |
| Thresholds.DistinctSorted | HybridSortBenchmark.java:54 | `distinct().sorted()` is strictly ascending, so it has no duplicates, and holds exactly the input's values. |
| Thresholds.StrictlyAscendingUnique | HybridSortBenchmark.java:54 | Two strictly ascending lists with the same elements are equal, so the deduplicated list does not depend on the order of the samples. |
| Thresholds.SamplesSpan | HybridSortBenchmark.java:42-51 | For `N >= 1` every sample lies in `[1, N]`, and both 1 and `N` are among them. |
| Thresholds.ThresholdsSpan | HybridSortBenchmark.java:54 | A strictly ascending list with the same values as the samples starts at 1, ends at `N` and stays within `[1, N]`. |
| Thresholds.ThresholdList | HybridSortBenchmark.java:40-54 | The final threshold list is strictly ascending, holds exactly the sampled values, and for `N >= 1` runs from 1 to `N` inside `[1, N]`. |
| Sweep.WholeArraySorted | HybridSortBenchmark.java:66 | Sorting the range `[0, length - 1]` sorts the whole array. This includes arrays of at most one element, which are left alone. |
| Sweep.AppendSorting | HybridSortBenchmark.java:61-72 | Adding one more sorting of the master values keeps every output a sorting of them and keeps all outputs equal. |
| Sweep.SortedCopy | HybridSortBenchmark.java:63-66 | Sorting a fresh copy of the master array with any threshold gives a sorted permutation of the master array, and the master array is only read. |
| Sweep.Sweep | HybridSortBenchmark.java:61-72 | There is one output per threshold. Every output is a sorted permutation of the master array, and all outputs are identical, so the threshold changes only the running time. |

## Left out

- Argument parsing (lines 15-30) and `estimateArraySize` (lines 81-94) are left out. They depend on the command line and on `Runtime.maxMemory()` with floating-point scaling. `N` and `samplePoints` are parameters of the model.
- The master array is filled by `java.util.Random` (lines 34-37). This is left out, and the master array is an arbitrary input.
- Timing, `System.gc()`, console output and the CSV file (lines 55-77) are left out because they are I/O and wall-clock measurement. `Sweep.Sweep` returns the sorted copies instead of writing times.
- Thresholds.RoundHalfUp: `Math.round(frac * (N - 1))` is computed in `double`. The model rounds the exact quotient `i * (N - 1) / (M - 1)`, with halves rounded up. Wherever the double product lands on the other side of a half from the exact quotient, the model's sample may differ by one from Java's. This can happen at exact halves, or with a very large `M * N` when the quotient is within double rounding error of a half. At the endpoints `frac` is exactly 0 and 1.0, so `SampleEndpoints` holds for the Java program too. The clamp bounds the Java samples to `[1, N]` whatever the rounding.
- HybridSort.HybridMergeSort, Insertion.InsertionSort and Merging.Merge require indices inside the array, and `Merge` also requires `left - 1 <= mid <= right`. Outside these, Java throws `ArrayIndexOutOfBoundsException`, or `NegativeArraySizeException` from `new int[n1]` when `mid < left - 1` or from `new int[n2]` when `mid > right`. The exceptions are not modelled; `main` only calls with `left = 0` and `right = length - 1`, where they cannot occur.
- Java `int` overflow is not modelled in general. Integers are unbounded, and the array values are only compared, never added. `HybridSort.SplitArithmeticFitsInt32` shows that the index arithmetic of `hybridMergeSort` stays in range.
- Merging.Merge: the temporary arrays `L` and `R` filled by `System.arraycopy` are modelled as immutable copies (`seq<int>`) of the two halves. `n1` and `n2` are their lengths. No aliasing can arise from them, so none is modelled.
- Stability is not stated as a separate property. The elements are plain `int` values, so equal elements cannot be told apart. The tie rule `L[i] <= R[j]` is fixed by the definition of `SortSpec.Merged` and shown by `SortSpec.MergedOrderedHalves`.
- `distinct().sorted()` is a library stream. It is modelled by the pure function `Thresholds.DistinctSorted`, which is specified by its result, not by how the stream computes it.
- `plot_results.py` is plotting only and is not part of this model.
