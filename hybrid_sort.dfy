/** The hybrid merge/insertion sort of HybridSortBenchmark.java: `hybridMergeSort`
    splits an inclusive index range at its midpoint until the range is no larger
    than the threshold `s`, sorts such ranges with `insertionSort`, and joins
    the sorted halves with `merge`. All three work in place on one array. */
module HybridSort {
  import opened SortSpec
  import opened Insertion
  import opened Merging

  /** The largest value of a Java `int`. */
  const MaxInt32: int := 0x7FFF_FFFF

  /** What `hybridMergeSort` does with the range [left, right] under threshold s. */
  datatype Step =
    | Done              // at most one element: nothing to do
    | InsertionBase     // no larger than the threshold: insertion sort
    | Split(mid: int)   // sort [left, mid] and [mid + 1, right], then merge

  /** The branch `hybridMergeSort` takes. A split point leaves both halves
      non-empty and strictly smaller than the range, with the left half equal
      to the right one or one element longer. */
  function NextStep(left: int, right: int, s: int): (st: Step)
    ensures st.Split? ==> left <= st.mid < right
    ensures st.Split? ==> 0 <= (st.mid - left + 1) - (right - st.mid) <= 1
  {
    if left >= right then Done
    else if right - left + 1 <= s then InsertionBase
    else Split(left + (right - left) / 2)
  }

  /** With a threshold of at most one, no range of two or more elements is
      handed to insertion sort: the sort is a pure merge sort. */
  lemma ThresholdOneIsPureMergeSort(left: int, right: int, s: int)
    requires s <= 1 && left < right
    ensures NextStep(left, right, s).Split?
  {
  }

  /** A threshold at least the size of the range sorts it by insertion sort
      alone, without any split. */
  lemma LargeThresholdIsPureInsertionSort(left: int, right: int, s: int)
    requires left < right && right - left + 1 <= s
    ensures NextStep(left, right, s) == InsertionBase
  {
  }

  /** For indices of a Java array (below `MaxInt32`), the size and the split
      point `hybridMergeSort` uses are computed without leaving the `int` range. */
  lemma SplitArithmeticFitsInt32(left: int, right: int, s: int)
    requires 0 <= left < right < MaxInt32
    ensures 0 < right - left + 1 <= MaxInt32
    ensures NextStep(left, right, s).Split? ==> 0 <= NextStep(left, right, s).mid && NextStep(left, right, s).mid + 1 <= MaxInt32
  {
  }

  /** Valid indices exist whose sum leaves the `int` range, so the textbook
      midpoint `(left + right) / 2` would overflow where the one used here
      does not. */
  lemma TextbookMidpointOverflows()
    ensures var left, right := MaxInt32 - 2, MaxInt32 - 1;
      && 0 <= left < right < MaxInt32
      && left + right > MaxInt32
      && left + (right - left) / 2 <= MaxInt32
  {
  }

  /** Sorting both halves of a range in place and merging them sorts the range. */
  lemma MergeStepSortsRange(a0: seq<int>, a1: seq<int>, a2: seq<int>, a3: seq<int>,
                            left: int, mid: int, right: int)
    requires 0 <= left <= mid < right < |a0|
    requires SortsRange(a1, a0, left, mid)
    requires SortsRange(a2, a1, mid + 1, right)
    requires a3 == a2[..left] + Merged(a2[left..mid + 1], a2[mid + 1..right + 1]) + a2[right + 1..]
    ensures SortsRange(a3, a0, left, right)
  {
    var lo, hi := a2[left..mid + 1], a2[mid + 1..right + 1];
    assert lo == a2[..mid + 1][left..] == a1[..mid + 1][left..] == a1[left..mid + 1];
    assert a1[mid + 1..right + 1] == a1[mid + 1..][..right - mid] == a0[mid + 1..][..right - mid]
        == a0[mid + 1..right + 1];
    MergedSorted(lo, hi);
    assert a3[left..right + 1] == Merged(lo, hi);
    assert a0[left..right + 1] == a0[left..mid + 1] + a0[mid + 1..right + 1];
    assert a3[..left] == a2[..left] == a2[..mid + 1][..left] == a1[..mid + 1][..left]
        == a1[..left] == a0[..left];
    assert a3[right + 1..] == a2[right + 1..] == a1[right + 1..] == a1[mid + 1..][right - mid..]
        == a0[mid + 1..][right - mid..] == a0[right + 1..];
  }

  /** hybridMergeSort(arr, left, right, s): sorts the inclusive range
      [left, right] in place for every threshold s; a range of at most one
      element (in particular left > right) is left alone. */
  method HybridMergeSort(arr: array<int>, left: int, right: int, s: int)
    requires left >= right || (0 <= left && right < arr.Length)
    modifies arr
    ensures left >= right ==> arr[..] == old(arr[..])
    ensures 0 <= left <= right < arr.Length ==> SortsRange(arr[..], old(arr[..]), left, right)
    decreases right - left
  {
    match NextStep(left, right, s)
    case Done =>
    case InsertionBase =>
      InsertionSort(arr, left, right);
    case Split(mid) =>
      ghost var a0 := arr[..];
      HybridMergeSort(arr, left, mid, s);
      ghost var a1 := arr[..];
      HybridMergeSort(arr, mid + 1, right, s);
      ghost var a2 := arr[..];
      Merge(arr, left, mid, right);
      MergeStepSortsRange(a0, a1, a2, arr[..], left, mid, right);
  }
}
