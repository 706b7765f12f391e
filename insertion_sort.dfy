/** The `insertionSort` routine of HybridSortBenchmark.java, which sorts an
    inclusive index range of an array in place by shifting larger elements
    right to open a gap for each new key. */
module Insertion {
  import opened SortSpec

  /** insertionSort(arr, left, right): sorts the inclusive range [left, right]
      in place, shifting larger elements one cell right to open a gap for
      each new key. A range of at most one element is left alone. */
  method InsertionSort(arr: array<int>, left: int, right: int)
    requires left >= right || (0 <= left && right < arr.Length)
    modifies arr
    ensures left >= right ==> arr[..] == old(arr[..])
    ensures 0 <= left <= right < arr.Length ==> SortsRange(arr[..], old(arr[..]), left, right)
  {
    if left >= right {
      // the source's outer loop runs no iteration
      return;
    }
    var i := left + 1;
    while i <= right
      invariant PrefixInserted(arr[..], old(arr[..]), left, right, i)
    {
      var key := arr[i];
      var j := i - 1;
      ghost var orig := arr[..];
      while j >= left && arr[j] > key
        invariant Shifting(orig, arr[..], left, i, j)
      {
        ShiftOne(orig, arr[..], left, i, j);
        arr[j + 1] := arr[j];
        j := j - 1;
      }
      InsertStep(old(arr[..]), orig, arr[..], left, right, i, j);
      arr[j + 1] := key;
      i := i + 1;
    }
    PrefixInsertedSortsRange(arr[..], old(arr[..]), left, right);
  }

  /** The invariant of the outer loop of insertion sort: [left, i) is sorted,
      the array holds the elements it started with, and nothing outside
      [left, right] has moved. */
  ghost predicate PrefixInserted(a: seq<int>, before: seq<int>, left: int, right: int, i: int) {
    && 0 <= left < i <= right + 1 <= |a| == |before|
    && Sorted(a[left..i])
    && multiset(a) == multiset(before)
    && a[..left] == before[..left]
    && a[right + 1..] == before[right + 1..]
  }

  /** When the outer loop ends, the whole range is sorted in place. */
  lemma PrefixInsertedSortsRange(a: seq<int>, before: seq<int>, left: int, right: int)
    requires PrefixInserted(a, before, left, right, right + 1)
    ensures SortsRange(a, before, left, right)
  {
    SortedInPlaceSortsRange(a, before, left, right);
  }

  /** The state of the inner loop of insertion sort: the elements of
      [j + 1, i) of `orig` are all larger than the key orig[i] and have each
      moved one cell right; every other cell (the gap at j + 1 included)
      still holds its original value. */
  ghost predicate Shifting(orig: seq<int>, a: seq<int>, left: int, i: int, j: int) {
    && |a| == |orig|
    && 0 <= left <= j + 1 <= i < |a|
    && (forall k :: 0 <= k < |a| && (k <= j + 1 || i < k) ==> a[k] == orig[k])
    && (forall k :: j + 2 <= k <= i ==> a[k] == orig[k - 1])
    && (forall k :: j + 1 <= k < i ==> orig[k] > orig[i])
  }

  /** Shifting one more larger element into the gap keeps the inner-loop state. */
  lemma ShiftOne(orig: seq<int>, a: seq<int>, left: int, i: int, j: int)
    requires Shifting(orig, a, left, i, j)
    requires j >= left && a[j] > orig[i]
    ensures Shifting(orig, a[j + 1 := a[j]], left, i, j - 1)
  {
  }

  /** One pass of the outer loop of insertion sort: writing the key orig[i]
      into the gap the inner loop stopped at extends the sorted prefix by one. */
  lemma InsertStep(before: seq<int>, orig: seq<int>, gap: seq<int>, left: int, right: int, i: int, j: int)
    requires PrefixInserted(orig, before, left, right, i) && i <= right
    requires Shifting(orig, gap, left, i, j)
    requires j >= left ==> gap[j] <= orig[i]
    ensures PrefixInserted(gap[j + 1 := orig[i]], before, left, right, i + 1)
  {
    var a := gap[j + 1 := orig[i]];
    InsertStepSorts(orig, a, left, i, j);
    InsertStepPermutes(orig, a, i, j);
    assert a[..left] == orig[..left];
    assert a[right + 1..] == orig[right + 1..];
  }

  /** One pass of the outer loop of insertion sort: with [left, i) sorted, the
      key orig[i] is written into the gap at j + 1 after the elements in
      [j + 1, i) (all larger than the key) moved one cell right. The result has
      [left, i] sorted. */
  lemma InsertStepSorts(orig: seq<int>, a: seq<int>, left: int, i: int, j: int)
    requires 0 <= left < i < |orig| == |a|
    requires left - 1 <= j <= i - 1
    requires Sorted(orig[left..i])
    requires forall k :: j + 1 <= k < i ==> orig[k] > orig[i]
    requires j >= left ==> orig[j] <= orig[i]
    requires forall k :: left <= k <= j ==> a[k] == orig[k]
    requires forall k :: j + 2 <= k <= i ==> a[k] == orig[k - 1]
    requires a[j + 1] == orig[i]
    ensures Sorted(a[left..i + 1])
  {
    assert forall p, q :: left <= p < q < i ==> orig[p] <= orig[q] by {
      forall p, q | left <= p < q < i ensures orig[p] <= orig[q] {
        assert orig[left..i][p - left] <= orig[left..i][q - left];
      }
    }
    forall p, q | left <= p < q <= i ensures a[p] <= a[q] {
      if q <= j {
      } else if q == j + 1 {
        assert orig[p] <= orig[j];
      } else if p <= j {
        assert orig[p] <= orig[q - 1];
      } else if p == j + 1 {
      } else {
        assert orig[p - 1] <= orig[q - 1];
      }
    }
  }

  /** The same pass moves elements but neither adds nor loses any. */
  lemma InsertStepPermutes(orig: seq<int>, a: seq<int>, i: int, j: int)
    requires 0 <= i < |orig| == |a|
    requires -1 <= j <= i - 1
    requires forall k :: 0 <= k < |a| && (k <= j || i < k) ==> a[k] == orig[k]
    requires forall k :: j + 2 <= k <= i ==> a[k] == orig[k - 1]
    requires a[j + 1] == orig[i]
    ensures multiset(a) == multiset(orig)
  {
    var front, moved, key, back := orig[..j + 1], orig[j + 1..i], orig[i], orig[i + 1..];
    assert orig == front + moved + [key] + back;
    forall k | 0 <= k < |a| ensures a[k] == (front + [key] + moved + back)[k] {
      if k <= j {
      } else if k == j + 1 {
      } else if k <= i {
      } else {
      }
    }
    assert a == front + [key] + moved + back;
  }

  /** A range that is sorted, inside an array that is a permutation of what
      it was and unchanged on both sides of the range, is a sorted permutation
      of the range. */
  lemma SortedInPlaceSortsRange(after: seq<int>, before: seq<int>, left: int, right: int)
    requires 0 <= left <= right < |before| == |after|
    requires multiset(after) == multiset(before)
    requires after[..left] == before[..left] && after[right + 1..] == before[right + 1..]
    requires Sorted(after[left..right + 1])
    ensures SortsRange(after, before, left, right)
  {
    var front, back := before[..left], before[right + 1..];
    assert after == front + after[left..right + 1] + back;
    assert before == front + before[left..right + 1] + back;
    assert multiset(after) == multiset(front) + multiset(after[left..right + 1]) + multiset(back);
    assert multiset(before) == multiset(front) + multiset(before[left..right + 1]) + multiset(back);
    assert multiset(after[left..right + 1]) == multiset(after) - multiset(front) - multiset(back);
  }
}
