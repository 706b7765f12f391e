/** The benchmark loop of `main` in HybridSortBenchmark.java, without its
    clock and its output: for every threshold, sort a fresh copy of the
    master array with that threshold. */
module Sweep {
  import opened SortSpec
  import opened HybridSort

  /** Sorting the whole of an array, that is the range [0, |before| - 1] (left
      alone when it has at most one cell), sorts the array. */
  lemma WholeArraySorted(after: seq<int>, before: seq<int>)
    requires |before| <= 1 ==> after == before
    requires |before| > 1 ==> SortsRange(after, before, 0, |before| - 1)
    ensures IsSortingOf(after, before)
  {
    if |before| > 1 {
      assert after[0..|before|] == after && before[0..|before|] == before;
    }
  }

  /** Every output is a sorting of `m`, and all outputs are the same. */
  ghost predicate AgreeingSortings(outputs: seq<seq<int>>, m: seq<int>) {
    forall t :: 0 <= t < |outputs| ==> IsSortingOf(outputs[t], m) && outputs[t] == outputs[0]
  }

  /** One more sorting of the same values agrees with the ones before it. */
  lemma AppendSorting(outputs: seq<seq<int>>, o: seq<int>, m: seq<int>)
    requires AgreeingSortings(outputs, m) && IsSortingOf(o, m)
    ensures AgreeingSortings(outputs + [o], m)
  {
    if outputs != [] {
      SortedPermutationUnique(o, outputs[0]);
    }
  }

  /** One trial: a fresh copy of `master`, sorted with threshold s. */
  method SortedCopy(master: array<int>, s: int) returns (sorted: seq<int>)
    ensures IsSortingOf(sorted, master[..])
  {
    var copy := new int[master.Length];
    forall p | 0 <= p < master.Length {
      copy[p] := master[p];
    }
    assert copy[..] == master[..];
    HybridMergeSort(copy, 0, copy.Length - 1, s);
    WholeArraySorted(copy[..], master[..]);
    sorted := copy[..];
  }

  /** Sorts a copy of `master` with each threshold in turn and returns the
      sorted copies in the same order. The master array is only read. */
  method Sweep(master: array<int>, thresholds: seq<int>) returns (outputs: seq<seq<int>>)
    ensures |outputs| == |thresholds|
    ensures forall t :: 0 <= t < |outputs| ==> IsSortingOf(outputs[t], master[..])
    ensures forall t :: 0 <= t < |outputs| ==> outputs[t] == outputs[0]
  {
    ghost var m := master[..];
    outputs := [];
    var t := 0;
    while t < |thresholds|
      invariant 0 <= t <= |thresholds| && |outputs| == t
      invariant master[..] == m
      invariant AgreeingSortings(outputs, m)
    {
      var sorted := SortedCopy(master, thresholds[t]);
      AppendSorting(outputs, sorted, m);
      outputs := outputs + [sorted];
      t := t + 1;
    }
  }
}
