/** Specification vocabulary for the hybrid merge/insertion sort: sortedness,
    the stable two-way merge the `merge` routine performs, and the fact that a
    sorted permutation of a sequence is unique. */
module SortSpec {

  /** Non-decreasing order. */
  predicate Sorted(s: seq<int>) {
    forall i, j :: 0 <= i < j < |s| ==> s[i] <= s[j]
  }

  /** `r` is `s` rearranged into non-decreasing order. */
  predicate IsSortingOf(r: seq<int>, s: seq<int>) {
    Sorted(r) && multiset(r) == multiset(s)
  }

  /** The outcome of sorting the inclusive index range [left, right] of `before`
      in place: the range holds a sorted permutation of what it held, and every
      cell outside the range is as it was. */
  predicate SortsRange(after: seq<int>, before: seq<int>, left: int, right: int)
    requires 0 <= left <= right < |before|
  {
    && |after| == |before|
    && after[..left] == before[..left]
    && after[right + 1..] == before[right + 1..]
    && IsSortingOf(after[left..right + 1], before[left..right + 1])
  }

  /** The interleaving `merge` writes back over a range: repeatedly take the
      smaller front element of the two runs, the left one on ties, and append
      the rest of whichever run is left over once the other is used up. */
  function Merged(l: seq<int>, r: seq<int>): (m: seq<int>)
    ensures |m| == |l| + |r|
  {
    MergeFrom(l, r, 0, 0)
  }

  /** The rest of the merge once i elements of `l` and j of `r` are taken. */
  function MergeFrom(l: seq<int>, r: seq<int>, i: nat, j: nat): (m: seq<int>)
    requires i <= |l| && j <= |r|
    ensures |m| == |l| - i + |r| - j
    decreases |l| - i + |r| - j
  {
    if i == |l| then r[j..]
    else if j == |r| then l[i..]
    else if l[i] <= r[j] then [l[i]] + MergeFrom(l, r, i + 1, j)
    else [r[j]] + MergeFrom(l, r, i, j + 1)
  }

  /** Splitting the first element off a suffix, as a multiset. */
  lemma SuffixSplit(s: seq<int>, i: nat)
    requires i < |s|
    ensures multiset(s[i..]) == multiset{s[i]} + multiset(s[i + 1..])
  {
    assert s[i..] == [s[i]] + s[i + 1..];
  }

  /** The rest of the merge holds exactly the untaken elements of both runs. */
  lemma {:induction false} MergeFromPermutes(l: seq<int>, r: seq<int>, i: nat, j: nat)
    requires i <= |l| && j <= |r|
    ensures multiset(MergeFrom(l, r, i, j)) == multiset(l[i..]) + multiset(r[j..])
    decreases |l| - i + |r| - j
  {
    if i == |l| {
      assert l[i..] == [];
    } else if j == |r| {
      assert r[j..] == [];
    } else if l[i] <= r[j] {
      MergeFromPermutes(l, r, i + 1, j);
      SuffixSplit(l, i);
    } else {
      MergeFromPermutes(l, r, i, j + 1);
      SuffixSplit(r, j);
    }
  }

  /** Merging neither adds nor loses an element. */
  lemma MergedPermutes(l: seq<int>, r: seq<int>)
    ensures multiset(Merged(l, r)) == multiset(l) + multiset(r)
  {
    MergeFromPermutes(l, r, 0, 0);
    assert l[0..] == l && r[0..] == r;
  }

  /** A value below every element of `s` stays sorted when put in front. */
  lemma SortedCons(x: int, s: seq<int>)
    requires Sorted(s)
    requires forall y :: y in multiset(s) ==> x <= y
    ensures Sorted([x] + s)
  {
    forall i, j | 0 <= i < j < |[x] + s|
      ensures ([x] + s)[i] <= ([x] + s)[j]
    {
      if i == 0 {
        assert ([x] + s)[j] == s[j - 1];
        assert s[j - 1] in multiset(s);
      }
    }
  }

  /** Every untaken element of two sorted runs is at least the front of either run. */
  lemma RestAtLeast(l: seq<int>, r: seq<int>, i: nat, j: nat, x: int, y: int)
    requires Sorted(l) && Sorted(r) && i <= |l| && j <= |r|
    requires y in multiset(l[i..]) + multiset(r[j..])
    requires i == |l| || x <= l[i]
    requires j == |r| || x <= r[j]
    ensures x <= y
  {
    if y in multiset(l[i..]) {
      var t :| 0 <= t < |l[i..]| && l[i..][t] == y;
      assert l[i + t] == y;
    } else {
      var t :| 0 <= t < |r[j..]| && r[j..][t] == y;
      assert r[j + t] == y;
    }
  }

  /** The element the merge takes next is at most everything merged after it. */
  lemma TakenFirst(l: seq<int>, r: seq<int>, i: nat, j: nat, x: int)
    requires Sorted(l) && Sorted(r) && i <= |l| && j <= |r|
    requires i == |l| || x <= l[i]
    requires j == |r| || x <= r[j]
    requires Sorted(MergeFrom(l, r, i, j))
    ensures Sorted([x] + MergeFrom(l, r, i, j))
  {
    MergeFromPermutes(l, r, i, j);
    forall y | y in multiset(MergeFrom(l, r, i, j)) ensures x <= y {
      RestAtLeast(l, r, i, j, x, y);
    }
    SortedCons(x, MergeFrom(l, r, i, j));
  }

  /** Merging two sorted runs yields a sorted sequence. */
  lemma {:induction false} MergeFromSorted(l: seq<int>, r: seq<int>, i: nat, j: nat)
    requires Sorted(l) && Sorted(r) && i <= |l| && j <= |r|
    ensures Sorted(MergeFrom(l, r, i, j))
    decreases |l| - i + |r| - j
  {
    if i == |l| || j == |r| {
    } else if l[i] <= r[j] {
      MergeFromSorted(l, r, i + 1, j);
      TakenFirst(l, r, i + 1, j, l[i]);
    } else {
      MergeFromSorted(l, r, i, j + 1);
      TakenFirst(l, r, i, j + 1, r[j]);
    }
  }

  /** Merging two sorted runs sorts their concatenation. */
  lemma MergedSorted(l: seq<int>, r: seq<int>)
    requires Sorted(l) && Sorted(r)
    ensures IsSortingOf(Merged(l, r), l + r)
  {
    MergeFromSorted(l, r, 0, 0);
    MergedPermutes(l, r);
  }

  /** When every element of the left run is at most every element of the
      right run, merging is plain concatenation: with ties taken from the
      left, no right element ever overtakes a left one. */
  lemma {:induction false} MergeFromOrderedHalves(l: seq<int>, r: seq<int>, i: nat)
    requires i <= |l|
    requires forall p, q :: 0 <= p < |l| && 0 <= q < |r| ==> l[p] <= r[q]
    ensures MergeFrom(l, r, i, 0) == l[i..] + r
    decreases |l| - i
  {
    if i == |l| || r == [] {
    } else {
      assert l[i] <= r[0];
      MergeFromOrderedHalves(l, r, i + 1);
      assert l[i..] == [l[i]] + l[i + 1..];
    }
  }

  lemma MergedOrderedHalves(l: seq<int>, r: seq<int>)
    requires forall p, q :: 0 <= p < |l| && 0 <= q < |r| ==> l[p] <= r[q]
    ensures Merged(l, r) == l + r
  {
    MergeFromOrderedHalves(l, r, 0);
  }

  /** The first element of a sorted sequence is its least element. */
  lemma HeadIsLeast(s: seq<int>, y: int)
    requires Sorted(s) && y in multiset(s)
    ensures s != [] && s[0] <= y
  {
    var k :| 0 <= k < |s| && s[k] == y;
  }

  /** Removing the same first element from two permutations of each other
      leaves permutations of each other. */
  lemma TailsPermute(a: seq<int>, b: seq<int>)
    requires a != [] && b != [] && a[0] == b[0] && multiset(a) == multiset(b)
    ensures multiset(a[1..]) == multiset(b[1..])
  {
    SuffixSplit(a, 0);
    SuffixSplit(b, 0);
    assert a[0..] == a && b[0..] == b;
    assert multiset(a[1..]) == multiset(a) - multiset{a[0]};
  }

  /** Two sorted sequences with the same elements are the same sequence: the
      result of sorting does not depend on how it was sorted. */
  lemma {:induction false} SortedPermutationUnique(a: seq<int>, b: seq<int>)
    requires Sorted(a) && Sorted(b)
    requires multiset(a) == multiset(b)
    ensures a == b
  {
    if a == [] {
      assert |multiset(b)| == 0;
    } else {
      HeadIsLeast(b, a[0]);
      HeadIsLeast(a, b[0]);
      TailsPermute(a, b);
      SortedPermutationUnique(a[1..], b[1..]);
      assert a == [a[0]] + a[1..];
      assert b == [b[0]] + b[1..];
    }
  }

  /** Sorting a sequence that is already sorted gives it back unchanged. */
  lemma SortingSortedIsIdentity(r: seq<int>, s: seq<int>)
    requires Sorted(s) && IsSortingOf(r, s)
    ensures r == s
  {
    SortedPermutationUnique(r, s);
  }

  /** A range sort of a range that is already sorted changes nothing. */
  lemma SortsRangeIdempotent(after: seq<int>, before: seq<int>, left: int, right: int)
    requires 0 <= left <= right < |before|
    requires SortsRange(after, before, left, right)
    requires Sorted(before[left..right + 1])
    ensures after == before
  {
    SortingSortedIsIdentity(after[left..right + 1], before[left..right + 1]);
    assert after == after[..left] + after[left..right + 1] + after[right + 1..];
    assert before == before[..left] + before[left..right + 1] + before[right + 1..];
  }

  /** Any two range sorts of the same range produce the same array. */
  lemma SortsRangeDeterministic(a1: seq<int>, a2: seq<int>, before: seq<int>, left: int, right: int)
    requires 0 <= left <= right < |before|
    requires SortsRange(a1, before, left, right) && SortsRange(a2, before, left, right)
    ensures a1 == a2
  {
    SortedPermutationUnique(a1[left..right + 1], a2[left..right + 1]);
    assert a1 == a1[..left] + a1[left..right + 1] + a1[right + 1..];
    assert a2 == a2[..left] + a2[left..right + 1] + a2[right + 1..];
  }
}
