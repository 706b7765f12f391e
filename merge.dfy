/** The `merge` routine of HybridSortBenchmark.java, which joins two adjacent
    runs of an array in place through copies of both runs. */
module Merging {
  import opened SortSpec

  /** `a` with the cells from index k on overwritten by `s`. */
  function Overwrite(a: seq<int>, k: int, s: seq<int>): (r: seq<int>)
    requires 0 <= k && k + |s| <= |a|
  {
    a[..k] + s + a[k + |s|..]
  }

  /** The array part-way through the merge: the first n merged elements written from `left` on. */
  function Partial(before: seq<int>, m: seq<int>, left: int, n: int): (a: seq<int>)
    requires 0 <= left && 0 <= n <= |m| && left + |m| <= |before|
  {
    before[..left] + m[..n] + before[left + n..]
  }

  /** Writing the next merged element extends the written prefix by one. */
  lemma WriteNext(before: seq<int>, m: seq<int>, left: int, n: int, k: int, x: int)
    requires 0 <= left && 0 <= n < |m| && left + |m| <= |before|
    requires k == left + n && x == m[n]
    ensures Partial(before, m, left, n)[k := x] == Partial(before, m, left, n + 1)
  {
    var a := Partial(before, m, left, n)[k := x];
    var b := Partial(before, m, left, n + 1);
    assert |a| == |b|;
    forall t | 0 <= t < |a| ensures a[t] == b[t] {
      if t < left {
      } else if t < left + n {
        assert a[t] == m[..n][t - left];
      } else if t > left + n {
        assert a[t] == before[left + n..][t - left - n];
      }
    }
  }

  /** Writing a stretch that continues the merge extends the written prefix by its length. */
  lemma DrainWritten(before: seq<int>, m: seq<int>, left: int, n: int, k: int, rest: seq<int>, n': int)
    requires 0 <= left && 0 <= n && n' == n + |rest| <= |m| && left + |m| <= |before|
    requires m[n..n'] == rest && k == left + n
    ensures Overwrite(Partial(before, m, left, n), k, rest) == Partial(before, m, left, n')
  {
    assert m[..n + |rest|] == m[..n] + rest;
  }

  /** The merge loop takes from the left run: the next merged element is ls[i]. */
  lemma TakeLeft(ls: seq<int>, rs: seq<int>, m: seq<int>, i: nat, j: nat, n: int)
    requires i < |ls| && j < |rs| && ls[i] <= rs[j]
    requires n == i + j < |m| && MergeFrom(ls, rs, i, j) == m[n..]
    ensures m[n] == ls[i] && MergeFrom(ls, rs, i + 1, j) == m[n + 1..]
  {
    assert m[n + 1..] == m[n..][1..];
  }

  /** The merge loop takes from the right run: the next merged element is rs[j]. */
  lemma TakeRight(ls: seq<int>, rs: seq<int>, m: seq<int>, i: nat, j: nat, n: int)
    requires i < |ls| && j < |rs| && ls[i] > rs[j]
    requires n == i + j < |m| && MergeFrom(ls, rs, i, j) == m[n..]
    ensures m[n] == rs[j] && MergeFrom(ls, rs, i, j + 1) == m[n + 1..]
  {
    assert m[n + 1..] == m[n..][1..];
  }

  /** Once one run is exhausted, what remains of the merge is the two tails in order. */
  lemma RestOfMerge(ls: seq<int>, rs: seq<int>, m: seq<int>, i: nat, j: nat)
    requires i <= |ls| && j <= |rs| && (i == |ls| || j == |rs|)
    requires i + j <= |m| && MergeFrom(ls, rs, i, j) == m[i + j..]
    ensures |ls| + |rs| == |m|
    ensures m[i + j..|ls| + j] == ls[i..]
    ensures m[|ls| + j..|m|] == rs[j..]
  {
    assert m[i + j..] == ls[i..] + rs[j..];
    assert m[i + j..|ls| + j] == (ls[i..] + rs[j..])[..|ls| - i];
    assert m[|ls| + j..|m|] == (ls[i..] + rs[j..])[|ls| - i..];
  }

  /** With every merged element written, the range holds the whole merge. */
  lemma PartialComplete(before: seq<int>, m: seq<int>, left: int, right: int)
    requires 0 <= left && right + 1 == left + |m| <= |before|
    ensures Partial(before, m, left, |m|) == before[..left] + m + before[right + 1..]
  {
    assert m[..|m|] == m;
  }

  /** Writing x and then y right after the first n merged elements, where x
      and y are the rest of the merge, leaves the whole merge in place. */
  lemma TwoDrains(before: seq<int>, m: seq<int>, left: int, right: int, n: int, n': int,
                  k: int, k': int, x: seq<int>, y: seq<int>)
    requires 0 <= left && right + 1 == left + |m| <= |before|
    requires 0 <= n && n' == n + |x| && |m| == n' + |y|
    requires m[n..n'] == x && m[n'..|m|] == y
    requires k == left + n && k' == left + n'
    ensures Overwrite(Overwrite(Partial(before, m, left, n), k, x), k', y)
            == before[..left] + m + before[right + 1..]
  {
    DrainWritten(before, m, left, n, k, x, n');
    DrainWritten(before, m, left, n', k', y, |m|);
    PartialComplete(before, m, left, right);
  }

  /** After the main loop stops, writing the rest of the left run and then the
      rest of the right run leaves exactly the merged runs in place. */
  lemma DrainsComplete(before: seq<int>, ls: seq<int>, rs: seq<int>, left: int, right: int,
                       i: int, j: int, k: int, k': int, a: seq<int>)
    requires 0 <= left && right + 1 == left + |ls| + |rs| <= |before|
    requires 0 <= i <= |ls| && 0 <= j <= |rs| && (i == |ls| || j == |rs|)
    requires k == left + i + j && k' == k + |ls| - i
    requires MergeFrom(ls, rs, i, j) == Merged(ls, rs)[i + j..]
    requires a == Partial(before, Merged(ls, rs), left, i + j)
    ensures Overwrite(Overwrite(a, k, ls[i..]), k', rs[j..]) == before[..left] + Merged(ls, rs) + before[right + 1..]
  {
    var m := Merged(ls, rs);
    RestOfMerge(ls, rs, m, i, j);
    TwoDrains(before, m, left, right, i + j, |ls| + j, k, k', ls[i..], rs[j..]);
  }

  /** One of the two trailing loops of merge: copy src[i..] into arr from index k on. */
  method Drain(arr: array<int>, src: seq<int>, i: int, k: int) returns (i': int, k': int)
    requires 0 <= i <= |src| && 0 <= k && k + |src| - i <= arr.Length
    modifies arr
    ensures i' == |src| && k' == k + |src| - i
    ensures arr[..] == Overwrite(old(arr[..]), k, src[i..])
  {
    i', k' := i, k;
    while i' < |src|
      invariant i <= i' <= |src| && k' == k + i' - i
      invariant arr[..k] == old(arr[..k]) && arr[k..k'] == src[i..i'] && arr[k + |src| - i..] == old(arr[k + |src| - i..])
    {
      arr[k'] := src[i'];
      i' := i' + 1;
      k' := k' + 1;
    }
  }

  /** The main loop of merge: take the smaller front element of the two runs, the left one on
      ties, until one run is used up. */
  method MergeRuns(arr: array<int>, L: seq<int>, R: seq<int>, left: int) returns (i: int, j: int, k: int)
    requires 0 <= left && left + |L| + |R| <= arr.Length
    modifies arr
    ensures 0 <= i <= |L| && 0 <= j <= |R| && (i == |L| || j == |R|) && k == left + i + j
    ensures arr[..] == Partial(old(arr[..]), Merged(L, R), left, i + j)
    ensures MergeFrom(L, R, i, j) == Merged(L, R)[i + j..]
  {
    ghost var before := arr[..];
    ghost var m := Merged(L, R);
    i, j, k := 0, 0, left;
    ghost var n := 0;
    while i < |L| && j < |R|
      invariant 0 <= i <= |L| && 0 <= j <= |R| && n == i + j && k == left + n
      invariant arr[..] == Partial(before, m, left, n)
      invariant MergeFrom(L, R, i, j) == m[n..]
    {
      if L[i] <= R[j] {
        TakeLeft(L, R, m, i, j, n);
        WriteNext(before, m, left, n, k, L[i]);
        arr[k] := L[i];
        i := i + 1;
      } else {
        TakeRight(L, R, m, i, j, n);
        WriteNext(before, m, left, n, k, R[j]);
        arr[k] := R[j];
        j := j + 1;
      }
      k := k + 1;
      n := n + 1;
    }
  }

  /** merge(arr, left, mid, right): copies the runs [left, mid] and
      [mid + 1, right] out, runs the main loop, then copies what is left of
      the left run and then of the right run back. The range ends up holding
      the merge of the two runs; cells outside it are untouched. */
  method Merge(arr: array<int>, left: int, mid: int, right: int)
    requires 0 <= left <= mid + 1 <= right + 1 <= arr.Length
    modifies arr
    ensures arr[..] == old(arr[..left])
                       + Merged(old(arr[left..mid + 1]), old(arr[mid + 1..right + 1]))
                       + old(arr[right + 1..])
  {
    ghost var before := arr[..];
    var L := arr[left..mid + 1];
    var R := arr[mid + 1..right + 1];
    var i, j, k := MergeRuns(arr, L, R, left);
    DrainsComplete(before, L, R, left, right, i, j, k, k + |L| - i, arr[..]);
    i, k := Drain(arr, L, i, k);
    j, k := Drain(arr, R, j, k);
  }
}
