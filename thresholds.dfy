/** The list of thresholds `main` in HybridSortBenchmark.java benchmarks: M
    evenly spaced samples between 1 and N, each clamped to [1, N], with
    duplicates removed and the rest put in ascending order. */
module Thresholds {

  /** M, the number of samples: never below two, so both endpoints are sampled. */
  function SampleCount(samplePoints: int): (m: int)
    ensures m >= 2 && m >= samplePoints
    ensures m == 2 || m == samplePoints
  {
    if samplePoints > 2 then samplePoints else 2
  }

  /** num / den rounded to the nearest integer, halves rounded up (the rounding
      of `Math.round`), on exact rationals. */
  function RoundHalfUp(num: int, den: int): (r: int)
    requires den > 0
    ensures 2 * den * r <= 2 * num + den < 2 * den * (r + 1)
  {
    (2 * num + den) / (2 * den)
  }

  /** The two guards that pull a sample back into [1, n]. */
  function Clamp(s: int, n: int): (c: int)
    ensures n >= 1 ==> 1 <= c <= n
    ensures 1 <= s <= n ==> c == s
    ensures n >= 1 && s < 1 ==> c == 1
    ensures n >= 1 && s > n ==> c == n
  {
    var lo := if s < 1 then 1 else s;
    if lo > n then n else lo
  }

  /** The i-th sample: 1 plus the position i / (m - 1) of the way along
      [0, n - 1], rounded, then clamped. */
  function SampleAt(i: int, m: int, n: int): (s: int)
    requires m >= 2
    ensures n >= 1 ==> 1 <= s <= n
  {
    Clamp(1 + RoundHalfUp(i * (n - 1), m - 1), n)
  }

  /** All M samples, in the order they are computed. */
  function Samples(n: int, samplePoints: int): (ss: seq<int>)
    ensures |ss| == SampleCount(samplePoints)
    ensures n >= 1 ==> forall k :: 0 <= k < |ss| ==> 1 <= ss[k] <= n
  {
    var m := SampleCount(samplePoints);
    seq(m, i requires 0 <= i < m => SampleAt(i, m, n))
  }

  /** Multiplying by a non-negative factor keeps order. */
  lemma MulMonotone(a: int, b: int, c: int)
    requires a <= b && c >= 0
    ensures a * c <= b * c
  {
    assert b * c - a * c == (b - a) * c;
  }

  /** Rounding keeps the order of quotients with the same denominator. */
  lemma RoundMonotone(x: int, y: int, den: int)
    requires den > 0 && x <= y
    ensures RoundHalfUp(x, den) <= RoundHalfUp(y, den)
  {
    var rx, ry := RoundHalfUp(x, den), RoundHalfUp(y, den);
    if rx > ry {
      MulMonotone(ry + 1, rx, 2 * den);
      assert false;
    }
  }

  /** Rounding a quotient that lies in [0, hi] gives a value in [0, hi]. */
  lemma RoundInRange(num: int, den: int, hi: int)
    requires den > 0 && hi >= 0 && 0 <= num <= den * hi
    ensures 0 <= RoundHalfUp(num, den) <= hi
  {
    var r := RoundHalfUp(num, den);
    if r < 0 {
      MulMonotone(r + 1, 0, 2 * den);
      assert false;
    }
    if r > hi {
      MulMonotone(hi + 1, r, 2 * den);
      assert false;
    }
  }

  /** For n >= 1, the rounded position already lies in [1, n]: the clamp
      guards never change a sample. */
  lemma ClampNeverFires(i: int, m: int, n: int)
    requires m >= 2 && 0 <= i < m && n >= 1
    ensures 1 <= 1 + RoundHalfUp(i * (n - 1), m - 1) <= n
    ensures SampleAt(i, m, n) == 1 + RoundHalfUp(i * (n - 1), m - 1)
  {
    MulMonotone(0, i, n - 1);
    MulMonotone(i, m - 1, n - 1);
    RoundInRange(i * (n - 1), m - 1, n - 1);
  }

  /** A whole quotient is its own rounding. */
  lemma RoundExact(q: int, den: int)
    requires den > 0
    ensures RoundHalfUp(q * den, den) == q
  {
    var r := RoundHalfUp(q * den, den);
    if r < q {
      MulMonotone(r + 1, q, 2 * den);
      assert false;
    } else if r > q {
      MulMonotone(q + 1, r, 2 * den);
      assert false;
    }
  }

  /** The first sample is 1 and the last is n. */
  lemma SampleEndpoints(m: int, n: int)
    requires m >= 2 && n >= 1
    ensures SampleAt(0, m, n) == 1
    ensures SampleAt(m - 1, m, n) == n
  {
    ClampNeverFires(0, m, n);
    ClampNeverFires(m - 1, m, n);
    assert (m - 1) * (n - 1) == (n - 1) * (m - 1);
    RoundExact(n - 1, m - 1);
  }

  /** Samples never decrease along the list. */
  lemma SamplesMonotone(i: int, j: int, m: int, n: int)
    requires m >= 2 && 0 <= i <= j < m && n >= 1
    ensures SampleAt(i, m, n) <= SampleAt(j, m, n)
  {
    ClampNeverFires(i, m, n);
    ClampNeverFires(j, m, n);
    MulMonotone(i, j, n - 1);
    RoundMonotone(i * (n - 1), j * (n - 1), m - 1);
  }

  /** The loop that fills `sValues`: M samples, each clamped to [1, N]. */
  method SampleThresholds(n: int, samplePoints: int) returns (sValues: array<int>)
    ensures sValues[..] == Samples(n, samplePoints)
  {
    var m := SampleCount(samplePoints);
    sValues := new int[m];
    var i := 0;
    while i < m
      invariant 0 <= i <= m
      invariant forall p :: 0 <= p < i ==> sValues[p] == SampleAt(p, m, n)
    {
      var s := 1 + RoundHalfUp(i * (n - 1), m - 1);
      if s < 1 {
        s := 1;
      }
      if s > n {
        s := n;
      }
      sValues[i] := s;
      i := i + 1;
    }
  }

  /** Strictly increasing: ascending with no duplicates. */
  predicate StrictlyAscending(s: seq<int>) {
    forall i, j :: 0 <= i < j < |s| ==> s[i] < s[j]
  }

  /** A value below every element of a strictly ascending list keeps it so when put in front. */
  lemma StrictCons(x: int, s: seq<int>)
    requires StrictlyAscending(s)
    requires forall y :: y in s ==> x < y
    ensures StrictlyAscending([x] + s)
  {
    forall i, j | 0 <= i < j < |[x] + s| ensures ([x] + s)[i] < ([x] + s)[j] {
      if i == 0 {
        assert ([x] + s)[j] == s[j - 1];
        assert s[j - 1] in s;
      }
    }
  }

  /** Puts x into a strictly ascending list unless it is already there. */
  function InsertUnique(x: int, r: seq<int>): (r': seq<int>)
    requires StrictlyAscending(r)
    ensures StrictlyAscending(r')
    ensures forall y :: y in r' <==> y == x || y in r
  {
    if r == [] then [x]
    else if x < r[0] then [x] + r
    else if x == r[0] then r
    else
      var t := InsertUnique(x, r[1..]);
      assert forall y :: y in r[1..] ==> r[0] < y;
      StrictCons(r[0], t);
      assert forall y :: y in r <==> y == r[0] || y in r[1..];
      [r[0]] + t
  }

  /** `distinct().sorted()`: the distinct values of xs in ascending order. */
  function DistinctSorted(xs: seq<int>): (r: seq<int>)
    ensures StrictlyAscending(r)
    ensures forall y :: y in r <==> y in xs
  {
    if xs == [] then []
    else
      assert forall y :: y in xs <==> y == xs[0] || y in xs[1..];
      InsertUnique(xs[0], DistinctSorted(xs[1..]))
  }

  /** The least element of a strictly ascending list comes first. */
  lemma HeadIsMinimum(s: seq<int>, y: int)
    requires StrictlyAscending(s) && y in s
    ensures s[0] <= y
  {
    var k :| 0 <= k < |s| && s[k] == y;
  }

  /** Two strictly ascending lists with the same elements are equal: whatever
      order the samples arrive in, the deduplicated list is the same. */
  lemma {:induction false} StrictlyAscendingUnique(a: seq<int>, b: seq<int>)
    requires StrictlyAscending(a) && StrictlyAscending(b)
    requires forall y :: y in a <==> y in b
    ensures a == b
  {
    assert a != [] ==> a[0] in a;
    assert b != [] ==> b[0] in b;
    if a != [] && b != [] {
      HeadIsMinimum(b, a[0]);
      HeadIsMinimum(a, b[0]);
      forall y ensures y in a[1..] <==> y in b[1..] {
        if y in a[1..] {
          TailMembers(a, b, y);
        }
        if y in b[1..] {
          TailMembers(b, a, y);
        }
      }
      StrictlyAscendingUnique(a[1..], b[1..]);
      assert a == [a[0]] + a[1..] && b == [b[0]] + b[1..];
    }
  }

  /** With equal heads and the same elements, a later element of one list is a
      later element of the other. */
  lemma TailMembers(a: seq<int>, b: seq<int>, y: int)
    requires StrictlyAscending(a) && StrictlyAscending(b)
    requires forall z :: z in a <==> z in b
    requires a != [] && b != [] && a[0] == b[0]
    requires y in a[1..]
    ensures y in b[1..]
  {
    var k :| 0 <= k < |a[1..]| && a[1..][k] == y;
    assert a[k + 1] == y && a[0] < y;
    assert y in b;
    var q :| 0 <= q < |b| && b[q] == y;
    assert b[1..][q - 1] == y;
  }

  /** For n >= 1 the samples lie in [1, n] and include both 1 and n. */
  lemma SamplesSpan(n: int, samplePoints: int)
    requires n >= 1
    ensures 1 in Samples(n, samplePoints) && n in Samples(n, samplePoints)
    ensures forall t :: t in Samples(n, samplePoints) ==> 1 <= t <= n
  {
    var m := SampleCount(samplePoints);
    var ss := Samples(n, samplePoints);
    SampleEndpoints(m, n);
    assert ss[0] == 1 && ss[m - 1] == n;
    forall t | t in ss ensures 1 <= t <= n {
      var k :| 0 <= k < m && ss[k] == t;
      assert t == SampleAt(k, m, n);
    }
  }

  /** The thresholds `main` benchmarks: the samples, deduplicated and sorted. */
  method ThresholdList(n: int, samplePoints: int) returns (ts: seq<int>)
    ensures StrictlyAscending(ts)
    ensures forall t :: t in ts <==> t in Samples(n, samplePoints)
    ensures n >= 1 ==> ts != [] && ts[0] == 1 && ts[|ts| - 1] == n
    ensures n >= 1 ==> forall t :: t in ts ==> 1 <= t <= n
  {
    var sValues := SampleThresholds(n, samplePoints);
    ts := DistinctSorted(sValues[..]);
    if n >= 1 {
      SamplesSpan(n, samplePoints);
      ThresholdsSpan(ts, Samples(n, samplePoints), n);
    }
  }

  /** A strictly ascending list of exactly the values of a list that lies in
      [1, n] and contains both 1 and n starts at 1, ends at n and stays within
      [1, n]. */
  lemma ThresholdsSpan(ts: seq<int>, ss: seq<int>, n: int)
    requires StrictlyAscending(ts)
    requires forall t :: t in ts <==> t in ss
    requires 1 in ss && n in ss && forall t :: t in ss ==> 1 <= t <= n
    ensures ts != [] && ts[0] == 1 && ts[|ts| - 1] == n
    ensures forall t :: t in ts ==> 1 <= t <= n
  {
    HeadIsMinimum(ts, 1);
    assert ts[0] in ts;
    var k :| 0 <= k < |ts| && ts[k] == n;
    assert ts[|ts| - 1] in ts;
    assert k < |ts| - 1 ==> ts[k] < ts[|ts| - 1];
  }
}
