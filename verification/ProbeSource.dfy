/** The HTTP probe source: its hand-written sort and its percentile (internal/latency/probe_source.go). */
module ProbeSource {
  import opened Order
  import opened Aggregator

  /** Pairs of positions whose elements are out of order. */
  function Inversions(s: seq<int>): nat {
    if s == [] then 0 else CountAtMost(s[1..], s[0] - 1) + Inversions(s[1..])
  }

  lemma {:induction false} AscendingHasNoInversions(s: seq<int>)
    requires Ascending(s)
    ensures Inversions(s) == 0
  {
    if s != [] {
      CountNone(s[1..], s[0] - 1);
      AscendingHasNoInversions(s[1..]);
    }
  }

  /** Exchanging two neighbours that are out of order removes exactly one inversion. */
  lemma {:induction false} ExchangeRemovesOne(a: seq<int>, x: int, y: int, b: seq<int>)
    requires y < x
    ensures Inversions(a + [x, y] + b) == Inversions(a + [y, x] + b) + 1
  {
    if a == [] {
      assert a + [x, y] + b == [x] + ([y] + b) && a + [y, x] + b == [y] + ([x] + b);
      assert ([y] + b)[1..] == b && ([x] + b)[1..] == b;
      assert ([x] + ([y] + b))[1..] == [y] + b && ([y] + ([x] + b))[1..] == [x] + b;
    } else {
      var h, t := a[0], a[1..];
      assert (a + [x, y] + b)[1..] == t + [x, y] + b && (a + [y, x] + b)[1..] == t + [y, x] + b;
      ExchangeRemovesOne(t, x, y, b);
      ExchangeIsPermutation(t, x, y, b);
      CountPermutation(t + [x, y] + b, t + [y, x] + b, h - 1);
    }
  }

  lemma ExchangeIsPermutation(a: seq<int>, x: int, y: int, b: seq<int>)
    ensures multiset(a + [x, y] + b) == multiset(a + [y, x] + b)
  {
    assert multiset([x, y]) == multiset([y, x]);
  }

  lemma ExchangeAt(s: seq<int>, s': seq<int>, j: nat)
    requires 0 < j < |s| && s[j] < s[j - 1]
    requires s' == s[j - 1 := s[j]][j := s[j - 1]]
    ensures multiset(s') == multiset(s)
    ensures Inversions(s) == Inversions(s') + 1
  {
    var a, x, y, b := s[..j - 1], s[j - 1], s[j], s[j + 1..];
    assert s == a + [x, y] + b && s' == a + [y, x] + b;
    ExchangeRemovesOne(a, x, y, b);
    ExchangeIsPermutation(a, x, y, b);
  }

  method Exchange(d: array<int>, j: nat)
    requires 0 < j < d.Length && d[j] < d[j - 1]
    modifies d
    ensures d[..] == old(d[..])[j - 1 := old(d[j])][j := old(d[j - 1])]
    ensures multiset(d[..]) == multiset(old(d[..]))
    ensures Inversions(old(d[..])) == Inversions(d[..]) + 1
  {
    d[j], d[j - 1] := d[j - 1], d[j];
    ExchangeAt(old(d[..]), d[..], j);
  }

  /** The first n elements are in order, apart from the one at index j. */
  ghost predicate OrderedBut(s: seq<int>, n: int, j: int)
    requires n <= |s|
  {
    forall p, q :: 0 <= p < q < n && q != j ==> s[p] <= s[q]
  }

  lemma ExchangeOrders(s: seq<int>, s': seq<int>, n: nat, j: nat)
    requires 0 < j < n <= |s| && OrderedBut(s, n, j) && s[j] < s[j - 1]
    requires s' == s[j - 1 := s[j]][j := s[j - 1]]
    ensures OrderedBut(s', n, j - 1)
  {
  }

  lemma InPlace(s: seq<int>, n: nat, j: nat)
    requires j < n <= |s| && OrderedBut(s, n, j) && (j > 0 ==> s[j - 1] <= s[j])
    ensures OrderedBut(s, n, n)
  {
  }

  /** The insertion sort, in place.  It makes one exchange for every inversion of its input and no more. */
  method SortDurations(d: array<int>) returns (ghost exchanges: nat)
    modifies d
    ensures SortOf(d[..], old(d[..]))
    ensures exchanges == Inversions(old(d[..]))
  {
    exchanges := 0;
    var i := 1;
    while i < d.Length
      invariant 1 <= i
      invariant OrderedBut(d[..], if i < d.Length then i else d.Length, i)
      invariant multiset(d[..]) == multiset(old(d[..]))
      invariant exchanges + Inversions(d[..]) == Inversions(old(d[..]))
    {
      var j := i;
      while j > 0 && d[j] < d[j - 1]
        invariant 0 <= j <= i < d.Length
        invariant OrderedBut(d[..], i + 1, j)
        invariant multiset(d[..]) == multiset(old(d[..]))
        invariant exchanges + Inversions(d[..]) == Inversions(old(d[..]))
      {
        ghost var before := d[..];
        Exchange(d, j);
        ExchangeOrders(before, d[..], i + 1, j);
        exchanges := exchanges + 1;
        j := j - 1;
      }
      InPlace(d[..], i + 1, j);
      i := i + 1;
    }
    AscendingHasNoInversions(d[..]);
  }

  function Percentile(sorted: seq<int>, pct: int): int
    requires 0 <= pct
  {
    if sorted == [] then 0
    else
      var idx := (pct * |sorted|) / 100;
      NonNegativeShare(pct, |sorted|);
      sorted[if idx >= |sorted| then |sorted| - 1 else idx]
  }

  lemma NonNegativeShare(pct: int, n: int)
    requires 0 <= pct && 0 <= n
    ensures 0 <= (pct * n) / 100
  {
    assert pct * n >= 0;
  }

  /** Of whatever samples, sorted: the nearest-rank percentile, and from 100 percent up the maximum. */
  lemma PercentileRank(samples: seq<int>, sorted: seq<int>, pct: int)
    requires samples != [] && SortOf(sorted, samples) && 0 <= pct
    ensures pct < 100 ==> IsPercentile(samples, pct, Percentile(sorted, pct))
    ensures pct >= 100 ==>
      Percentile(sorted, pct) in samples && forall x :: x in samples ==> x <= Percentile(sorted, pct)
  {
    SameLength(sorted, samples);
    var v := Percentile(sorted, pct);
    if pct < 100 {
      NearestRank(sorted, pct);
      PercentilePermutation(sorted, samples, pct, v);
    } else {
      assert pct * |sorted| >= 100 * |sorted|;
      assert v == sorted[|sorted| - 1];
      assert v in multiset(samples);
      forall x | x in samples
        ensures x <= v
      {
        assert x in multiset(sorted);
      }
    }
  }

  datatype Probe = Answered(latency: int) | Failed

  const PROBE_SAMPLES_PER_ROUND := 3
  const UNREACHABLE_LATENCY := 9_999_000_000

  function SampleOf(p: Probe): int {
    match p case Answered(latency) => latency case Failed => UNREACHABLE_LATENCY
  }

  function Median(x: int, y: int, z: int): int {
    if x <= y <= z || z <= y <= x then y else if y <= x <= z || z <= x <= y then x else z
  }

  lemma MedianOfThree(s: seq<int>, v: int)
    requires |s| == 3 && IsPercentile(s, 50, v)
    ensures v == Median(s[0], s[1], s[2])
  {
    ThreeCount(s, v);
    ThreeCount(s, v - 1);
  }

  lemma ThreeCount(s: seq<int>, v: int)
    requires |s| == 3
    ensures CountAtMost(s, v)
         == (if s[0] <= v then 1 else 0) + (if s[1] <= v then 1 else 0) + if s[2] <= v then 1 else 0
  {
    assert s[1..][1..] == s[2..] && s[2..][1..] == [];
    assert CountAtMost(s[2..], v) == if s[2] <= v then 1 else 0;
  }

  /** A round of probes gives their median and their maximum, so one failed probe puts the pod's P99 at the
      unreachable latency or above. */
  method ProbePod(probes: seq<Probe>, now: int) returns (stats: Stats)
    requires |probes| == PROBE_SAMPLES_PER_ROUND
    ensures IsPercentile(Keys(SampleOf, probes), 50, stats.p50)
    ensures IsPercentile(Keys(SampleOf, probes), 99, stats.p99)
    ensures forall latency :: Answered(latency) in probes ==> latency <= stats.p99
    ensures Failed in probes ==> stats.p99 >= 9_999_000_000
    ensures Answered(stats.p99) in probes || (Failed in probes && stats.p99 == 9_999_000_000)
    ensures stats.p50 <= stats.p99
    ensures forall x, y, z :: probes == [Answered(x), Answered(y), Answered(z)] ==> stats.p50 == Median(x, y, z)
    ensures forall x, y :: probes == [Answered(x), Answered(y), Failed] ==> stats.p50 == Median(x, y, 9_999_000_000)
    ensures stats.sampleCount == 3 && stats.lastUpdated == now
  {
    var samples := [];
    for i := 0 to PROBE_SAMPLES_PER_ROUND
      invariant samples == Keys(SampleOf, probes[..i])
    {
      samples := samples + [SampleOf(probes[i])];
    }
    assert probes[..|probes|] == probes;
    var d := new int[|samples|](i requires 0 <= i < |samples| => samples[i]);
    assert d[..] == samples;
    var _ := SortDurations(d);
    SameLength(d[..], samples);
    PercentileRank(samples, d[..], 50);
    PercentileRank(samples, d[..], 99);
    stats := Stats(Percentile(d[..], 50), Percentile(d[..], 99), |samples|, now);
    P99IsMaximum(samples, stats.p99);
    MedianOfThree(samples, stats.p50);
    assert stats.p99 in samples;
    forall p | p in probes
      ensures SampleOf(p) <= stats.p99
    {
      var i :| 0 <= i < |probes| && probes[i] == p;
      assert samples[i] == SampleOf(p) && samples[i] in samples;
    }
    assert SampleOf(Failed) == UNREACHABLE_LATENCY;
  }
}
