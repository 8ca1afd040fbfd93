/** Ranking and selection of pods, and fleet statistics (internal/latency). */
module Aggregator {
  import opened Arithmetic
  import opened Order
  import opened GoInt

  /** Durations and times are integers, in nanoseconds. */
  datatype Stats = Stats(p50: int, p99: int, sampleCount: int, lastUpdated: int)

  datatype PodRanking = PodRanking(podName: string, podIP: string, stats: Stats)

  function P99Of(p: PodRanking): int { p.stats.p99 }

  /** The contract of sort.Slice, which is not stable: some sorted permutation.  Callers know no more. */
  method RankPods(pods: array<PodRanking>)
    modifies pods
    ensures AscendingBy(P99Of, pods[..])
    ensures multiset(pods[..]) == multiset(old(pods[..]))
  {
    var sorted := SortBy(P99Of, pods[..]);
    SameLength(sorted, pods[..]);
    forall i | 0 <= i < pods.Length {
      pods[i] := sorted[i];
    }
    assert pods[..] == sorted;
  }

  function SelectTopN(ranked: seq<PodRanking>, n: int): (r: seq<PodRanking>)
    ensures r <= ranked
    ensures ranked != [] ==> r != []
  {
    if n <= 0 || n >= |ranked| then ranked else ranked[..n]
  }

  function SelectTopPercent(ranked: seq<PodRanking>, percent: int): (r: seq<PodRanking>)
    ensures r <= ranked
    ensures r == [] <==> ranked == []
    ensures percent > 0 && ranked != [] ==> 100 * (|r| - 1) < percent * |ranked|
    ensures percent > 0 && |r| < |ranked| ==> percent * |ranked| < 100 * (|r| + 1)
  {
    var pct := if percent <= 0 then 100 else percent;
    var share := (|ranked| * pct) / 100;
    assert ranked != [] ==> |ranked| * pct > 0;
    var n := if share < 1 then 1 else share;
    ranked[..if n > |ranked| then |ranked| else n]
  }

  function Within(ranked: seq<PodRanking>, threshold: int): seq<PodRanking> {
    if ranked == [] then []
    else
      var before, last := Within(ranked[..|ranked| - 1], threshold), ranked[|ranked| - 1];
      if last.stats.p99 <= threshold then before + [last] else before
  }

  function ByThreshold(ranked: seq<PodRanking>, threshold: int): (r: seq<PodRanking>)
    ensures ranked != [] ==> r != []
  {
    var within := Within(ranked, threshold);
    if within == [] && ranked != [] then [ranked[0]] else within
  }

  method SelectByThreshold(ranked: seq<PodRanking>, threshold: int) returns (selected: seq<PodRanking>)
    ensures selected == ByThreshold(ranked, threshold)
  {
    selected := [];
    for i := 0 to |ranked|
      invariant selected == Within(ranked[..i], threshold)
    {
      assert ranked[..i + 1][..i] == ranked[..i];
      if ranked[i].stats.p99 <= threshold {
        selected := selected + [ranked[i]];
      }
    }
    assert ranked[..|ranked|] == ranked;
    if |selected| == 0 && |ranked| > 0 {
      selected := selected + [ranked[0]];
    }
  }

  /** On a ranking, the pods within the threshold are a prefix, cut at the rank of the threshold. */
  lemma {:induction false} WithinIsPrefix(ranked: seq<PodRanking>, threshold: int)
    requires AscendingBy(P99Of, ranked)
    ensures Within(ranked, threshold) == ranked[..CountAtMost(Keys(P99Of, ranked), threshold)]
  {
    if ranked != [] {
      var n := |ranked| - 1;
      var before, last := ranked[..n], ranked[n];
      assert ranked == before + [last];
      assert AscendingBy(P99Of, before);
      WithinIsPrefix(before, threshold);
      CountLast(before, last, threshold);
      var c := CountAtMost(Keys(P99Of, before), threshold);
      if last.stats.p99 <= threshold {
        FastestBefore(ranked, threshold);
        assert before[..c] == before;
        assert ranked[..c + 1] == ranked;
      } else {
        assert ranked[..c] == before[..c];
      }
    }
  }

  lemma FastestBefore(ranked: seq<PodRanking>, threshold: int)
    requires ranked != [] && AscendingBy(P99Of, ranked)
    requires ranked[|ranked| - 1].stats.p99 <= threshold
    ensures CountAtMost(Keys(P99Of, ranked[..|ranked| - 1]), threshold) == |ranked| - 1
  {
    var n := |ranked| - 1;
    forall i | 0 <= i < n
      ensures P99Of(ranked[i]) <= threshold
    {
      assert P99Of(ranked[i]) <= P99Of(ranked[n]);
    }
    CountAll(Keys(P99Of, ranked[..n]), threshold);
  }

  lemma CountLast(before: seq<PodRanking>, last: PodRanking, threshold: int)
    ensures CountAtMost(Keys(P99Of, before + [last]), threshold)
         == CountAtMost(Keys(P99Of, before), threshold) + if last.stats.p99 <= threshold then 1 else 0
  {
    assert Keys(P99Of, before + [last]) == Keys(P99Of, before) + [last.stats.p99];
    CountAppend(Keys(P99Of, before), [last.stats.p99], threshold);
  }

  // ---------- fleet statistics ----------

  function FleetP99(pods: seq<PodRanking>): (p99: int)
    ensures pods != [] ==> IsPercentile(Keys(P99Of, pods), 99, p99)
  {
    if pods == [] then 0
    else
      var keys := Keys(P99Of, pods);
      var sorted := SortInts(keys);
      SameLength(sorted, keys);
      NearestRank(sorted, 99);
      var idx := (99 * |sorted|) / 100;
      PercentilePermutation(sorted, keys, 99, sorted[idx]);
      sorted[idx]
  }

  /** The order of the pods does not matter, and of up to 100 pods it is the slowest. */
  lemma FleetP99OrderFree(a: seq<PodRanking>, b: seq<PodRanking>)
    requires a != [] && multiset(a) == multiset(b)
    ensures FleetP99(a) == FleetP99(b)
    ensures |a| <= 100 ==> forall p :: p in a ==> p.stats.p99 <= FleetP99(a)
  {
    SameLength(a, b);
    KeysPermutation(P99Of, a, b);
    PercentilePermutation(Keys(P99Of, a), Keys(P99Of, b), 99, FleetP99(a));
    PercentileUnique(Keys(P99Of, b), 99, FleetP99(a), FleetP99(b));
    if |a| <= 100 {
      P99IsMaximum(Keys(P99Of, a), FleetP99(a));
      forall p | p in a
        ensures p.stats.p99 <= FleetP99(a)
      {
        var i :| 0 <= i < |a| && a[i] == p;
        assert Keys(P99Of, a)[i] in Keys(P99Of, a);
      }
    }
  }

  method ComputeFleetP99(pods: seq<PodRanking>) returns (p99: int)
    ensures p99 == FleetP99(pods)
  {
    if |pods| == 0 {
      return 0;
    }
    var latencies := [];
    for i := 0 to |pods|
      invariant latencies == Keys(P99Of, pods[..i])
    {
      latencies := latencies + [pods[i].stats.p99];
    }
    assert pods[..|pods|] == pods;
    var sorted := SortInts(latencies);
    SameLength(sorted, latencies);
    NearestRank(sorted, 99);
    var idx := (99 * |sorted|) / 100;
    if idx >= |sorted| {
      idx := |sorted| - 1;
    }
    p99 := sorted[idx];
  }

  /** The int64 sum, divided with truncation. */
  function Average(s: seq<int>): int {
    if s == [] then 0 else TruncDiv(Wrap64(Sum(s)), |s|)
  }

  method ComputeFleetAverage(pods: seq<PodRanking>) returns (average: int)
    ensures average == Average(Keys(P99Of, pods))
  {
    if |pods| == 0 {
      return 0;
    }
    var keys := Keys(P99Of, pods);
    var total := 0;
    for i := 0 to |pods|
      invariant total == Wrap64(Sum(keys[..i]))
    {
      WrapAdd(Sum(keys[..i]), keys[i]);
      assert keys[..i + 1][..i] == keys[..i];
      total := Wrap64(total + pods[i].stats.p99);
    }
    assert keys[..|pods|] == keys;
    average := TruncDiv(total, |pods|);
  }

  lemma {:induction false} SumBounds(s: seq<int>, lo: int, hi: int)
    requires forall i :: 0 <= i < |s| ==> lo <= s[i] <= hi
    ensures |s| * lo <= Sum(s) <= |s| * hi
  {
    if s != [] {
      SumBounds(s[..|s| - 1], lo, hi);
      assert |s| * lo == (|s| - 1) * lo + lo && |s| * hi == (|s| - 1) * hi + hi;
    }
  }

  lemma TruncBounds(a: int, n: int, lo: int, hi: int)
    requires n > 0 && n * lo <= a <= n * hi
    ensures lo <= TruncDiv(a, n) <= hi
  {
    var q := TruncDiv(a, n);
    if q < lo {
      Product(n, q + 1, lo);
    } else if q > hi {
      Product(n, hi + 1, q);
    }
  }

  /** When the exact sum fits an int64 the average lies between the smallest and the largest P99,
      even if a partial sum overflows on the way. */
  lemma AverageWithinBounds(s: seq<int>, lo: int, hi: int)
    requires s != [] && Fits64(Sum(s))
    requires forall i :: 0 <= i < |s| ==> lo <= s[i] <= hi
    ensures lo <= Average(s) <= hi
  {
    SumBounds(s, lo, hi);
    TruncBounds(Sum(s), |s|, lo, hi);
  }

  /** The published average is the average exactly when the sum fits: a wrapped sum always shows. */
  lemma AverageExactIff(s: seq<int>)
    requires 0 < |s| < TWO_63
    ensures Average(s) == TruncDiv(Sum(s), |s|) <==> Fits64(Sum(s))
  {
    if !Fits64(Sum(s)) {
      WrapIsFar(Sum(s));
      if Average(s) == TruncDiv(Sum(s), |s|) {
        SameQuotientIsNear(Sum(s), Wrap64(Sum(s)), |s|);
      }
    }
  }

  /** Two latencies for which it is not: their sum does not fit, and the average comes out negative. */
  lemma AverageOverflows(p99: int)
    requires TWO_63 / 2 <= p99 < TWO_63
    ensures Average([p99] + [p99]) == p99 - TWO_63 < 0
  {
    assert ([p99] + [p99])[..1] == [p99] && [p99][..0] == [];
    assert Sum([p99]) == p99;
    assert Sum([p99] + [p99]) == 2 * p99;
    assert Wrap64(2 * p99) == 2 * p99 - TWO_64;
  }
}
