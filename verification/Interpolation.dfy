/** The interpolating percentile of the agent's collector (internal/ebpf/collector.go), in exact arithmetic. */
module Interpolation {
  import opened Arithmetic
  import opened Order

  /** The computation of the source, with real numbers for its floating point. */
  function PercentileUint64(sorted: seq<int>, pct: int): int
    requires 0 <= pct <= 100
  {
    if sorted == [] then 0
    else
      RankForm(pct, |sorted| - 1);
      var rank := Rank(pct, |sorted| - 1);
      Interpolate(sorted, rank, rank.Floor, -(-rank).Floor)
  }

  function Rank(pct: int, m: int): real { (pct as real / 100.0) * m as real }

  function Interpolate(sorted: seq<int>, rank: real, lower: int, upper: int): int
    requires 0 <= lower < |sorted| && lower <= upper
  {
    if lower == upper || upper >= |sorted| then sorted[lower]
    else
      var frac := rank - lower as real;
      sorted[lower] + (frac * (sorted[upper] - sorted[lower]) as real).Floor
  }

  lemma RankForm(pct: int, m: int)
    requires 0 <= pct <= 100 && 0 <= m
    ensures var pos, rank := pct * m, Rank(pct, m);
      && rank == pos as real / 100.0
      && 0 <= pos <= 100 * m
      && rank.Floor == pos / 100
      && -(-rank).Floor == (if pos % 100 == 0 then pos / 100 else pos / 100 + 1)
      && 0 <= pos / 100 <= m
      && (pos % 100 != 0 ==> pos / 100 + 1 <= m)
  {
  }

  /** The value at position pos, in hundredths of an element: the weighted mean of the two elements around it,
      rounded down. */
  function Blend(a: int, b: int, r: int): int { ((100 - r) * a + r * b) / 100 }

  function Above(sorted: seq<int>, pos: int): int
    requires 0 <= pos <= 100 * (|sorted| - 1)
  {
    if pos % 100 == 0 then sorted[pos / 100] else sorted[pos / 100 + 1]
  }

  /** The floating-point formula is a weighted mean of the elements around position pct * (n - 1) / 100. */
  lemma PercentileIsBlend(sorted: seq<int>, pct: int)
    requires sorted != [] && 0 <= pct <= 100
    ensures var pos := pct * (|sorted| - 1);
      && 0 <= pos <= 100 * (|sorted| - 1)
      && PercentileUint64(sorted, pct) == Blend(sorted[pos / 100], Above(sorted, pos), pos % 100)
      && PercentileUint64(sorted, pct) ==
           if pos % 100 == 0 then sorted[pos / 100]
           else ((100 - pos % 100) * sorted[pos / 100] + (pos % 100) * sorted[pos / 100 + 1]) / 100
  {
    RankForm(pct, |sorted| - 1);
    BlendAtRank(sorted, pct * (|sorted| - 1), Rank(pct, |sorted| - 1));
  }

  lemma BlendAtRank(sorted: seq<int>, pos: int, rank: real)
    requires 0 <= pos <= 100 * (|sorted| - 1) && rank == pos as real / 100.0
    requires rank.Floor == pos / 100
    requires -(-rank).Floor == if pos % 100 == 0 then pos / 100 else pos / 100 + 1
    ensures Interpolate(sorted, rank, rank.Floor, -(-rank).Floor)
         == Blend(sorted[pos / 100], Above(sorted, pos), pos % 100)
  {
  }

  lemma BlendBetween(a: int, b: int, r: int)
    requires a <= b && 0 <= r <= 100
    ensures a <= Blend(a, b, r) <= b
  {
    ProductSign(r, b - a);
    ProductSign(100 - r, b - a);
    var x := (100 - r) * a + r * b;
    assert x == 100 * a + r * (b - a);
    assert x == 100 * b - (100 - r) * (b - a);
    Hundredth(a, x, b);
  }

  lemma Hundredth(a: int, x: int, b: int)
    requires 100 * a <= x <= 100 * b
    ensures a <= x / 100 <= b
  {
  }

  lemma BlendMonotone(a: int, b: int, r: int, a': int, b': int, r': int)
    requires a <= a' && b <= b' && a' <= b' && 0 <= r <= r' <= 100
    ensures Blend(a, b, r) <= Blend(a', b', r')
  {
    ProductSign(100 - r, a' - a);
    ProductSign(r, b' - b);
    ProductSign(r' - r, b' - a');
    var x, x' := (100 - r) * a + r * b, (100 - r') * a' + r' * b';
    assert x' - x == (100 - r) * (a' - a) + r * (b' - b) + (r' - r) * (b' - a');
  }

  // ---------- laws ----------

  /** The percentile lies between the two elements that bracket its position. */
  lemma PercentileBracket(sorted: seq<int>, pct: int)
    requires sorted != [] && Ascending(sorted) && 0 <= pct <= 100
    ensures var pos := pct * (|sorted| - 1);
      && 0 <= pos <= 100 * (|sorted| - 1)
      && sorted[pos / 100] <= PercentileUint64(sorted, pct) <= Above(sorted, pos)
    ensures sorted[0] <= PercentileUint64(sorted, pct) <= sorted[|sorted| - 1]
  {
    PercentileIsBlend(sorted, pct);
    var pos := pct * (|sorted| - 1);
    BlendBetween(sorted[pos / 100], Above(sorted, pos), pos % 100);
  }

  lemma SameBucket(sorted: seq<int>, pct: int, pct': int)
    requires sorted != [] && Ascending(sorted) && 0 <= pct <= pct' <= 100
    requires pct * (|sorted| - 1) <= pct' * (|sorted| - 1)
    requires (pct * (|sorted| - 1)) / 100 == (pct' * (|sorted| - 1)) / 100
    ensures PercentileUint64(sorted, pct) <= PercentileUint64(sorted, pct')
  {
    PercentileIsBlend(sorted, pct);
    PercentileIsBlend(sorted, pct');
    var pos, pos' := pct * (|sorted| - 1), pct' * (|sorted| - 1);
    var a := sorted[pos / 100];
    if pos % 100 != 0 {
      BlendMonotone(a, Above(sorted, pos), pos % 100, a, Above(sorted, pos'), pos' % 100);
    } else {
      PercentileBracket(sorted, pct');
    }
  }

  /** A higher percentile is never a smaller value, also across the boundaries between elements. */
  lemma PercentileMonotone(sorted: seq<int>, pct: int, pct': int)
    requires sorted != [] && Ascending(sorted) && 0 <= pct <= pct' <= 100
    ensures PercentileUint64(sorted, pct) <= PercentileUint64(sorted, pct')
  {
    var m := |sorted| - 1;
    var pos, pos' := pct * m, pct' * m;
    ProductSign(pct' - pct, m);
    assert pos' - pos == (pct' - pct) * m;
    if pos / 100 == pos' / 100 {
      SameBucket(sorted, pct, pct');
    } else {
      PercentileBracket(sorted, pct);
      PercentileBracket(sorted, pct');
      assert Above(sorted, pos) <= sorted[pos' / 100];
    }
  }

  /** Raising samples never lowers a percentile. */
  lemma PercentilePointwise(s: seq<int>, s': seq<int>, pct: int)
    requires s != [] && |s| == |s'| && Ascending(s) && Ascending(s') && 0 <= pct <= 100
    requires forall i :: 0 <= i < |s| ==> s[i] <= s'[i]
    ensures PercentileUint64(s, pct) <= PercentileUint64(s', pct)
  {
    PercentileIsBlend(s, pct);
    PercentileIsBlend(s', pct);
    var pos := pct * (|s| - 1);
    BlendMonotone(s[pos / 100], Above(s, pos), pos % 100, s'[pos / 100], Above(s', pos), pos % 100);
  }
}
