/** When the pods an evaluation selects do not depend on how its sort breaks ties. */
module TieBreaking {
  import opened Order
  import opened Aggregator
  import opened CircuitBreaker
  import opened Cluster
  import opened Decision

  predicate CutBetweenTies(x: seq<PodRanking>, k: nat) {
    0 < k < |x| && P99Of(x[k - 1]) == P99Of(x[k])
  }

  // ---------- a cut that splits no tie ----------

  lemma CutMember(x: seq<PodRanking>, y: seq<PodRanking>, k: nat, p: PodRanking)
    requires AscendingBy(P99Of, x) && AscendingBy(P99Of, y) && multiset(x) == multiset(y)
    requires k <= |x| == |y| && !CutBetweenTies(x, k) && p in y[..k]
    ensures p in x[..k]
  {
    SortedKeysUnique(P99Of, x, y);
    var i :| 0 <= i < k && y[i] == p;
    assert p in multiset(x);
    var j :| 0 <= j < |x| && x[j] == p;
    assert Keys(P99Of, x)[i] == Keys(P99Of, y)[i];
    // so x[i], before the cut, is as slow as x[j]
    assert P99Of(x[i]) == P99Of(x[j]);
    assert j < k;
    assert x[..k][j] == p;
  }

  lemma SameCut(x: seq<PodRanking>, y: seq<PodRanking>, k: nat)
    requires AscendingBy(P99Of, x) && AscendingBy(P99Of, y) && multiset(x) == multiset(y) && |x| == |y|
    ensures CutBetweenTies(x, k) <==> CutBetweenTies(y, k)
  {
    SortedKeysUnique(P99Of, x, y);
    assert forall i :: 0 <= i < |x| ==> Keys(P99Of, x)[i] == Keys(P99Of, y)[i];
    assert forall i :: 0 <= i < |x| ==> P99Of(x[i]) == P99Of(y[i]);
  }

  // ---------- a cut that does ----------

  lemma {:induction false} HealthyAppend(pods: Pods, s: seq<PodRanking>, t: seq<PodRanking>)
    ensures Healthy(pods, s + t) == Healthy(pods, s) + Healthy(pods, t)
  {
    if t == [] {
      assert s + t == s;
    } else {
      assert (s + t)[..|s + t| - 1] == s + t[..|t| - 1];
      HealthyAppend(pods, s, t[..|t| - 1]);
    }
  }

  /** Where the m-th pod that is not ejected stands. */
  lemma {:induction false} HealthyAt(pods: Pods, s: seq<PodRanking>, m: nat) returns (i: nat)
    requires m < |Healthy(pods, s)|
    ensures i < |s| && s[i] == Healthy(pods, s)[m] && !Ejected(pods, s[i].podIP)
    ensures Healthy(pods, s[..i]) == Healthy(pods, s)[..m]
  {
    var before := s[..|s| - 1];
    if m == |Healthy(pods, before)| {
      i := |s| - 1;
    } else {
      i := HealthyAt(pods, before, m);
      assert before[..i] == s[..i];
    }
  }

  function Swapped<T>(s: seq<T>, i: nat, j: nat): (r: seq<T>)
    requires i < j < |s|
    ensures |r| == |s|
  {
    s[i := s[j]][j := s[i]]
  }

  lemma SwapMembers<T>(s: seq<T>, i: nat, j: nat)
    requires i < j < |s|
    ensures forall p :: p in Swapped(s, i, j) <==> p in s
  {
    var r := Swapped(s, i, j);
    assert forall k :: 0 <= k < |s| ==> r[k] == s[if k == i then j else if k == j then i else k];
    assert forall k :: 0 <= k < |s| ==> s[k] == r[if k == i then j else if k == j then i else k];
  }

  /** Two tied pods may as well come in the other order. */
  lemma SwapRanking(a: seq<PodRanking>, i: nat, j: nat, latencies: map<string, Stats>, table: map<string, Pod>)
    requires IsRanking(a, latencies, table) && i < j < |a| && P99Of(a[i]) == P99Of(a[j])
    ensures IsRanking(Swapped(a, i, j), latencies, table)
  {
    SwapMembers(a, i, j);
  }

  lemma HealthyOne(pods: Pods, p: PodRanking)
    requires !Ejected(pods, p.podIP)
    ensures Healthy(pods, [p]) == [p]
  {
    assert [p][..0] == [];
  }

  lemma HealthyParts(
    pods: Pods, a: seq<PodRanking>, u: PodRanking, b: seq<PodRanking>, v: PodRanking, c: seq<PodRanking>)
    requires !Ejected(pods, u.podIP) && !Ejected(pods, v.podIP)
    ensures Healthy(pods, a + [u] + b + [v] + c)
         == Healthy(pods, a) + [u] + Healthy(pods, b) + [v] + Healthy(pods, c)
  {
    HealthyOne(pods, u);
    HealthyOne(pods, v);
    HealthyAppend(pods, a + [u] + b + [v], c);
    HealthyAppend(pods, a + [u] + b, [v]);
    HealthyAppend(pods, a + [u], b);
    HealthyAppend(pods, a, [u]);
  }

  /** A ranking, taken apart at its m-th pod that is not ejected. */
  lemma PartsAt(pods: Pods, s: seq<PodRanking>, m: nat)
    returns (a: seq<PodRanking>, u: PodRanking, rest: seq<PodRanking>)
    requires m < |Healthy(pods, s)|
    ensures s == a + [u] + rest && u == Healthy(pods, s)[m] && !Ejected(pods, u.podIP)
    ensures Healthy(pods, a) == Healthy(pods, s)[..m] && Healthy(pods, rest) == Healthy(pods, s)[m + 1..]
  {
    var i := HealthyAt(pods, s, m);
    a, u, rest := s[..i], s[i], s[i + 1..];
    HealthyOne(pods, u);
    HealthyAppend(pods, a + [u], rest);
    HealthyAppend(pods, a, [u]);
    assert s == a + [u] + rest;
  }

  /** The same at two that come one after the other. */
  lemma Parts(pods: Pods, s: seq<PodRanking>, k: nat)
    returns (a: seq<PodRanking>, u: PodRanking, b: seq<PodRanking>, v: PodRanking, c: seq<PodRanking>)
    requires 0 < k < |Healthy(pods, s)|
    ensures s == a + [u] + b + [v] + c
    ensures Healthy(pods, a) == Healthy(pods, s)[..k - 1] && Healthy(pods, b) == []
    ensures u == Healthy(pods, s)[k - 1] && v == Healthy(pods, s)[k]
    ensures !Ejected(pods, u.podIP) && !Ejected(pods, v.podIP)
  {
    var rest;
    a, u, rest := PartsAt(pods, s, k - 1);
    b, v, c := PartsAt(pods, rest, 0);
    assert a + [u] + (b + [v] + c) == a + [u] + b + [v] + c;
  }

  /** Exchanging the two exchanges them among the pods that are not ejected. */
  lemma SwapHealthy(pods: Pods, s: seq<PodRanking>, k: nat) returns (i: nat, j: nat)
    requires 0 < k < |Healthy(pods, s)|
    ensures i < j < |s| && s[i] == Healthy(pods, s)[k - 1] && s[j] == Healthy(pods, s)[k]
    ensures Healthy(pods, Swapped(s, i, j)) == Swapped(Healthy(pods, s), k - 1, k)
  {
    var a, u, b, v, c := Parts(pods, s, k);
    i, j := |a|, |a| + 1 + |b|;
    assert Swapped(s, i, j) == a + [v] + b + [u] + c;
    HealthyParts(pods, a, u, b, v, c);
    HealthyParts(pods, a, v, b, u, c);
    SwapMiddle(Healthy(pods, a), u, v, Healthy(pods, c));
  }

  lemma SwapMiddle<T>(a: seq<T>, u: T, v: T, c: seq<T>)
    ensures Swapped(a + [u] + [] + [v] + c, |a|, |a| + 1) == a + [v] + [] + [u] + c
  {
  }

  /** When the cut splits a tie, some other ranking of the same pods leaves out the last pod before it. */
  lemma OtherRanking(pods: Pods, a: seq<PodRanking>, k: nat, latencies: map<string, Stats>, table: map<string, Pod>)
    returns (b: seq<PodRanking>)
    requires IsRanking(a, latencies, table) && CutBetweenTies(Admitted(pods, a), k)
    ensures IsRanking(b, latencies, table) && |Admitted(pods, b)| == |Admitted(pods, a)|
    ensures Admitted(pods, a)[k - 1] !in Admitted(pods, b)[..k]
  {
    AdmittedOnes(pods, a, latencies, table);
    var i, j := k - 1, k;
    if |Healthy(pods, a)| > 0 {
      i, j := SwapHealthy(pods, a, k);
      b := Swapped(a, i, j);
    } else {
      b := Swapped(a, i, j);
      SwapMembers(a, i, j);
      if Healthy(pods, b) != [] {
        SomeHealthy(pods, b, a);
      }
    }
    SwapRanking(a, i, j, latencies, table);
    assert Admitted(pods, b) == Swapped(Admitted(pods, a), k - 1, k);
    SwappedOut(Admitted(pods, a), k);
  }

  lemma SwappedOut(x: seq<PodRanking>, k: nat)
    requires DistinctIPs(x) && 0 < k < |x|
    ensures x[k - 1] !in Swapped(x, k - 1, k)[..k]
  {
    var y := Swapped(x, k - 1, k)[..k];
    assert forall i :: 0 <= i < k ==> y[i] == x[k] || (i < k - 1 && y[i] == x[i]);
  }

  lemma SomeHealthy(pods: Pods, a: seq<PodRanking>, b: seq<PodRanking>)
    requires Healthy(pods, a) != [] && forall p :: p in a ==> p in b
    ensures Healthy(pods, b) != []
  {
    HealthyMembers(pods, a);
    HealthyMembers(pods, b);
    assert Healthy(pods, a)[0] in Healthy(pods, b);
  }

  // ---------- exactly when ----------

  function Selection(spec: PolicySpec, cfg: Config, pods: Pods, ranked: seq<PodRanking>, now: int): seq<PodRanking> {
    SelectPods(spec, Admitted(Judged(cfg, pods, ranked, _ => now), ranked))
  }

  /** At one clock value, the selected pods are the same for every order the sort may put the measured pods in,
      exactly when the cut does not fall between two equally fast pods that take part. */
  lemma SelectionOrderFreeIff(
    spec: PolicySpec, cfg: Config, pods: Pods, a: seq<PodRanking>, now: int,
    latencies: map<string, Stats>, table: map<string, Pod>)
    requires IsRanking(a, latencies, table)
    ensures (forall b :: IsRanking(b, latencies, table) ==>
               forall p :: p in Selection(spec, cfg, pods, b, now) <==> p in Selection(spec, cfg, pods, a, now))
      <==> !CutBetweenTies(Admitted(Judged(cfg, pods, a, _ => now), a), |Selection(spec, cfg, pods, a, now)|)
  {
    var after := Judged(cfg, pods, a, _ => now);
    var x := Admitted(after, a);
    var k := |SelectPods(spec, x)|;
    assert Selection(spec, cfg, pods, a, now) == SelectPods(spec, x);
    RankingsAgree(spec, cfg, pods, a, a, now, latencies, table);
    if CutBetweenTies(x, k) {
      var b := OtherRanking(after, a, k, latencies, table);
      RankingsAgree(spec, cfg, pods, a, b, now, latencies, table);
      assert x[k - 1] in x[..k];
      assert x[k - 1] !in Selection(spec, cfg, pods, b, now);
    } else {
      forall b, p | IsRanking(b, latencies, table)
        ensures p in Selection(spec, cfg, pods, b, now) <==> p in Selection(spec, cfg, pods, a, now)
      {
        RankingsAgree(spec, cfg, pods, a, b, now, latencies, table);
        var y := Admitted(after, b);
        if p in y[..k] {
          CutMember(x, y, k, p);
        }
        SameCut(x, y, k);
        if p in x[..k] {
          CutMember(y, x, k, p);
        }
      }
    }
  }
}
