/** One evaluation of a policy: from latencies to the selected pods
    (steps 6 to 11 of Reconcile in internal/controller/aviatorpolicy_controller.go). */
module Decision {
  import opened Order
  import opened Aggregator
  import opened CircuitBreaker
  import opened Cluster

  // ---------- the measured pods ----------

  datatype Pod = Pod(name: string, ip: string, nodeName: string, running: bool, deleting: bool)

  function ReadyPods(pods: seq<Pod>): seq<Pod> {
    if pods == [] then []
    else
      var last := pods[|pods| - 1];
      ReadyPods(pods[..|pods| - 1]) + if last.running && !last.deleting then [last] else []
  }

  /** Pods by their address; of pods that share one, the last. */
  function PodTable(pods: seq<Pod>): map<string, Pod> {
    if pods == [] then map[]
    else
      var before, last := PodTable(pods[..|pods| - 1]), pods[|pods| - 1];
      if last.ip != "" then before[last.ip := last] else before
  }

  lemma {:induction false} ReadyPodsMembers(pods: seq<Pod>)
    ensures forall pod :: pod in ReadyPods(pods) <==> pod in pods && pod.running && !pod.deleting
  {
    if pods != [] {
      ReadyPodsMembers(pods[..|pods| - 1]);
      assert pods == pods[..|pods| - 1] + [pods[|pods| - 1]];
    }
  }

  /** An address is known exactly when some pod has it, and stands for the last such pod; no pod is known by an
      empty address. */
  lemma {:induction false} PodTableIsLast(pods: seq<Pod>, i: nat)
    requires i < |pods| && (forall j :: i < j < |pods| ==> pods[j].ip != pods[i].ip)
    ensures pods[i].ip in PodTable(pods) <==> pods[i].ip != ""
    ensures pods[i].ip != "" ==> PodTable(pods)[pods[i].ip] == pods[i]
  {
    if i == |pods| - 1 {
      if pods[i].ip == "" {
        PodTableSound(pods, "");
      }
    } else {
      PodTableIsLast(pods[..|pods| - 1], i);
    }
  }

  lemma {:induction false} PodTableSound(pods: seq<Pod>, ip: string)
    ensures ip in PodTable(pods) ==> ip != "" && PodTable(pods)[ip].ip == ip && PodTable(pods)[ip] in pods
  {
    if pods != [] {
      PodTableSound(pods[..|pods| - 1], ip);
      assert pods == pods[..|pods| - 1] + [pods[|pods| - 1]];
    }
  }

  predicate Measured(latencies: map<string, Stats>, table: map<string, Pod>, p: PodRanking) {
    && p.podIP in latencies && p.podIP in table
    && p == PodRanking(table[p.podIP].name, p.podIP, latencies[p.podIP])
  }

  ghost predicate DistinctIPs(s: seq<PodRanking>) {
    forall i, j :: 0 <= i < j < |s| ==> s[i].podIP != s[j].podIP
  }

  /** One of the orders the unstable sort may put the measured pods in. */
  ghost predicate IsRanking(ranked: seq<PodRanking>, latencies: map<string, Stats>, table: map<string, Pod>) {
    && AscendingBy(P99Of, ranked)
    && DistinctIPs(ranked)
    && forall p :: p in ranked <==> Measured(latencies, table, p)
  }

  // ---------- the breaker's part ----------

  /** RecordLatency for each ranked pod in turn.  The clock is read once by CheckRecovery, as clock(0), and once
      by each call after it. */
  function RecordAll(cfg: Config, pods: Pods, ranked: seq<PodRanking>, clock: nat -> int): Pods {
    if ranked == [] then pods
    else
      var p := ranked[|ranked| - 1];
      Apply(cfg, RecordAll(cfg, pods, ranked[..|ranked| - 1], clock), Record(p.podIP, p.stats.p99, clock(|ranked|)))
  }

  function Judged(cfg: Config, pods: Pods, ranked: seq<PodRanking>, clock: nat -> int): Pods {
    RecordAll(cfg, Apply(cfg, pods, Check(clock(0))), ranked, clock)
  }

  function Healthy(pods: Pods, ranked: seq<PodRanking>): seq<PodRanking> {
    if ranked == [] then []
    else
      var before, last := Healthy(pods, ranked[..|ranked| - 1]), ranked[|ranked| - 1];
      if Ejected(pods, last.podIP) then before else before + [last]
  }

  /** When every pod is ejected, all of them are admitted. */
  function Admitted(pods: Pods, ranked: seq<PodRanking>): seq<PodRanking> {
    var healthy := Healthy(pods, ranked);
    if |healthy| > 0 then healthy else ranked
  }

  // ---------- selection ----------

  const DEFAULT_TOP_N := 3
  const DEFAULT_PERCENTAGE := 50

  function SelectPods(spec: PolicySpec, ranked: seq<PodRanking>): seq<PodRanking> {
    if ranked == [] then ranked
    else if spec.selection.mode == "topN" then
      SelectTopN(ranked, if spec.selection.topN.Some? then spec.selection.topN.value else DEFAULT_TOP_N)
    else if spec.selection.mode == "threshold" then
      ByThreshold(ranked, spec.latencyThreshold)
    else
      SelectTopPercent(
        ranked, if spec.selection.percentage.Some? then spec.selection.percentage.value else DEFAULT_PERCENTAGE)
  }

  // ---------- what is selected ----------

  lemma {:induction false} HealthyMembers(pods: Pods, ranked: seq<PodRanking>)
    ensures forall p :: p in Healthy(pods, ranked) <==> p in ranked && !Ejected(pods, p.podIP)
  {
    if ranked != [] {
      var before, last := ranked[..|ranked| - 1], ranked[|ranked| - 1];
      assert ranked == before + [last];
      HealthyMembers(pods, before);
    }
  }

  lemma {:induction false} NobodyEjected(pods: Pods, ranked: seq<PodRanking>)
    requires forall p :: p in ranked ==> !Ejected(pods, p.podIP)
    ensures Healthy(pods, ranked) == ranked == Admitted(pods, ranked)
  {
    if ranked != [] {
      assert ranked == ranked[..|ranked| - 1] + [ranked[|ranked| - 1]];
      NobodyEjected(pods, ranked[..|ranked| - 1]);
    }
  }

  lemma LastIsSlowest(ranked: seq<PodRanking>, p: PodRanking)
    requires ranked != [] && AscendingBy(P99Of, ranked) && DistinctIPs(ranked)
    requires p in ranked[..|ranked| - 1]
    ensures P99Of(p) <= P99Of(ranked[|ranked| - 1]) && p.podIP != ranked[|ranked| - 1].podIP
  {
  }

  lemma AppendSlower(h: seq<PodRanking>, last: PodRanking)
    requires AscendingBy(P99Of, h) && DistinctIPs(h)
    requires forall p :: p in h ==> P99Of(p) <= P99Of(last) && p.podIP != last.podIP
    ensures AscendingBy(P99Of, h + [last]) && DistinctIPs(h + [last])
  {
  }

  lemma {:induction false} HealthyOnes(pods: Pods, ranked: seq<PodRanking>)
    requires AscendingBy(P99Of, ranked) && DistinctIPs(ranked)
    ensures AscendingBy(P99Of, Healthy(pods, ranked)) && DistinctIPs(Healthy(pods, ranked))
    ensures forall p :: p in Healthy(pods, ranked) <==> p in ranked && !Ejected(pods, p.podIP)
  {
    HealthyMembers(pods, ranked);
    if ranked != [] {
      var before, last := ranked[..|ranked| - 1], ranked[|ranked| - 1];
      HealthyOnes(pods, before);
      forall p | p in Healthy(pods, before)
        ensures P99Of(p) <= P99Of(last) && p.podIP != last.podIP
      {
        LastIsSlowest(ranked, p);
      }
      AppendSlower(Healthy(pods, before), last);
    }
  }

  /** A pod takes part in the selection: measured, and not ejected unless every measured pod is. */
  ghost predicate Candidate(
    pods: Pods, latencies: map<string, Stats>, table: map<string, Pod>, p: PodRanking)
  {
    && Measured(latencies, table, p)
    && (!Ejected(pods, p.podIP) || forall q :: Measured(latencies, table, q) ==> Ejected(pods, q.podIP))
  }

  lemma AdmittedOnes(
    pods: Pods, ranked: seq<PodRanking>, latencies: map<string, Stats>, table: map<string, Pod>)
    requires IsRanking(ranked, latencies, table)
    ensures AscendingBy(P99Of, Admitted(pods, ranked)) && DistinctIPs(Admitted(pods, ranked))
    ensures forall p :: p in Admitted(pods, ranked) <==> Candidate(pods, latencies, table, p)
    ensures Admitted(pods, ranked) == [] <==> forall p :: !Measured(latencies, table, p)
  {
    HealthyOnes(pods, ranked);
    var healthy := Healthy(pods, ranked);
    if |healthy| > 0 {
      assert healthy[0] in healthy;
      assert Measured(latencies, table, healthy[0]) && !Ejected(pods, healthy[0].podIP);
    } else {
      forall q | Measured(latencies, table, q)
        ensures Ejected(pods, q.podIP)
      {
        assert q in ranked && q !in healthy;
      }
      if |ranked| > 0 {
        assert ranked[0] in ranked;
      }
    }
  }

  /** As many pods take part as were measured exactly when none of those, or all, are ejected. */
  lemma AllTakePartIff(pods: Pods, ranked: seq<PodRanking>)
    ensures |Admitted(pods, ranked)| <= |ranked|
    ensures |Admitted(pods, ranked)| == |ranked| <==>
      (forall p :: p in ranked ==> !Ejected(pods, p.podIP)) || (forall p :: p in ranked ==> Ejected(pods, p.podIP))
  {
    HealthyLength(pods, ranked);
    HealthyMembers(pods, ranked);
    if |Healthy(pods, ranked)| > 0 {
      var p := Healthy(pods, ranked)[0];
      assert p in Healthy(pods, ranked);
    } else {
      assert forall p :: p in ranked ==> p !in Healthy(pods, ranked);
    }
  }

  lemma {:induction false} HealthyLength(pods: Pods, ranked: seq<PodRanking>)
    ensures |Healthy(pods, ranked)| <= |ranked|
    ensures |Healthy(pods, ranked)| == |ranked| <==> forall p :: p in ranked ==> !Ejected(pods, p.podIP)
  {
    if ranked != [] {
      HealthyLength(pods, ranked[..|ranked| - 1]);
      assert ranked == ranked[..|ranked| - 1] + [ranked[|ranked| - 1]];
    }
  }

  /** How many of n ranked pods each mode selects, with c of them within the latency threshold. */
  function Quota(spec: PolicySpec, n: nat, c: nat): (k: nat)
    requires c <= n
    ensures k <= n && (n > 0 ==> k > 0)
  {
    if n == 0 then 0
    else if spec.selection.mode == "topN" then
      var top := if spec.selection.topN.Some? then spec.selection.topN.value else DEFAULT_TOP_N;
      if top <= 0 || top > n then n else top
    else if spec.selection.mode == "threshold" then
      if c == 0 then 1 else c
    else
      var given := if spec.selection.percentage.Some? then spec.selection.percentage.value else DEFAULT_PERCENTAGE;
      var share := Share(n, given);
      if share < 1 then 1 else if share > n then n else share
  }

  function Share(n: nat, percent: int): int {
    (n * if percent <= 0 then 100 else percent) / 100
  }

  /** In every mode the selection is a prefix of the ranking, of the mode's size. */
  lemma SelectionIsPrefix(spec: PolicySpec, ranked: seq<PodRanking>)
    requires AscendingBy(P99Of, ranked)
    ensures SelectPods(spec, ranked)
         == ranked[..Quota(spec, |ranked|, CountAtMost(Keys(P99Of, ranked), spec.latencyThreshold))]
  {
    if ranked != [] && spec.selection.mode == "threshold" {
      WithinIsPrefix(ranked, spec.latencyThreshold);
    }
  }

  /** End to end: the selected pods are candidates, no candidate left out is faster than a selected one, and
      nothing is selected only when nothing was measured. */
  lemma SelectionIsOptimal(
    spec: PolicySpec, pods: Pods, ranked: seq<PodRanking>,
    latencies: map<string, Stats>, table: map<string, Pod>)
    requires IsRanking(ranked, latencies, table)
    ensures var selected := SelectPods(spec, Admitted(pods, ranked));
      && (forall p :: p in selected ==> Candidate(pods, latencies, table, p))
      && (forall p, q :: p in selected && Candidate(pods, latencies, table, q) && q !in selected ==>
            p.stats.p99 <= q.stats.p99)
      && (selected == [] <==> forall p :: !Measured(latencies, table, p))
      && DistinctIPs(selected)
  {
    AdmittedOnes(pods, ranked, latencies, table);
    var admitted := Admitted(pods, ranked);
    SelectionIsPrefix(spec, admitted);
    var selected := SelectPods(spec, admitted);
    forall p, q | p in selected && q in admitted && q !in selected
      ensures p.stats.p99 <= q.stats.p99
    {
      var i :| 0 <= i < |selected| && selected[i] == p;
      var j :| 0 <= j < |admitted| && admitted[j] == q;
      assert forall m :: 0 <= m < |selected| ==> admitted[m] == selected[m] && selected[m] in selected;
      assert P99Of(admitted[i]) <= P99Of(admitted[j]);
    }
  }

  // ---------- independence of races ----------

  /** Each entry sees its own pod's reading and nothing else. */
  lemma {:induction false} RecordAllEntry(
    cfg: Config, pods: Pods, ranked: seq<PodRanking>, clock: nat -> int, ip: string)
    requires DistinctIPs(ranked)
    ensures (forall i :: 0 <= i < |ranked| ==> ranked[i].podIP != ip) ==>
      var after := RecordAll(cfg, pods, ranked, clock);
      (ip in after <==> ip in pods) && (ip in pods ==> after[ip] == pods[ip])
    ensures forall i :: 0 <= i < |ranked| && ranked[i].podIP == ip ==>
      var after := RecordAll(cfg, pods, ranked, clock);
      ip in after && after[ip] == Observe(cfg, Entry(pods, ip), ranked[i].stats.p99, clock(i + 1))
  {
    if ranked != [] {
      var before := ranked[..|ranked| - 1];
      RecordAllEntry(cfg, pods, before, clock, ip);
    }
  }

  lemma {:induction false} DistinctCounts(s: seq<PodRanking>, p: PodRanking)
    requires DistinctIPs(s)
    ensures multiset(s)[p] == if p in s then 1 else 0
  {
    if s != [] {
      var before, last := s[..|s| - 1], s[|s| - 1];
      assert s == before + [last];
      DistinctCounts(before, p);
      forall k | 0 <= k < |before|
        ensures before[k] != last
      {
        assert s[k].podIP != s[|s| - 1].podIP;
      }
    }
  }

  lemma SameElements(a: seq<PodRanking>, b: seq<PodRanking>)
    requires DistinctIPs(a) && DistinctIPs(b)
    requires forall p :: p in a <==> p in b
    ensures multiset(a) == multiset(b)
  {
    forall p
      ensures multiset(a)[p] == multiset(b)[p]
    {
      DistinctCounts(a, p);
      DistinctCounts(b, p);
    }
  }

  lemma SameJudgement(cfg: Config, pods: Pods, a: seq<PodRanking>, b: seq<PodRanking>, now: int)
    requires DistinctIPs(a) && DistinctIPs(b)
    requires forall p :: p in a <==> p in b
    ensures RecordAll(cfg, pods, a, _ => now) == RecordAll(cfg, pods, b, _ => now)
  {
    var clock: nat -> int := _ => now;
    var x, y := RecordAll(cfg, pods, a, clock), RecordAll(cfg, pods, b, clock);
    forall ip
      ensures (ip in x <==> ip in y) && (ip in x ==> x[ip] == y[ip])
    {
      RecordAllEntry(cfg, pods, a, clock, ip);
      RecordAllEntry(cfg, pods, b, clock, ip);
      if i :| 0 <= i < |a| && a[i].podIP == ip {
        assert a[i] in b;
        var j :| 0 <= j < |b| && b[j] == a[i];
      } else {
        assert forall j :: 0 <= j < |b| ==> b[j] in a;
      }
    }
    assert x.Keys == y.Keys;
    assert RecordAll(cfg, pods, a, _ => now) == x;
  }

  /** What any two rankings have in common. */
  lemma RankingsAgree(spec: PolicySpec, cfg: Config, pods: Pods, a: seq<PodRanking>, b: seq<PodRanking>, now: int,
                      latencies: map<string, Stats>, table: map<string, Pod>)
    requires IsRanking(a, latencies, table) && IsRanking(b, latencies, table)
    ensures var after := Judged(cfg, pods, a, _ => now);
      var x, y := Admitted(after, a), Admitted(after, b);
      && Judged(cfg, pods, b, _ => now) == after
      && AscendingBy(P99Of, x) && AscendingBy(P99Of, y) && multiset(x) == multiset(y) && |x| == |y|
      && SelectPods(spec, x) <= x
      && SelectPods(spec, y) == y[..|SelectPods(spec, x)|]
  {
    var after := Judged(cfg, pods, a, _ => now);
    SameJudgement(cfg, Apply(cfg, pods, Check(now)), a, b, now);
    AdmittedOnes(after, a, latencies, table);
    AdmittedOnes(after, b, latencies, table);
    var x, y := Admitted(after, a), Admitted(after, b);
    SameElements(x, y);
    SortedKeysUnique(P99Of, x, y);
    SameLength(x, y);
    SelectionIsPrefix(spec, x);
    SelectionIsPrefix(spec, y);
  }

  /** At one clock value, neither the map iteration that collects the pods, nor the way the sort breaks ties, nor
      the order in which the breaker hears of the pods matters: the breaker ends up the same, and so do the
      latencies of the selected pods; without equal latencies, so do the pods themselves. */
  lemma DecisionIsRaceFree(
    spec: PolicySpec, cfg: Config, pods: Pods, a: seq<PodRanking>, b: seq<PodRanking>, now: int,
    latencies: map<string, Stats>, table: map<string, Pod>)
    requires IsRanking(a, latencies, table) && IsRanking(b, latencies, table)
    ensures var after := Judged(cfg, pods, a, _ => now);
      && Judged(cfg, pods, b, _ => now) == after
      && Keys(P99Of, SelectPods(spec, Admitted(after, a))) == Keys(P99Of, SelectPods(spec, Admitted(after, b)))
      && ((forall i, j :: 0 <= i < j < |a| ==> P99Of(a[i]) != P99Of(a[j])) ==> a == b)
  {
    var after := Judged(cfg, pods, a, _ => now);
    RankingsAgree(spec, cfg, pods, a, b, now, latencies, table);
    SortedKeysUnique(P99Of, Admitted(after, a), Admitted(after, b));
    SameElements(a, b);
    SortedKeysUnique(P99Of, a, b);
    UntiedRanking(a, b);
  }

  lemma UntiedRanking(a: seq<PodRanking>, b: seq<PodRanking>)
    requires Keys(P99Of, a) == Keys(P99Of, b)
    requires forall p :: p in a <==> p in b
    ensures (forall i, j :: 0 <= i < j < |a| ==> P99Of(a[i]) != P99Of(a[j])) ==> a == b
  {
    assert |a| == |Keys(P99Of, a)| == |Keys(P99Of, b)| == |b|;
    if forall i, j :: 0 <= i < j < |a| ==> P99Of(a[i]) != P99Of(a[j]) {
      forall i | 0 <= i < |a|
        ensures a[i] == b[i]
      {
        assert b[i] in a;
        var j :| 0 <= j < |a| && a[j] == b[i];
        assert Keys(P99Of, a)[i] == Keys(P99Of, b)[i];
        assert P99Of(a[j]) == P99Of(a[i]);
      }
    }
  }

  // ---------- re-admission ----------

  /** What one evaluation does to the entry of the i-th ranked pod, with a clock that may advance between
      CheckRecovery and the pod's reading.  A pod leaves Open with evidence (a reading within the threshold after
      the recovery interval), or without any, exactly when the interval runs out between the two. */
  lemma Readmission(cfg: Config, pods: Pods, ranked: seq<PodRanking>, clock: nat -> int, i: nat)
    requires DistinctIPs(ranked) && i < |ranked|
    ensures var ip, p99 := ranked[i].podIP, ranked[i].stats.p99;
      var before, after := Entry(pods, ip), Entry(Judged(cfg, pods, ranked, clock), ip);
      var due := clock(0) - before.ejectedAt >= cfg.recoveryInterval;
      var duringRun := !due && clock(i + 1) - before.ejectedAt >= cfg.recoveryInterval;
      && (before.state.Open? ==>
          && (!after.state.Open? <==> (due && p99 <= cfg.p99Threshold) || duringRun)
          && (after.state.Closed? <==> due && p99 <= cfg.p99Threshold)
          && (after.state.Closed? ==> after.violationCount == 0))
      && (after.state.HalfOpen? <==> before.state.Open? && duringRun)
  {
    RecordAllEntry(cfg, Apply(cfg, pods, Check(clock(0))), ranked, clock, ranked[i].podIP);
  }

  /** With one clock value for the whole evaluation, leaving Open takes the recovery interval and a reading within
      the threshold, and no ranked pod ends HalfOpen. */
  lemma ReadmissionNeedsEvidence(cfg: Config, pods: Pods, ranked: seq<PodRanking>, now: int, i: nat)
    requires DistinctIPs(ranked) && i < |ranked|
    ensures var ip, p99 := ranked[i].podIP, ranked[i].stats.p99;
      var before, after := Entry(pods, ip), Entry(Judged(cfg, pods, ranked, _ => now), ip);
      && !after.state.HalfOpen?
      && (before.state.Open? ==>
          && (!after.state.Open? <==>
              now - before.ejectedAt >= cfg.recoveryInterval && p99 <= cfg.p99Threshold)
          && (!after.state.Open? ==> after.state.Closed? && after.violationCount == 0))
  {
    Readmission(cfg, pods, ranked, _ => now, i);
  }
}
