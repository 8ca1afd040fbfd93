/** What one evaluation does, in terms of its inputs and the controller's entries alone: what the breaker makes of each
    pod, who takes part, who is selected, and whether it is published. */
module EvaluationOutcome {
  import opened Aggregator
  import opened CircuitBreaker
  import opened Cluster
  import opened Controller
  import opened Decision
  import opened Order
  import Dampening

  // ---------- the breaker ----------

  datatype Limits = Limits(threshold: int, required: int, interval: int)

  /** The limits of a breaker are those it was created with. */
  function LimitsOf(mem: Memory, key: ObjectKey, c: CircuitBreakerSpec): Limits {
    if key in mem.breakers then
      var cfg := mem.breakers[key].cfg;
      Limits(cfg.p99Threshold, cfg.consecutiveViolations, cfg.recoveryInterval)
    else Limits(c.p99Threshold, c.consecutiveViolations, c.recoveryInterval)
  }

  /** A pod the breaker does not know is Closed, without violations. */
  function KnownAs(mem: Memory, key: ObjectKey, ip: string): PodState {
    if key in mem.breakers && ip in mem.breakers[key].pods then mem.breakers[key].pods[ip]
    else PodState(Closed, 0, 0, 0, 0)
  }

  /** From an entry, the instant of the recovery check and a reading, to the entry afterwards. */
  ghost predicate ReadingOutcome(l: Limits, before: PodState, check: int, p99: int, at: int, after: PodState) {
    var due := before.state.Open? && check - before.ejectedAt >= l.interval;
    if before.state.Closed? then
      if p99 <= l.threshold then after == before.(violationCount := 0)
      else
        && after.violationCount == before.violationCount + 1 && after.lastViolationTime == at
        && after.lastRecoveryProbeAt == before.lastRecoveryProbeAt
        && (if before.violationCount + 1 >= l.required then after.state.Open? && after.ejectedAt == at
            else after.state.Closed? && after.ejectedAt == before.ejectedAt)
    else if before.state.HalfOpen? || due then
      && after.lastViolationTime == before.lastViolationTime
      && after.lastRecoveryProbeAt == (if due then check else before.lastRecoveryProbeAt)
      && (if p99 <= l.threshold then
            after.state.Closed? && after.violationCount == 0 && after.ejectedAt == before.ejectedAt
          else after.state.Open? && after.violationCount == before.violationCount && after.ejectedAt == at)
    else if at - before.ejectedAt >= l.interval then after == before.(state := HalfOpen, lastRecoveryProbeAt := at)
    else after == before
  }

  /** A pod without a reading leaves Open, for HalfOpen, exactly when its interval has run out. */
  ghost predicate CheckOutcome(l: Limits, before: PodState, check: int, after: PodState) {
    if before.state.Open? && check - before.ejectedAt >= l.interval then
      after == before.(state := HalfOpen, lastRecoveryProbeAt := check)
    else after == before
  }

  lemma RankedOutcome(mem: Memory, key: ObjectKey, spec: PolicySpec, ranked: seq<PodRanking>, clock: nat -> int, i: nat)
    requires spec.circuitBreaker.Some? && spec.circuitBreaker.value.enabled
    requires DistinctIPs(ranked) && i < |ranked|
    ensures var after := Evaluated(mem, key, spec, ranked, clock).memory.breakers;
      && key in after && ranked[i].podIP in after[key].pods
      && ReadingOutcome(LimitsOf(mem, key, spec.circuitBreaker.value), KnownAs(mem, key, ranked[i].podIP),
                        clock(0), ranked[i].stats.p99, clock(i + 1), after[key].pods[ranked[i].podIP])
  {
    var b := BreakerFor(mem.breakers, key, spec);
    RecordAllEntry(b.cfg, Apply(b.cfg, b.pods, Check(clock(0))), ranked, clock, ranked[i].podIP);
  }

  lemma UnrankedOutcome(mem: Memory, key: ObjectKey, spec: PolicySpec, ranked: seq<PodRanking>, clock: nat -> int,
                        ip: string)
    requires spec.circuitBreaker.Some? && spec.circuitBreaker.value.enabled
    requires DistinctIPs(ranked) && forall i :: 0 <= i < |ranked| ==> ranked[i].podIP != ip
    ensures var after := Evaluated(mem, key, spec, ranked, clock).memory.breakers;
      && key in after
      && (ip in after[key].pods <==> key in mem.breakers && ip in mem.breakers[key].pods)
      && (ip in after[key].pods ==>
            CheckOutcome(LimitsOf(mem, key, spec.circuitBreaker.value), KnownAs(mem, key, ip), clock(0),
                         after[key].pods[ip]))
  {
    var b := BreakerFor(mem.breakers, key, spec);
    RecordAllEntry(b.cfg, Apply(b.cfg, b.pods, Check(clock(0))), ranked, clock, ip);
  }

  /** The breaker of the policy keeps its limits, those of other policies do not change, and without a breaker in the
      policy's spec none does. */
  lemma BreakersFrame(mem: Memory, key: ObjectKey, spec: PolicySpec, ranked: seq<PodRanking>, clock: nat -> int)
    ensures var after := Evaluated(mem, key, spec, ranked, clock).memory.breakers;
      if spec.circuitBreaker.Some? && spec.circuitBreaker.value.enabled then
        && after.Keys == mem.breakers.Keys + {key}
        && (forall k :: k in mem.breakers && k != key ==> after[k] == mem.breakers[k])
        && var l := LimitsOf(mem, key, spec.circuitBreaker.value);
           after[key].cfg == Config(l.threshold, l.required, l.interval)
      else after == mem.breakers
  {
  }

  // ---------- who takes part ----------

  /** The breaker has the pod Open; nobody is, without a breaker in the spec. */
  predicate IsOpen(mem: Memory, key: ObjectKey, spec: PolicySpec, ip: string) {
    && spec.circuitBreaker.Some? && spec.circuitBreaker.value.enabled
    && key in mem.breakers && ip in mem.breakers[key].pods && mem.breakers[key].pods[ip].state.Open?
  }

  /** In ranking order, the pods that are not Open after the evaluation, or all if there are none. */
  lemma TakingPart(mem: Memory, key: ObjectKey, spec: PolicySpec, ranked: seq<PodRanking>, clock: nat -> int)
    requires AscendingBy(P99Of, ranked) && DistinctIPs(ranked)
    ensures var e := Evaluated(mem, key, spec, ranked, clock);
      && AscendingBy(P99Of, e.admitted) && DistinctIPs(e.admitted)
      && (forall p :: p in e.admitted <==>
            && p in ranked
            && (|| !IsOpen(e.memory, key, spec, p.podIP)
                || forall q :: q in ranked ==> IsOpen(e.memory, key, spec, q.podIP)))
  {
    var e := Evaluated(mem, key, spec, ranked, clock);
    if spec.circuitBreaker.Some? && spec.circuitBreaker.value.enabled {
      var states := e.memory.breakers[key].pods;
      HealthyOnes(states, ranked);
      if Healthy(states, ranked) == [] {
        assert forall p :: p in ranked ==> p !in Healthy(states, ranked);
      } else {
        assert Healthy(states, ranked)[0] in Healthy(states, ranked);
      }
    }
  }

  // ---------- who is selected ----------

  /** A prefix of those that take part: the first n, or all when n is not positive; the first n percent, rounded down
      but at least one; or those within the latency threshold, but at least one. */
  lemma SelectedPrefix(mem: Memory, key: ObjectKey, spec: PolicySpec, ranked: seq<PodRanking>, clock: nat -> int)
    requires AscendingBy(P99Of, ranked) && DistinctIPs(ranked)
    ensures var e := Evaluated(mem, key, spec, ranked, clock);
      var n, k := |e.admitted|, |e.selected|;
      && e.selected <= e.admitted
      && (e.admitted != [] ==>
        match spec.selection
        case SelectionPolicy(mode, topN, percentage) =>
          if mode == "topN" then
            var top := if topN.Some? then topN.value else 3;
            k == if top <= 0 || top >= n then n else top
          else if mode == "threshold" then
            && (forall j :: 1 <= j < k ==> e.admitted[j].stats.p99 <= spec.latencyThreshold)
            && (forall j :: k <= j < n ==> e.admitted[j].stats.p99 > spec.latencyThreshold)
            && k >= 1
          else
            var percent := if percentage.None? then 50 else if percentage.value <= 0 then 100 else percentage.value;
            k == if n * percent < 100 then 1 else if n * percent / 100 > n then n else n * percent / 100)
  {
    var e := Evaluated(mem, key, spec, ranked, clock);
    TakingPart(mem, key, spec, ranked, clock);
    if e.admitted != [] && spec.selection.mode == "threshold" {
      ThresholdPrefix(e.admitted, spec.latencyThreshold);
    }
  }

  lemma ThresholdPrefix(ranked: seq<PodRanking>, threshold: int)
    requires ranked != [] && AscendingBy(P99Of, ranked)
    ensures var selected := ByThreshold(ranked, threshold);
      && selected <= ranked && |selected| >= 1
      && (forall j :: 1 <= j < |selected| ==> ranked[j].stats.p99 <= threshold)
      && (forall j :: |selected| <= j < |ranked| ==> ranked[j].stats.p99 > threshold)
  {
    WithinIsPrefix(ranked, threshold);
    var c := CountAtMost(Keys(P99Of, ranked), threshold);
    CutByCount(Keys(P99Of, ranked), threshold);
    assert forall j :: 0 <= j < |ranked| ==> Keys(P99Of, ranked)[j] == ranked[j].stats.p99;
  }

  lemma {:induction false} CutByCount(s: seq<int>, v: int)
    requires Ascending(s)
    ensures forall j :: 0 <= j < CountAtMost(s, v) ==> s[j] <= v
    ensures forall j :: CountAtMost(s, v) <= j < |s| ==> s[j] > v
  {
    if s != [] {
      CutByCount(s[1..], v);
      if s[0] > v {
        CountNone(s[1..], v);
      }
      assert forall j :: 1 <= j < |s| ==> s[j] == s[1..][j - 1];
    }
  }

  // ---------- whether it is published ----------

  /** Without dampening always; with it, at once while nothing is stored, and later when enough evaluations in a row,
      this one included, each select enough addresses that are not stored. */
  lemma PublishVerdict(mem: Memory, key: ObjectKey, spec: PolicySpec, ranked: seq<PodRanking>, clock: nat -> int)
    ensures var e := Evaluated(mem, key, spec, ranked, clock);
      var selected := e.selected;
      var stored, violations := if key in mem.dampeners then mem.dampeners[key].previous else [],
        if key in mem.dampeners then mem.dampeners[key].violations else 0;
      var ips := seq(|selected|, i requires 0 <= i < |selected| => selected[i].podIP);
      && e.memory.dampeners.Keys == mem.dampeners.Keys + {key}
      && (forall k :: k in mem.dampeners && k != key ==> e.memory.dampeners[k] == mem.dampeners[k])
      && if spec.dampening.Some? && spec.dampening.value.enabled then
           var d := spec.dampening.value;
           var added := |set i | 0 <= i < |ips| && ips[i] !in stored|;
           var larger := if |ips| > |stored| then |ips| else |stored|;
           var count := if 100 * added >= d.thresholdPercent * larger then violations + 1 else 0;
           && (e.publish <==> stored == [] || count >= d.consecutiveIntervals)
           && e.memory.dampeners[key]
              == if e.publish then Dampening.Damp(ips, 0) else Dampening.Damp(stored, count)
         else e.publish && e.memory.dampeners[key] == Dampening.Damp(stored, violations)
  {
    var e := Evaluated(mem, key, spec, ranked, clock);
    assert IPs(e.selected) == seq(|e.selected|, i requires 0 <= i < |e.selected| => e.selected[i].podIP);
    if spec.dampening.Some? && spec.dampening.value.enabled {
      var d := spec.dampening.value;
      Dampening.VerdictMeaning(DampenerFor(mem.dampeners, key), IPs(e.selected), d.thresholdPercent,
                               d.consecutiveIntervals);
    }
  }
}
