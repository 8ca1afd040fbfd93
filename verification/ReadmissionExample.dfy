/** An evaluation that selects a pod without evidence of its recovery, from a state that a breaker reaches: the pod is
    Open and still above the threshold, and its interval runs out between the recovery check and its reading. */
module ReadmissionExample {
  import opened Options
  import opened Order
  import opened Aggregator
  import opened BreakerHistory
  import opened CircuitBreaker
  import opened Cluster
  import opened Decision

  lemma {:induction false} BurstTouchesNoOther(cfg: Config, ip: string, at: int, n: nat, other: string)
    requires other != ip
    ensures other !in Run(cfg, Burst(cfg, ip, at, n))
  {
    if n > 0 {
      BurstTouchesNoOther(cfg, ip, at, n - 1, other);
      RunStep(cfg, Burst(cfg, ip, at, n - 1), Record(ip, cfg.p99Threshold + 1, at));
      BurstStep(cfg, [], ip, at, n);
      assert [] + Burst(cfg, ip, at, n) == Burst(cfg, ip, at, n);
      assert [] + Burst(cfg, ip, at, n - 1) == Burst(cfg, ip, at, n - 1);
    }
  }

  /** The breaker after as many violations of one pod, all at one instant, as it takes to eject it. */
  function AfterBurst(cfg: Config, ip: string, at: int): Pods {
    Run(cfg, Burst(cfg, ip, at, Required(cfg)))
  }

  lemma AdmittedWithoutEvidence(cfg: Config, spec: PolicySpec, good: PodRanking, bad: PodRanking, t: int,
                                clock: nat -> int)
    requires good.podIP != bad.podIP && good.stats.p99 <= cfg.p99Threshold < bad.stats.p99
    requires t <= clock(0) <= clock(1) <= clock(2)
    requires clock(0) - t < cfg.recoveryInterval <= clock(2) - t
    requires spec.selection == SelectionPolicy("topN", Some(2), None)
    ensures var pods, ranked := AfterBurst(cfg, bad.podIP, t), [good] + [bad];
      var after := Judged(cfg, pods, ranked, clock);
      && Ejected(pods, bad.podIP)
      && AscendingBy(P99Of, ranked) && DistinctIPs(ranked)
      && Entry(after, bad.podIP).state.HalfOpen?
      && bad in SelectPods(spec, Admitted(after, ranked))
  {
    var pods, ranked := AfterBurst(cfg, bad.podIP, t), [good] + [bad];
    var after := Judged(cfg, pods, ranked, clock);
    FreshBurst(cfg, bad.podIP, t);
    BurstTouchesNoOther(cfg, bad.podIP, t, Required(cfg), good.podIP);
    assert DistinctIPs(ranked) && ranked[0] == good && ranked[1] == bad;
    Readmission(cfg, pods, ranked, clock, 1);
    RecordAllEntry(cfg, Apply(cfg, pods, Check(clock(0))), ranked, clock, good.podIP);
    assert !Ejected(after, ranked[0].podIP);
    NobodyEjected(after, ranked);
  }
}
