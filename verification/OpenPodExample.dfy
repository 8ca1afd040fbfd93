/** A run of the controller, from its start, at whose end the slice holds a pod that the breaker has ejected, although
    another pod is healthy: the second evaluation ejects a pod and adds none, so dampening keeps the slice. */
module OpenPodExample {
  import opened Options
  import opened Aggregator
  import opened CircuitBreaker
  import opened Cluster
  import opened EndpointSlice
  import opened Decision
  import opened FinalizerProtocol
  import opened Controller
  import opened ControllerRuns
  import opened DampenedRuns

  const FAST := Pod("fast", "10.0.0.1", "", true, false)
  const SLOW := Pod("slow", "10.0.0.2", "", true, false)

  const SPEC := PolicySpec(
    "web", 0, SelectionPolicy("topN", Some(2), None),
    Some(CircuitBreakerSpec(true, 100, 1, 30)), Some(DampeningSpec(true, 1, 1)))

  function StatsOf(p99: int): Stats { Stats(p99, p99, 1, 0) }

  function Latencies(fast: int, slow: int): map<string, Stats> {
    map[FAST.ip := StatsOf(fast), SLOW.ip := StatsOf(slow)]
  }

  function Ranked(fast: int, slow: int): seq<PodRanking> {
    [PodRanking(FAST.name, FAST.ip, StatsOf(fast))] + [PodRanking(SLOW.name, SLOW.ip, StatsOf(slow))]
  }

  /** Everything works, and the clock stands still. */
  function Surroundings(fast: int, slow: int): Env {
    Env(Fine, Fine, Present, Some([FAST] + [SLOW]), Some(Latencies(fast, slow)), _ => 0, Fine, Fine, Fine, Fine, Fine)
  }

  lemma TwoPods(fast: int, slow: int)
    ensures Measurable(Surroundings(fast, slow))
    ensures TableOf(Surroundings(fast, slow)) == map[FAST.ip := FAST, SLOW.ip := SLOW]
  {
    assert ([FAST] + [SLOW])[..1] == [FAST] && [FAST][..0] == [];
    assert ReadyPods([FAST]) == [FAST];
    assert ReadyPods([FAST] + [SLOW]) == [FAST] + [SLOW];
    assert PodTable([FAST]) == map[FAST.ip := FAST];
  }

  lemma TwoRanked(fast: int, slow: int)
    requires fast <= slow
    ensures IsRanking(Ranked(fast, slow), Latencies(fast, slow), TableOf(Surroundings(fast, slow)))
  {
    TwoPods(fast, slow);
    assert FAST.ip != SLOW.ip;
  }

  /** The readings of one evaluation, from two Closed pods of which the slow one has no violations yet. */
  lemma JudgedPods(cfg: Config, pods: Pods, fast: int, slow: int, clock: nat -> int)
    requires cfg.consecutiveViolations == 1 && fast <= cfg.p99Threshold
    requires Entry(pods, FAST.ip).state.Closed? && Entry(pods, SLOW.ip) == FRESH
    ensures var after := Judged(cfg, pods, Ranked(fast, slow), clock);
      && Entry(after, FAST.ip).state.Closed?
      && (if slow <= cfg.p99Threshold then Entry(after, SLOW.ip) == FRESH else Ejected(after, SLOW.ip))
  {
    var ranked := Ranked(fast, slow);
    assert FAST.ip != SLOW.ip;
    assert ranked[0].podIP == FAST.ip && ranked[1].podIP == SLOW.ip;
    RecordAllEntry(cfg, Apply(cfg, pods, Check(clock(0))), ranked, clock, FAST.ip);
    RecordAllEntry(cfg, Apply(cfg, pods, Check(clock(0))), ranked, clock, SLOW.ip);
  }

  const CONFIG := Config(100, 1, 30)

  /** The two readings of the first evaluation eject nobody. */
  lemma FirstJudged(clock: nat -> int)
    ensures var after := Judged(CONFIG, map[], Ranked(10, 20), clock);
      && Entry(after, FAST.ip).state.Closed? && Entry(after, SLOW.ip) == FRESH
      && Admitted(after, Ranked(10, 20)) == Ranked(10, 20)
  {
    var ranked := Ranked(10, 20);
    JudgedPods(CONFIG, map[], 10, 20, clock);
    assert forall p :: p in ranked ==> p.podIP == FAST.ip || p.podIP == SLOW.ip;
    NobodyEjected(Judged(CONFIG, map[], ranked, clock), ranked);
  }

  lemma FirstEvaluated(mem: Memory, key: ObjectKey, clock: nat -> int)
    requires key !in mem.breakers
    ensures var e := Evaluated(mem, key, SPEC, Ranked(10, 20), clock);
      && e.selected == Ranked(10, 20)
      && key in e.memory.breakers && e.memory.breakers[key].cfg == CONFIG
      && Entry(e.memory.breakers[key].pods, FAST.ip).state.Closed?
      && Entry(e.memory.breakers[key].pods, SLOW.ip) == FRESH
  {
    var after := Judged(CONFIG, map[], Ranked(10, 20), clock);
    FirstJudged(clock);
    assert JudgedBreakers(mem.breakers, key, SPEC, Ranked(10, 20), clock)[key] == BreakerValue(CONFIG, after);
  }

  lemma PublishedIPs(selected: seq<PodRanking>)
    requires forall p :: p in selected ==> p in Ranked(10, 500)
    ensures forall ip :: ip in IPs(selected) ==> ip in IPs(Ranked(10, 20))
  {
    assert IPs(Ranked(10, 20))[0] == FAST.ip && IPs(Ranked(10, 20))[1] == SLOW.ip;
    assert forall i :: 0 <= i < |selected| ==> selected[i] in selected;
  }

  lemma SecondEvaluated(mem: Memory, key: ObjectKey, clock: nat -> int)
    requires key in mem.breakers && mem.breakers[key].cfg == CONFIG
    requires Entry(mem.breakers[key].pods, FAST.ip).state.Closed? && Entry(mem.breakers[key].pods, SLOW.ip) == FRESH
    ensures var e := Evaluated(mem, key, SPEC, Ranked(10, 500), clock);
      && (forall ip :: ip in IPs(e.selected) ==> ip in IPs(Ranked(10, 20)))
      && key in e.memory.breakers
      && Entry(e.memory.breakers[key].pods, FAST.ip).state.Closed?
      && Ejected(e.memory.breakers[key].pods, SLOW.ip)
  {
    var ranked, pods := Ranked(10, 500), mem.breakers[key].pods;
    JudgedPods(CONFIG, pods, 10, 500, clock);
    var after := Judged(CONFIG, pods, ranked, clock);
    assert JudgedBreakers(mem.breakers, key, SPEC, ranked, clock)[key] == BreakerValue(CONFIG, after);
    HealthyMembers(after, ranked);
    TwoRanked(10, 500);
    AdmittedOnes(after, ranked, Latencies(10, 500), TableOf(Surroundings(10, 500)));
    SelectionIsPrefix(SPEC, Admitted(after, ranked));
    PublishedIPs(SelectPods(SPEC, Admitted(after, ranked)));
  }

  /** The policy is published with both pods, and both are Closed. */
  predicate BothPublished(store: Store, mem: Memory, key: ObjectKey) {
    && key in store.policies && store.policies[key].spec == SPEC && !store.policies[key].deleting
    && InSync(store, mem, key)
    && key in mem.dampeners && mem.dampeners[key].previous == IPs(Ranked(10, 20))
    && key in mem.breakers && mem.breakers[key].cfg == CONFIG
    && Entry(mem.breakers[key].pods, FAST.ip).state.Closed? && Entry(mem.breakers[key].pods, SLOW.ip) == FRESH
  }

  lemma FirstEvaluation(store: Store, mem: Memory, key: ObjectKey)
    requires key in store.policies && store.policies[key].spec == SPEC && !store.policies[key].deleting
    requires key !in mem.breakers && key !in mem.dampeners
    ensures var (after, mem') := Reconciled(store, mem, key, Surroundings(10, 20), Ranked(10, 20));
      BothPublished(after, mem', key)
  {
    var env := Surroundings(10, 20);
    TwoPods(10, 20);
    EvaluationKeepsSync(store, mem, key, env, Ranked(10, 20));
    ReconcileKeepsSpec(store, mem, key, env, Ranked(10, 20));
    DampeningOfEvaluation(store, mem, key, env, Ranked(10, 20));
    FirstEvaluated(mem, key, env.clock);
  }

  lemma SecondEvaluation(store: Store, mem: Memory, key: ObjectKey)
    requires BothPublished(store, mem, key)
    ensures var (after, mem') := Reconciled(store, mem, key, Surroundings(10, 500), Ranked(10, 500));
      && after.slices == store.slices
      && key in after.policies && after.policies[key].spec == SPEC
      && key in mem'.breakers
      && !Ejected(mem'.breakers[key].pods, FAST.ip) && Ejected(mem'.breakers[key].pods, SLOW.ip)
  {
    var env := Surroundings(10, 500);
    TwoPods(10, 500);
    ReconcileKeepsSpec(store, mem, key, env, Ranked(10, 500));
    EvaluationKeepsSync(store, mem, key, env, Ranked(10, 500));
    SecondEvaluated(mem, key, env.clock);
    DropStep(store, mem, key, env, Ranked(10, 500));
  }

  lemma RunStep(events: seq<Event>, event: Event)
    ensures RunEvents(events + [event]) == Happened(RunEvents(events).0, RunEvents(events).1, event)
  {
    assert (events + [event])[..|events|] == events;
  }

  lemma FirstCreated(key: ObjectKey, policy: Policy)
    requires policy.spec == SPEC
    ensures var (store, mem) := RunEvents([Outside(UserCreate(key, policy))]);
      && key in store.policies && store.policies[key].spec == SPEC && !store.policies[key].deleting
      && mem == Memory(map[], map[])
  {
    RunStep([], Outside(UserCreate(key, policy)));
    assert [] + [Outside(UserCreate(key, policy))] == [Outside(UserCreate(key, policy))];
  }

  /** The run. */
  lemma OpenPodStaysPublished(key: ObjectKey, policy: Policy)
    requires policy.spec == SPEC
    ensures var events := [Outside(UserCreate(key, policy))]
        + [Reconciling(key, Surroundings(10, 20), Ranked(10, 20))]
        + [Reconciling(key, Surroundings(10, 500), Ranked(10, 500))];
      var (store, mem) := RunEvents(events);
      && key in store.policies && OwnSlice(store, key) in store.slices && key in mem.breakers
      && var published, pods := Addresses(store.slices[OwnSlice(store, key)]), mem.breakers[key].pods;
      && SLOW.ip in published && Ejected(pods, SLOW.ip) && !Ejected(pods, FAST.ip)
    ensures forall slow :: slow >= 10 ==>
      IsRanking(Ranked(10, slow), Latencies(10, slow), TableOf(Surroundings(10, slow)))
  {
    forall slow | slow >= 10 {
      TwoRanked(10, slow);
    }
    var created := [Outside(UserCreate(key, policy))];
    FirstCreated(key, policy);
    RunStep(created, Reconciling(key, Surroundings(10, 20), Ranked(10, 20)));
    var (store, mem) := RunEvents(created);
    FirstEvaluation(store, mem, key);
    var published := created + [Reconciling(key, Surroundings(10, 20), Ranked(10, 20))];
    RunStep(published, Reconciling(key, Surroundings(10, 500), Ranked(10, 500)));
    var (store', mem') := RunEvents(published);
    SecondEvaluation(store', mem', key);
    assert IPs(Ranked(10, 20))[1] == SLOW.ip;
  }
}
