/** An ejected pod over whole runs of the controller: how long it is kept out of the slices that are published. */
module EjectionRuns {
  import opened Aggregator
  import opened CircuitBreaker
  import opened Cluster
  import opened EndpointSlice
  import opened Decision
  import opened Controller
  import opened ControllerProperties
  import opened ControllerRuns

  /** The policy's breaker has the pod Open since instant t. */
  predicate Barred(mem: Memory, key: ObjectKey, ip: string, t: int) {
    && key in mem.breakers
    && ip in mem.breakers[key].pods
    && mem.breakers[key].pods[ip].state.Open?
    && mem.breakers[key].pods[ip].ejectedAt == t
  }

  /** Every clock reading of the reconcile falls short of the end of the interval. */
  ghost predicate Before(env: Env, end: int) {
    forall i: nat :: env.clock(i) < end
  }

  // ---------- how it begins ----------

  /** When an evaluation ejects a ranked pod, it is barred from the instant of its reading. */
  lemma EjectionBars(mem: Memory, key: ObjectKey, spec: PolicySpec, ranked: seq<PodRanking>, clock: nat -> int, i: nat)
    requires BreakerOn(spec) && DistinctIPs(ranked) && i < |ranked|
    ensures var ip, b, mem' := ranked[i].podIP, BreakerFor(mem.breakers, key, spec),
        Evaluated(mem, key, spec, ranked, clock).memory;
      !Ejected(b.pods, ip) && key in mem'.breakers && Ejected(mem'.breakers[key].pods, ip) ==>
        Barred(mem', key, ip, clock(i + 1))
  {
    var b := BreakerFor(mem.breakers, key, spec);
    RecordAllEntry(b.cfg, Apply(b.cfg, b.pods, Check(clock(0))), ranked, clock, ranked[i].podIP);
  }

  // ---------- how it lasts ----------

  lemma {:induction false} ReadingsKeepBarred(cfg: Config, pods: Pods, ranked: seq<PodRanking>, clock: nat -> int,
                                              ip: string)
    requires Ejected(pods, ip) && forall i: nat :: clock(i) < pods[ip].ejectedAt + cfg.recoveryInterval
    ensures var after := RecordAll(cfg, pods, ranked, clock); ip in after && after[ip] == pods[ip]
  {
    if ranked != [] {
      ReadingsKeepBarred(cfg, pods, ranked[..|ranked| - 1], clock, ip);
    }
  }

  lemma EvaluationKeepsBarred(mem: Memory, key: ObjectKey, spec: PolicySpec, ranked: seq<PodRanking>,
                              clock: nat -> int, ip: string, t: int)
    requires Barred(mem, key, ip, t)
    requires forall i: nat :: clock(i) < t + mem.breakers[key].cfg.recoveryInterval
    ensures var mem' := Evaluated(mem, key, spec, ranked, clock).memory;
      Barred(mem', key, ip, t) && mem'.breakers[key].cfg == mem.breakers[key].cfg
  {
    var b := mem.breakers[key];
    ReadingsKeepBarred(b.cfg, Apply(b.cfg, b.pods, Check(clock(0))), ranked, clock, ip);
  }

  /** The interval of the ejection is not over for the event, and it does not make the controller forget. */
  ghost predicate Early(store: Store, key: ObjectKey, event: Event, end: int) {
    match event
    case Reconciling(other, env, _) =>
      other == key ==> Before(env, end) && (key in store.policies ==> !store.policies[key].deleting)
    case Outside(a) => !a.Crash?
  }

  lemma OtherKeepsBreaker(store: Store, mem: Memory, other: ObjectKey, env: Env, ranked: seq<PodRanking>,
                          key: ObjectKey)
    requires other != key && key in mem.breakers
    ensures var mem' := Reconciled(store, mem, other, env, ranked).1;
      key in mem'.breakers && mem'.breakers[key] == mem.breakers[key]
  {
  }

  lemma OwnKeepsBarred(store: Store, mem: Memory, key: ObjectKey, env: Env, ranked: seq<PodRanking>,
                       ip: string, t: int)
    requires Barred(mem, key, ip, t) && Before(env, t + mem.breakers[key].cfg.recoveryInterval)
    requires key in store.policies ==> !store.policies[key].deleting
    ensures var mem' := Reconciled(store, mem, key, env, ranked).1;
      Barred(mem', key, ip, t) && mem'.breakers[key].cfg == mem.breakers[key].cfg
  {
    var got := GetPolicy(store, key, env.getPolicy);
    if got.Found? {
      var adopted := Adopt(store, key, got.value, env.addFinalizer).1;
      if adopted.Some? {
        EvaluationKeepsBarred(mem, key, adopted.value.spec, ranked, env.clock, ip, t);
      }
    }
  }

  lemma EventKeepsBarred(store: Store, mem: Memory, key: ObjectKey, event: Event, ip: string, t: int)
    requires Barred(mem, key, ip, t)
    requires Early(store, key, event, t + mem.breakers[key].cfg.recoveryInterval)
    ensures var mem' := Happened(store, mem, event).1;
      Barred(mem', key, ip, t) && mem'.breakers[key].cfg == mem.breakers[key].cfg
  {
    match event {
      case Outside(_) =>
      case Reconciling(other, env, ranked) =>
        if other == key {
          OwnKeepsBarred(store, mem, key, env, ranked, ip, t);
        } else {
          OtherKeepsBreaker(store, mem, other, env, ranked, key);
        }
    }
  }

  ghost predicate AllEarly(store: Store, mem: Memory, key: ObjectKey, events: seq<Event>, end: int) {
    forall i :: 0 <= i < |events| ==> Early(RunFrom(store, mem, events[..i]).0, key, events[i], end)
  }

  lemma {:induction false} RunKeepsBarred(store: Store, mem: Memory, key: ObjectKey, events: seq<Event>,
                                          ip: string, t: int)
    requires Barred(mem, key, ip, t)
    requires AllEarly(store, mem, key, events, t + mem.breakers[key].cfg.recoveryInterval)
    ensures var mem' := RunFrom(store, mem, events).1;
      Barred(mem', key, ip, t) && mem'.breakers[key].cfg == mem.breakers[key].cfg
  {
    if events != [] {
      var before, end := events[..|events| - 1], t + mem.breakers[key].cfg.recoveryInterval;
      forall i | 0 <= i < |before|
        ensures Early(RunFrom(store, mem, before[..i]).0, key, before[i], end)
      {
        assert before[..i] == events[..i];
      }
      RunKeepsBarred(store, mem, key, before, ip, t);
      var (s, m) := RunFrom(store, mem, before);
      EventKeepsBarred(s, m, key, events[|events| - 1], ip, t);
    }
  }

  // ---------- what it means for the slices ----------

  /** A pod ejected at instant t is in no slice that its policy, with the breaker on, publishes before the recovery
      interval is over, whatever happens in between short of a restart or the policy's deletion; unless every pod
      measured then is ejected. */
  lemma EjectedStaysOut(store: Store, mem: Memory, key: ObjectKey, events: seq<Event>, env: Env,
                        ranked: seq<PodRanking>, ip: string, t: int)
    requires Barred(mem, key, ip, t)
    requires AllEarly(store, mem, key, events, t + mem.breakers[key].cfg.recoveryInterval)
    requires Before(env, t + mem.breakers[key].cfg.recoveryInterval)
    requires var (s, m) := RunFrom(store, mem, events);
      && Publishes(s, m, key, env, ranked)
      && BreakerOn(Working(s, key, env).spec)
      && IsRanking(ranked, env.latencies.value, TableOf(env))
    ensures var (s, m) := RunFrom(store, mem, events);
      var (after, mem') := Reconciled(s, m, key, env, ranked);
      var sliceKey := SliceOf(s, key, env);
      && sliceKey in after.slices && key in mem'.breakers
      && (ip in Addresses(after.slices[sliceKey]) ==>
            forall p :: Measured(env.latencies.value, TableOf(env), p) ==> Ejected(mem'.breakers[key].pods, p.podIP))
  {
    var (s, m) := RunFrom(store, mem, events);
    RunKeepsBarred(store, mem, key, events, ip, t);
    OwnKeepsBarred(s, m, key, env, ranked, ip, t);
    PublishedSliceIsOptimal(s, m, key, env, ranked);
  }
}
