/** The reconciler (internal/controller/aviatorpolicy_controller.go). */
module Controller {
  import opened Options
  import opened GoInt
  import opened Order
  import opened Aggregator
  import opened CircuitBreaker
  import opened Dampening
  import opened Cluster
  import opened ApiClient
  import opened EndpointSlice
  import opened Decision
  import opened FinalizerProtocol

  const MAX_STATUS_POD_ENTRIES := 10
  const NANOS_PER_MILLI := 1_000_000

  // ---------- what one reconcile does, as a function ----------

  datatype BreakerValue = BreakerValue(cfg: Config, pods: Pods)

  type Breakers = map<ObjectKey, BreakerValue>
  type Dampeners = map<ObjectKey, Damp>

  datatype Memory = Memory(breakers: Breakers, dampeners: Dampeners)

  datatype ServiceAnswer = Present | Missing | Unreachable

  /** What a reconcile meets: the fate of each API call it may make, the answers of the Service, pod and latency
      reads (None for an error), and the clock readings of the breaker. */
  datatype Env = Env(
    getPolicy: Fault,
    addFinalizer: Fault,
    service: ServiceAnswer,
    pods: Option<seq<Pod>>,
    latencies: Option<map<string, Stats>>,
    clock: nat -> int,
    getSlice: Fault,
    writeSlice: Fault,
    writeStatus: Fault,
    deleteSlice: Fault,
    removeFinalizer: Fault)

  predicate BreakerOn(spec: PolicySpec) { spec.circuitBreaker.Some? && spec.circuitBreaker.value.enabled }

  predicate DampeningOn(spec: PolicySpec) { spec.dampening.Some? && spec.dampening.value.enabled }

  /** A breaker keeps the configuration it was created with. */
  function BreakerFor(breakers: Breakers, key: ObjectKey, spec: PolicySpec): BreakerValue
    requires BreakerOn(spec)
  {
    if key in breakers then breakers[key]
    else
      var c := spec.circuitBreaker.value;
      BreakerValue(Config(c.p99Threshold, c.consecutiveViolations, c.recoveryInterval), map[])
  }

  function DampenerFor(dampeners: Dampeners, key: ObjectKey): Damp {
    if key in dampeners then dampeners[key] else NEW
  }

  function IPs(pods: seq<PodRanking>): seq<string> {
    seq(|pods|, i requires 0 <= i < |pods| => pods[i].podIP)
  }

  function JudgedAt(breakers: Breakers, key: ObjectKey, ranked: seq<PodRanking>, clock: nat -> int): Breakers
    requires key in breakers
  {
    var b := breakers[key];
    breakers[key := b.(pods := Judged(b.cfg, b.pods, ranked, clock))]
  }

  function JudgedBreakers(breakers: Breakers, key: ObjectKey, spec: PolicySpec,
                          ranked: seq<PodRanking>, clock: nat -> int): Breakers {
    if !BreakerOn(spec) then breakers
    else JudgedAt(breakers[key := BreakerFor(breakers, key, spec)], key, ranked, clock)
  }

  /** The pod states that decide who takes part: none when the breaker is off. */
  function States(breakers: Breakers, key: ObjectKey, spec: PolicySpec): Pods {
    if BreakerOn(spec) && key in breakers then breakers[key].pods else map[]
  }

  function AdmittedBy(breakers: Breakers, key: ObjectKey, spec: PolicySpec, ranked: seq<PodRanking>)
    : seq<PodRanking>
  {
    if BreakerOn(spec) then Admitted(States(breakers, key, spec), ranked) else ranked
  }

  function DampenedAt(dampeners: Dampeners, key: ObjectKey, selectedIPs: seq<string>, spec: DampeningSpec)
    : (Dampeners, bool)
    requires key in dampeners
  {
    var (d, publish) := Damped(dampeners[key], selectedIPs, spec.thresholdPercent, spec.consecutiveIntervals);
    (dampeners[key := d], publish)
  }

  function Dampened(dampeners: Dampeners, key: ObjectKey, spec: PolicySpec, selected: seq<PodRanking>)
    : (Dampeners, bool)
  {
    var created := dampeners[key := DampenerFor(dampeners, key)];
    if DampeningOn(spec) then DampenedAt(created, key, IPs(selected), spec.dampening.value) else (created, true)
  }

  datatype Evaluation = Evaluation(
    memory: Memory, admitted: seq<PodRanking>, selected: seq<PodRanking>, publish: bool)

  function Evaluated(mem: Memory, key: ObjectKey, spec: PolicySpec,
                     ranked: seq<PodRanking>, clock: nat -> int): Evaluation {
    var breakers := JudgedBreakers(mem.breakers, key, spec, ranked, clock);
    var admitted := AdmittedBy(breakers, key, spec, ranked);
    var selected := SelectPods(spec, admitted);
    var (dampeners, publish) := Dampened(mem.dampeners, key, spec, selected);
    Evaluation(Memory(breakers, dampeners), admitted, selected, publish)
  }

  function PodEndpoints(selected: seq<PodRanking>, table: map<string, Pod>): seq<PodEndpoint> {
    seq(|selected|, i requires 0 <= i < |selected| =>
      var s := selected[i];
      PodEndpoint(s.podName, s.podIP, if s.podIP in table then table[s.podIP].nodeName else "", true))
  }

  function Infos(pods: seq<PodRanking>, states: Pods): (infos: seq<PodLatencyInfo>)
    ensures |infos| == if |pods| < MAX_STATUS_POD_ENTRIES then |pods| else MAX_STATUS_POD_ENTRIES
  {
    seq(if |pods| < MAX_STATUS_POD_ENTRIES then |pods| else MAX_STATUS_POD_ENTRIES, i requires 0 <= i < |pods| =>
      var p := pods[i];
      PodLatencyInfo(p.podName, p.podIP, p.stats.p50, p.stats.p99, Ejected(states, p.podIP)))
  }

  /** The fleet figures of an empty ranking are those of before. */
  function StatusOf(last: PolicyStatus, admitted: seq<PodRanking>, selected: seq<PodRanking>, states: Pods)
    : PolicyStatus
  {
    PolicyStatus(
      |selected|,
      |admitted|,
      if admitted == [] then last.averageLatencyMs else TruncDiv(Average(Keys(P99Of, admitted)), NANOS_PER_MILLI),
      if admitted == [] then last.p99LatencyMs else TruncDiv(FleetP99(admitted), NANOS_PER_MILLI),
      (set ip | ip in states && states[ip].state.Open?),
      Infos(admitted, states))
  }

  function Adopt(store: Store, key: ObjectKey, copy: Policy, fault: Fault): (Store, Option<Policy>) {
    if FINALIZER in copy.finalizers then (store, Some(copy))
    else UpdatePolicy(store, key, copy.(finalizers := copy.finalizers + {FINALIZER}), fault)
  }

  function HandledDeletion(store: Store, mem: Memory, key: ObjectKey, copy: Policy, env: Env): (Store, Memory) {
    if FINALIZER !in copy.finalizers then (store, mem)
    else
      var (cleaned, ok) := CleanedUp(store, SliceKeyOf(key, copy), env.deleteSlice);
      if !ok then (cleaned, mem)
      else
        (UpdatePolicy(cleaned, key, copy.(finalizers := copy.finalizers - {FINALIZER}), env.removeFinalizer).0,
         Memory(mem.breakers - {key}, mem.dampeners - {key}))
  }

  /** The reads between the finalizer and the ranking all went well. */
  predicate Measurable(env: Env) {
    env.service.Present? && env.pods.Some? && ReadyPods(env.pods.value) != [] && env.latencies.Some?
  }

  predicate ReportsFailure(env: Env) {
    env.service.Missing? || (env.service.Present? && env.pods.Some?)
  }

  function TableOf(env: Env): map<string, Pod>
    requires env.pods.Some?
  {
    PodTable(ReadyPods(env.pods.value))
  }

  /** Steps 12 to 14: the slice, then the status. */
  function PublishStage(store: Store, key: ObjectKey, policy: Policy, env: Env, table: map<string, Pod>,
                        admitted: seq<PodRanking>, selected: seq<PodRanking>, states: Pods): Store {
    var desired := Desired(key.name, policy.uid, PodEndpoints(selected, table));
    var (published, ok) := Published(store, SliceKeyOf(key, policy), desired, env.getSlice, env.writeSlice);
    var status := if ok then StatusOf(policy.status, admitted, selected, states) else policy.status;
    UpdateStatus(published, key, policy.(status := status), env.writeStatus)
  }

  /** From the ranking on. */
  function ReconciledRanked(store: Store, mem: Memory, key: ObjectKey, policy: Policy, env: Env,
                            ranked: seq<PodRanking>): (Store, Memory)
    requires env.pods.Some?
  {
    var e := Evaluated(mem, key, policy.spec, ranked, env.clock);
    (if !e.publish then store
     else PublishStage(store, key, policy, env, TableOf(env), e.admitted, e.selected,
                       States(e.memory.breakers, key, policy.spec)),
     e.memory)
  }

  function ReconciledActive(store: Store, mem: Memory, key: ObjectKey, policy: Policy, env: Env,
                            ranked: seq<PodRanking>): (Store, Memory) {
    if Measurable(env) then ReconciledRanked(store, mem, key, policy, env, ranked)
    else (if ReportsFailure(env) then UpdateStatus(store, key, policy, env.writeStatus) else store, mem)
  }

  function ReconciledLive(store: Store, mem: Memory, key: ObjectKey, copy: Policy, env: Env,
                          ranked: seq<PodRanking>): (Store, Memory) {
    var (adopting, adopted) := Adopt(store, key, copy, env.addFinalizer);
    if adopted.None? then (adopting, mem)
    else ReconciledActive(adopting, mem, key, adopted.value, env, ranked)
  }

  function Reconciled(store: Store, mem: Memory, key: ObjectKey, env: Env, ranked: seq<PodRanking>)
    : (Store, Memory)
  {
    var got := GetPolicy(store, key, env.getPolicy);
    if !got.Found? then (store, mem)
    else if got.value.deleting then HandledDeletion(store, mem, key, got.value, env)
    else ReconciledLive(store, mem, key, got.value, env, ranked)
  }

  /** The reconcile gets as far as ranking the pods. */
  predicate Evaluates(store: Store, key: ObjectKey, env: Env) {
    var got := GetPolicy(store, key, env.getPolicy);
    && got.Found? && !got.value.deleting
    && Adopt(store, key, got.value, env.addFinalizer).1.Some?
    && Measurable(env)
  }

  // ---------- the reconciler ----------

  // What the parts of a method add up to, for the proofs of the methods below.

  lemma JudgedDone(before: Breakers, created: Breakers, key: ObjectKey, spec: PolicySpec,
                   ranked: seq<PodRanking>, clock: nat -> int, after: Breakers)
    requires BreakerOn(spec)
    requires created == before[key := BreakerFor(before, key, spec)]
    requires after == JudgedAt(created, key, ranked, clock)
    ensures after == JudgedBreakers(before, key, spec, ranked, clock)
    ensures States(after, key, spec) == after[key].pods
    ensures AdmittedBy(after, key, spec, ranked) == Admitted(after[key].pods, ranked)
  {
  }

  lemma EvaluationDone(mem: Memory, key: ObjectKey, spec: PolicySpec, ranked: seq<PodRanking>, clock: nat -> int,
                       mem': Memory, admitted: seq<PodRanking>, selected: seq<PodRanking>, publish: bool)
    requires mem'.breakers == JudgedBreakers(mem.breakers, key, spec, ranked, clock)
    requires admitted == AdmittedBy(mem'.breakers, key, spec, ranked)
    requires selected == SelectPods(spec, admitted)
    requires (mem'.dampeners, publish) == Dampened(mem.dampeners, key, spec, selected)
    ensures Evaluated(mem, key, spec, ranked, clock) == Evaluation(mem', admitted, selected, publish)
  {
  }

  lemma RankingDone(store: Store, mem: Memory, key: ObjectKey, policy: Policy, env: Env, ranked: seq<PodRanking>,
                    e: Evaluation, states: Pods, after: Store)
    requires env.pods.Some? && e == Evaluated(mem, key, policy.spec, ranked, env.clock)
    requires states == States(e.memory.breakers, key, policy.spec)
    requires after == if e.publish then
        PublishStage(store, key, policy, env, TableOf(env), e.admitted, e.selected, states)
      else store
    ensures (after, e.memory) == ReconciledRanked(store, mem, key, policy, env, ranked)
  {
  }

  lemma DeletionDone(store: Store, mem: Memory, key: ObjectKey, copy: Policy, env: Env,
                     cleaned: Store, released: Store)
    requires FINALIZER in copy.finalizers
    requires CleanedUp(store, SliceKeyOf(key, copy), env.deleteSlice) == (cleaned, true)
    requires released
          == UpdatePolicy(cleaned, key, copy.(finalizers := copy.finalizers - {FINALIZER}), env.removeFinalizer).0
    ensures HandledDeletion(store, mem, key, copy, env)
         == (released, Memory(mem.breakers - {key}, mem.dampeners - {key}))
  {
  }

  lemma MapUpdated<K, V>(a: map<K, V>, b: map<K, V>, key: K, value: V)
    requires b.Keys == a.Keys + {key}
    requires forall k :: k in b ==> b[k] == if k == key then value else a[k]
    ensures b == a[key := value]
  {
  }

  class Reconciler {
    const client: Client
    const manager: Manager
    var breakers: map<ObjectKey, Breaker>
    var dampeners: map<ObjectKey, DampeningState>

    ghost predicate BreakersValid()
      reads this`breakers, breakers.Values
    {
      && (forall k :: k in breakers ==> breakers[k].Valid())
      && (forall k, k' :: k in breakers && k' in breakers && k != k' ==> breakers[k] != breakers[k'])
    }

    ghost predicate DampenersValid()
      reads this`dampeners
    {
      forall k, k' :: k in dampeners && k' in dampeners && k != k' ==> dampeners[k] != dampeners[k']
    }

    /** No breaker is taken over from elsewhere. */
    twostate predicate OwnBreakers()
      reads this`breakers
    {
      forall k :: k in breakers ==> (k in old(breakers) && breakers[k] == old(breakers)[k]) || fresh(breakers[k])
    }

    twostate predicate OwnDampeners()
      reads this`dampeners
    {
      forall k :: k in dampeners ==> (k in old(dampeners) && dampeners[k] == old(dampeners)[k]) || fresh(dampeners[k])
    }

    /** What is said about the breakers only depends on them, and likewise for the dampeners. */
    twostate lemma BreakersKept()
      requires old(BreakersValid()) && breakers == old(breakers) && forall k :: k in breakers ==> unchanged(breakers[k])
      ensures BreakersValid() && BreakerValues() == old(BreakerValues())
    {
    }

    twostate lemma DampenersKept()
      requires old(DampenersValid()) && dampeners == old(dampeners)
      requires forall k :: k in dampeners ==> unchanged(dampeners[k])
      ensures DampenersValid() && DampenerValues() == old(DampenerValues())
    {
    }

    ghost predicate Valid()
      reads this, breakers.Values, dampeners.Values
    {
      manager.client == client && BreakersValid() && DampenersValid()
    }

    ghost function BreakerValues(): Breakers
      reads this`breakers, breakers.Values
    {
      map k | k in breakers :: BreakerValue(breakers[k].cfg, breakers[k].pods)
    }

    ghost function DampenerValues(): Dampeners
      reads this`dampeners, dampeners.Values
    {
      map k | k in dampeners :: dampeners[k].State()
    }

    ghost function Mem(): Memory
      reads this, breakers.Values, dampeners.Values
    {
      Memory(BreakerValues(), DampenerValues())
    }

    /** Nor does any of it depend on the API server. */
    twostate lemma MemKept()
      requires old(Valid()) && breakers == old(breakers) && dampeners == old(dampeners)
      requires forall k :: k in breakers ==> unchanged(breakers[k])
      requires forall k :: k in dampeners ==> unchanged(dampeners[k])
      ensures Valid() && Mem() == old(Mem())
    {
      BreakersKept();
      DampenersKept();
    }

    constructor (client: Client)
      ensures Valid() && Mem() == Memory(map[], map[]) && this.client == client
    {
      this.client := client;
      manager := new Manager(client);
      breakers, dampeners := map[], map[];
    }

    method GetOrCreateBreaker(spec: PolicySpec, key: ObjectKey) returns (b: Breaker?)
      requires BreakersValid() && DampenersValid()
      modifies this`breakers
      ensures OwnBreakers() && BreakersValid() && DampenersValid()
      ensures DampenerValues() == old(DampenerValues())
      ensures b == null <==> !BreakerOn(spec)
      ensures breakers == if b == null then old(breakers) else old(breakers)[key := b]
      ensures b != null ==> if key in old(breakers) then b == old(breakers)[key] else fresh(b)
      ensures b != null ==>
        BreakerValues() == old(BreakerValues())[key := BreakerFor(old(BreakerValues()), key, spec)]
    {
      ghost var before := BreakerValues();
      if spec.circuitBreaker.None? || !spec.circuitBreaker.value.enabled {
        return null;
      }
      if key !in breakers {
        var c := spec.circuitBreaker.value;
        b := new Breaker(Config(c.p99Threshold, c.consecutiveViolations, c.recoveryInterval));
        breakers := breakers[key := b];
      } else {
        b := breakers[key];
      }
      DampenersKept();
      MapUpdated(before, BreakerValues(), key, BreakerFor(before, key, spec));
    }

    method GetOrCreateDampener(key: ObjectKey) returns (d: DampeningState)
      requires DampenersValid()
      modifies this`dampeners
      ensures DampenersValid()
      ensures dampeners == old(dampeners)[key := d]
      ensures if key in old(dampeners) then d == old(dampeners)[key] else fresh(d)
      ensures DampenerValues() == old(DampenerValues())[key := DampenerFor(old(DampenerValues()), key)]
    {
      ghost var before := DampenerValues();
      if key !in dampeners {
        d := new DampeningState();
        dampeners := dampeners[key := d];
      } else {
        d := dampeners[key];
      }
      MapUpdated(before, DampenerValues(), key, DampenerFor(before, key));
    }

    /** The breaker of one policy judges its pods; the other policies' breakers are not touched. */
    method JudgeWith(key: ObjectKey, breaker: Breaker, ranked: seq<PodRanking>, clock: nat -> int)
      returns (admitted: seq<PodRanking>)
      requires BreakersValid() && DampenersValid() && key in breakers && breakers[key] == breaker
      modifies breaker
      ensures BreakersValid() && DampenersValid()
      ensures DampenerValues() == old(DampenerValues())
      ensures BreakerValues() == JudgedAt(old(BreakerValues()), key, ranked, clock)
      ensures breaker.pods == BreakerValues()[key].pods
      ensures admitted == Admitted(breaker.pods, ranked)
    {
      ghost var before := BreakerValues();
      admitted := JudgePods(breaker, ranked, clock);
      DampenersKept();
      MapUpdated(before, BreakerValues(), key, JudgedAt(before, key, ranked, clock)[key]);
    }

    /** Step 9, for a policy with or without a breaker. */
    method JudgeFor(key: ObjectKey, spec: PolicySpec, ranked: seq<PodRanking>, clock: nat -> int)
      returns (admitted: seq<PodRanking>, breaker: Breaker?)
      requires BreakersValid() && DampenersValid()
      modifies this`breakers, breakers.Values
      ensures OwnBreakers()
      ensures BreakersValid() && DampenersValid()
      ensures DampenerValues() == old(DampenerValues())
      ensures BreakerValues() == JudgedBreakers(old(BreakerValues()), key, spec, ranked, clock)
      ensures admitted == AdmittedBy(BreakerValues(), key, spec, ranked)
      ensures (if breaker == null then map[] else breaker.pods) == States(BreakerValues(), key, spec)
    {
      ghost var before := BreakerValues();
      breaker := GetOrCreateBreaker(spec, key);
      if breaker == null {
        return ranked, null;
      }
      ghost var created := BreakerValues();
      admitted := JudgeWith(key, breaker, ranked, clock);
      JudgedDone(before, created, key, spec, ranked, clock, BreakerValues());
    }

    /** The dampener of one policy decides; the other policies' dampeners are not touched. */
    method DampenWith(key: ObjectKey, dampener: DampeningState, selectedIPs: seq<string>, spec: DampeningSpec)
      returns (publish: bool)
      requires DampenersValid() && key in dampeners && dampeners[key] == dampener
      modifies dampener
      ensures (DampenerValues(), publish) == DampenedAt(old(DampenerValues()), key, selectedIPs, spec)
    {
      ghost var before := DampenerValues();
      publish := dampener.ShouldUpdate(selectedIPs, spec.thresholdPercent, spec.consecutiveIntervals);
      MapUpdated(before, DampenerValues(), key, dampener.State());
    }

    /** Step 11, for a policy with or without dampening. */
    method DampenFor(key: ObjectKey, spec: PolicySpec, selected: seq<PodRanking>) returns (publish: bool)
      requires DampenersValid()
      modifies this`dampeners, dampeners.Values
      ensures OwnDampeners()
      ensures DampenersValid()
      ensures (DampenerValues(), publish) == Dampened(old(DampenerValues()), key, spec, selected)
    {
      var dampener := GetOrCreateDampener(key);
      publish := true;
      if spec.dampening.Some? && spec.dampening.value.enabled {
        publish := DampenWith(key, dampener, IPs(selected), spec.dampening.value);
      }
    }

    /** Steps 10 and 11. */
    method SelectAndDampen(key: ObjectKey, spec: PolicySpec, admitted: seq<PodRanking>)
      returns (selected: seq<PodRanking>, publish: bool)
      requires BreakersValid() && DampenersValid()
      modifies this`dampeners, dampeners.Values
      ensures OwnDampeners()
      ensures BreakersValid() && DampenersValid()
      ensures BreakerValues() == old(BreakerValues())
      ensures selected == SelectPods(spec, admitted)
      ensures (DampenerValues(), publish) == Dampened(old(DampenerValues()), key, spec, selected)
    {
      selected := SelectFrom(spec, admitted);
      publish := DampenFor(key, spec, selected);
      BreakersKept();
    }

    method ForgetBreaker(key: ObjectKey)
      requires BreakersValid() && DampenersValid()
      modifies this`breakers
      ensures OwnBreakers()
      ensures BreakersValid() && DampenersValid()
      ensures DampenerValues() == old(DampenerValues())
      ensures BreakerValues() == old(BreakerValues()) - {key}
    {
      breakers := breakers - {key};
    }

    method ForgetDampener(key: ObjectKey)
      requires BreakersValid() && DampenersValid()
      modifies this`dampeners
      ensures OwnDampeners()
      ensures BreakersValid() && DampenersValid()
      ensures BreakerValues() == old(BreakerValues())
      ensures DampenerValues() == old(DampenerValues()) - {key}
    {
      dampeners := dampeners - {key};
    }

    method Forget(key: ObjectKey)
      requires BreakersValid() && DampenersValid()
      modifies this`breakers, this`dampeners
      ensures OwnBreakers() && OwnDampeners()
      ensures BreakersValid() && DampenersValid()
      ensures Mem() == Memory(old(BreakerValues()) - {key}, old(DampenerValues()) - {key})
    {
      ForgetBreaker(key);
      ForgetDampener(key);
    }

    method HandleDeletion(key: ObjectKey, copy: Policy, env: Env)
      requires Valid()
      modifies this`breakers, this`dampeners, client
      ensures OwnBreakers() && OwnDampeners()
      ensures Valid()
      ensures (client.store, Mem()) == HandledDeletion(old(client.store), old(Mem()), key, copy, env)
    {
      if FINALIZER in copy.finalizers {
        ghost var store, mem := client.store, Mem();
        var ok := manager.Cleanup(key.ns, copy.spec.target, env.deleteSlice);
        MemKept();
        if !ok {
          return;
        }
        ghost var cleaned := client.store;
        Forget(key);
        label forgotten:
        var _ := client.WritePolicy(key, copy.(finalizers := copy.finalizers - {FINALIZER}), env.removeFinalizer);
        MemKept@forgotten();
        DeletionDone(store, mem, key, copy, env, cleaned, client.store);
      }
    }

    /** One reconcile; `ranked` is the order the sort settled on. */
    method Reconcile(key: ObjectKey, env: Env) returns (ranked: seq<PodRanking>)
      requires Valid()
      modifies this, client, breakers.Values, dampeners.Values
      ensures OwnBreakers() && OwnDampeners()
      ensures Valid()
      ensures Evaluates(old(client.store), key, env) ==> IsRanking(ranked, env.latencies.value, TableOf(env))
      ensures (client.store, Mem()) == Reconciled(old(client.store), old(Mem()), key, env, ranked)
    {
      ranked := [];
      var got := client.ReadPolicy(key, env.getPolicy);
      if !got.Found? {
        return;
      }
      var policy := got.value;
      if policy.deleting {
        HandleDeletion(key, policy, env);
        return;
      }
      ranked := ReconcileLive(key, policy, env);
    }

    method ReconcileLive(key: ObjectKey, copy: Policy, env: Env) returns (ranked: seq<PodRanking>)
      requires Valid()
      modifies this`breakers, this`dampeners, breakers.Values, dampeners.Values, client
      ensures OwnBreakers() && OwnDampeners()
      ensures Valid()
      ensures Adopt(old(client.store), key, copy, env.addFinalizer).1.Some? && Measurable(env) ==>
        IsRanking(ranked, env.latencies.value, TableOf(env))
      ensures (client.store, Mem()) == ReconciledLive(old(client.store), old(Mem()), key, copy, env, ranked)
    {
      var policy := copy;
      if FINALIZER !in policy.finalizers {
        var written := client.WritePolicy(
          key, policy.(finalizers := policy.finalizers + {FINALIZER}), env.addFinalizer);
        if written.None? {
          return [];
        }
        policy := written.value;
      }
      MemKept();
      ranked := ReconcileActive(key, policy, env);
    }

    method ReconcileActive(key: ObjectKey, policy: Policy, env: Env) returns (ranked: seq<PodRanking>)
      requires Valid()
      modifies this`breakers, this`dampeners, breakers.Values, dampeners.Values, client
      ensures OwnBreakers() && OwnDampeners()
      ensures Valid()
      ensures Measurable(env) ==> IsRanking(ranked, env.latencies.value, TableOf(env))
      ensures (client.store, Mem()) == ReconciledActive(old(client.store), old(Mem()), key, policy, env, ranked)
    {
      if !Measurable(env) {
        ReportFailure(key, policy, env);
        return [];
      }
      var podIPMap := PodTable(ReadyPods(env.pods.value));
      ranked := RankMeasured(env.latencies.value, podIPMap);
      MemKept();
      ReconcileRanked(key, policy, env, podIPMap, ranked);
    }

    /** Which failures before the ranking end in a status update. */
    method ReportFailure(key: ObjectKey, policy: Policy, env: Env)
      requires Valid() && !Measurable(env)
      modifies client
      ensures Valid() && Mem() == old(Mem())
      ensures client.store ==
        if ReportsFailure(env) then UpdateStatus(old(client.store), key, policy, env.writeStatus)
        else old(client.store)
    {
      if !env.service.Present? {
        if env.service.Missing? {
          client.WriteStatus(key, policy, env.writeStatus);
        }
      } else if env.pods.Some? {
        // no ready pods, or no latencies
        client.WriteStatus(key, policy, env.writeStatus);
      }
      MemKept();
    }

    method ReconcileRanked(key: ObjectKey, policy: Policy, env: Env, podIPMap: map<string, Pod>,
                           ranked: seq<PodRanking>)
      requires Valid() && Measurable(env) && podIPMap == TableOf(env)
      modifies this`breakers, this`dampeners, breakers.Values, dampeners.Values, client
      ensures OwnBreakers() && OwnDampeners()
      ensures Valid()
      ensures (client.store, Mem()) == ReconciledRanked(old(client.store), old(Mem()), key, policy, env, ranked)
    {
      ghost var store, mem := client.store, Mem();
      var admitted, selected, publish, breaker := Evaluate(key, policy.spec, ranked, env.clock);
      ghost var e := Evaluation(Mem(), admitted, selected, publish);
      ghost var states: Pods := if breaker == null then map[] else breaker.pods;
      label evaluated:
      if publish {
        PublishSelection(key, policy, env, podIPMap, admitted, selected, breaker);
      }
      MemKept@evaluated();
      RankingDone(store, mem, key, policy, env, ranked, e, states, client.store);
    }

    /** Steps 9 to 11: breaker, selection, dampening. */
    method Evaluate(key: ObjectKey, spec: PolicySpec, ranked: seq<PodRanking>, clock: nat -> int)
      returns (admitted: seq<PodRanking>, selected: seq<PodRanking>, publish: bool, breaker: Breaker?)
      requires Valid()
      modifies this`breakers, this`dampeners, breakers.Values, dampeners.Values
      ensures OwnBreakers() && OwnDampeners()
      ensures Valid() && client.store == old(client.store)
      ensures Evaluation(Mem(), admitted, selected, publish) == Evaluated(old(Mem()), key, spec, ranked, clock)
      ensures (if breaker == null then map[] else breaker.pods) == States(BreakerValues(), key, spec)
    {
      ghost var mem := Mem();
      admitted, breaker := JudgeFor(key, spec, ranked, clock);
      selected, publish := SelectAndDampen(key, spec, admitted);
      EvaluationDone(mem, key, spec, ranked, clock, Mem(), admitted, selected, publish);
    }

    /** Steps 12 to 14. */
    method PublishSelection(key: ObjectKey, policy: Policy, env: Env, podIPMap: map<string, Pod>,
                            admitted: seq<PodRanking>, selected: seq<PodRanking>, breaker: Breaker?)
      requires manager.client == client
      modifies client
      ensures client.store == PublishStage(old(client.store), key, policy, env, podIPMap, admitted, selected,
                                           if breaker == null then map[] else breaker.pods)
    {
      var podEndpoints := PodEndpoints(selected, podIPMap);
      var ok := manager.Reconcile(key, policy.uid, policy.spec.target, podEndpoints, env.getSlice, env.writeSlice);
      var status := policy.status;
      if ok {
        status := MakeStatus(policy.status, admitted, selected, breaker);
      }
      client.WriteStatus(key, policy.(status := status), env.writeStatus);
    }
  }

  /** CheckRecovery, then RecordLatency in ranking order, then the filter with its fallback. */
  method JudgePods(breaker: Breaker, ranked: seq<PodRanking>, clock: nat -> int) returns (admitted: seq<PodRanking>)
    requires breaker.Valid()
    modifies breaker
    ensures breaker.Valid()
    ensures breaker.pods == Judged(breaker.cfg, old(breaker.pods), ranked, clock)
    ensures admitted == Admitted(breaker.pods, ranked)
  {
    var _ := breaker.CheckRecovery(clock(0));
    ghost var checked := breaker.pods;
    for i := 0 to |ranked|
      invariant breaker.Valid()
      invariant breaker.pods == RecordAll(breaker.cfg, checked, ranked[..i], clock)
    {
      assert ranked[..i + 1][..i] == ranked[..i];
      breaker.RecordLatency(ranked[i].podIP, ranked[i].stats.p99, clock(i + 1));
    }
    assert ranked[..|ranked|] == ranked;
    admitted := Admit(breaker, ranked);
  }

  method Admit(breaker: Breaker, ranked: seq<PodRanking>) returns (admitted: seq<PodRanking>)
    ensures admitted == Admitted(breaker.pods, ranked)
  {
    var healthy := [];
    for i := 0 to |ranked|
      invariant healthy == Healthy(breaker.pods, ranked[..i])
    {
      assert ranked[..i + 1][..i] == ranked[..i];
      var ejected := breaker.IsEjected(ranked[i].podIP);
      if !ejected {
        healthy := healthy + [ranked[i]];
      }
    }
    assert ranked[..|ranked|] == ranked;
    admitted := if |healthy| > 0 then healthy else ranked;
  }

  method SelectFrom(spec: PolicySpec, ranked: seq<PodRanking>) returns (selected: seq<PodRanking>)
    ensures selected == SelectPods(spec, ranked)
  {
    if |ranked| == 0 {
      return ranked;
    }
    if spec.selection.mode == "topN" {
      var n := DEFAULT_TOP_N;
      if spec.selection.topN.Some? {
        n := spec.selection.topN.value;
      }
      return SelectTopN(ranked, n);
    } else if spec.selection.mode == "threshold" {
      selected := SelectByThreshold(ranked, spec.latencyThreshold);
    } else {
      var pct := DEFAULT_PERCENTAGE;
      if spec.selection.percentage.Some? {
        pct := spec.selection.percentage.value;
      }
      return SelectTopPercent(ranked, pct);
    }
  }

  /** Step 8: the measured pods, collected in the order of a map iteration, then sorted. */
  method RankMeasured(latencies: map<string, Stats>, podIPMap: map<string, Pod>) returns (ranked: seq<PodRanking>)
    ensures IsRanking(ranked, latencies, podIPMap)
  {
    var collected: seq<PodRanking> := [];
    var rest := latencies.Keys;
    while rest != {}
      invariant rest <= latencies.Keys
      invariant DistinctIPs(collected)
      invariant forall p :: p in collected <==> Measured(latencies, podIPMap, p) && p.podIP !in rest
      decreases |rest|
    {
      var ip :| ip in rest;
      rest := rest - {ip};
      if ip in podIPMap {
        var p := PodRanking(podIPMap[ip].name, ip, latencies[ip]);
        forall i | 0 <= i < |collected|
          ensures collected[i].podIP != ip
        {
          assert collected[i] in collected;
        }
        collected := collected + [p];
      }
    }
    var rankings := new PodRanking[|collected|](i requires 0 <= i < |collected| => collected[i]);
    assert rankings[..] == collected;
    RankPods(rankings);
    ranked := rankings[..];
    DistinctPermutation(collected, ranked);
    forall p
      ensures p in ranked <==> p in collected
    {
      assert p in ranked <==> p in multiset(ranked);
      assert p in collected <==> p in multiset(collected);
    }
  }

  lemma TwoOccurrences(s: seq<PodRanking>, i: nat, j: nat)
    requires i < j < |s| && s[i] == s[j]
    ensures multiset(s)[s[i]] >= 2
  {
    assert s == s[..i] + [s[i]] + s[i + 1..j] + [s[j]] + s[j + 1..];
  }

  lemma DistinctPermutation(a: seq<PodRanking>, b: seq<PodRanking>)
    requires DistinctIPs(a) && multiset(a) == multiset(b)
    ensures DistinctIPs(b)
  {
    forall i, j | 0 <= i < j < |b|
      ensures b[i].podIP != b[j].podIP
    {
      assert b[i] in multiset(a) && b[j] in multiset(a);
      if b[i] == b[j] {
        TwoOccurrences(b, i, j);
        DistinctCounts(a, b[i]);
      }
    }
  }

  method MakeInfos(allRankings: seq<PodRanking>, breaker: Breaker?) returns (podInfos: seq<PodLatencyInfo>)
    ensures podInfos == Infos(allRankings, if breaker == null then map[] else breaker.pods)
  {
    ghost var states: Pods := if breaker == null then map[] else breaker.pods;
    podInfos := [];
    var i := 0;
    while i < |allRankings| && i < MAX_STATUS_POD_ENTRIES
      invariant i <= |allRankings| && i <= MAX_STATUS_POD_ENTRIES
      invariant podInfos == Infos(allRankings[..i], states)
    {
      var p := allRankings[i];
      var info := PodLatencyInfo(p.podName, p.podIP, p.stats.p50, p.stats.p99, false);
      if breaker != null {
        var ejected := breaker.IsEjected(p.podIP);
        info := info.(circuitBroken := ejected);
      }
      podInfos := podInfos + [info];
      i := i + 1;
    }
    assert podInfos == Infos(allRankings, states);
  }

  method MakeStatus(last: PolicyStatus, allRankings: seq<PodRanking>, selected: seq<PodRanking>, breaker: Breaker?)
    returns (status: PolicyStatus)
    ensures status == StatusOf(last, allRankings, selected, if breaker == null then map[] else breaker.pods)
  {
    ghost var states: Pods := if breaker == null then map[] else breaker.pods;
    status := last.(activePods := |selected|, totalPods := |allRankings|);
    if |allRankings| > 0 {
      var p99 := ComputeFleetP99(allRankings);
      var average := ComputeFleetAverage(allRankings);
      status := status.(
        p99LatencyMs := TruncDiv(p99, NANOS_PER_MILLI), averageLatencyMs := TruncDiv(average, NANOS_PER_MILLI));
    }
    var podInfos := MakeInfos(allRankings, breaker);
    status := status.(podLatencies := podInfos, circuitBrokenPods := {});
    if breaker != null {
      var ejected := breaker.GetEjectedPods();
      status := status.(circuitBrokenPods := set ip | ip in ejected);
    }
    assert status.circuitBrokenPods == set ip | ip in states && states[ip].state.Open?;
  }
}
