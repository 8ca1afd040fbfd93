/** What a reconcile achieves, through all its stages. */
module ControllerProperties {
  import opened Arithmetic
  import opened GoInt
  import opened Order
  import opened Aggregator
  import opened CircuitBreaker
  import opened Cluster
  import opened EndpointSlice
  import opened Decision
  import opened FinalizerProtocol
  import opened Controller

  // ---------- what is published ----------

  /** The copy a reconcile works on once the finalizer is ensured. */
  function Working(store: Store, key: ObjectKey, env: Env): Policy
    requires Evaluates(store, key, env)
  {
    Adopt(store, key, store.policies[key], env.addFinalizer).1.value
  }

  function EvaluationOf(store: Store, mem: Memory, key: ObjectKey, env: Env, ranked: seq<PodRanking>): Evaluation
    requires Evaluates(store, key, env)
  {
    Evaluated(mem, key, Working(store, key, env).spec, ranked, env.clock)
  }

  function SliceOf(store: Store, key: ObjectKey, env: Env): ObjectKey
    requires Evaluates(store, key, env)
  {
    SliceKeyOf(key, Working(store, key, env))
  }

  /** The reconcile decides to publish, and the calls that do it take effect. */
  predicate Publishes(store: Store, mem: Memory, key: ObjectKey, env: Env, ranked: seq<PodRanking>) {
    && Evaluates(store, key, env)
    && EvaluationOf(store, mem, key, env, ranked).publish
    && TakesEffect(env.getSlice, env.writeSlice)
  }

  lemma DesiredAddresses(name: string, owner: nat, selected: seq<PodRanking>, table: map<string, Pod>)
    ensures Addresses(Desired(name, owner, PodEndpoints(selected, table))) == IPs(selected)
  {
  }

  /** A reconcile that publishes leaves exactly its selection, under its own name, in the slice of its Service, and
      touches no other slice; any other evaluation touches none. */
  lemma ReconcilePublishesSelection(store: Store, mem: Memory, key: ObjectKey, env: Env, ranked: seq<PodRanking>)
    requires Evaluates(store, key, env)
    ensures var after := Reconciled(store, mem, key, env, ranked).0;
      var e, sliceKey := EvaluationOf(store, mem, key, env, ranked), SliceOf(store, key, env);
      if Publishes(store, mem, key, env, ranked) then
        && after.slices.Keys == store.slices.Keys + {sliceKey}
        && (forall k :: k in store.slices && k != sliceKey ==> after.slices[k] == store.slices[k])
        && var slice := after.slices[sliceKey];
        && slice.policyName == key.name
        && slice.endpoints == Endpoints(PodEndpoints(e.selected, TableOf(env)))
        && Addresses(slice) == IPs(e.selected)
        && slice.owner == if sliceKey in store.slices then store.slices[sliceKey].owner
                          else Working(store, key, env).uid
      else
        after.slices == store.slices
    ensures Reconciled(store, mem, key, env, ranked).1 == EvaluationOf(store, mem, key, env, ranked).memory
  {
    var adopting := Adopt(store, key, store.policies[key], env.addFinalizer).0;
    assert adopting.slices == store.slices;
    var e := EvaluationOf(store, mem, key, env, ranked);
    DesiredAddresses(key.name, Working(store, key, env).uid, e.selected, TableOf(env));
  }

  /** The evaluation is optimal: with the breaker's verdicts, every selected pod is a candidate, none left out is
      faster, and nothing is selected only if nothing was measured. */
  lemma EvaluationIsOptimal(mem: Memory, key: ObjectKey, spec: PolicySpec, ranked: seq<PodRanking>,
                            clock: nat -> int, latencies: map<string, Stats>, table: map<string, Pod>)
    requires IsRanking(ranked, latencies, table)
    ensures var e := Evaluated(mem, key, spec, ranked, clock);
      var states := States(e.memory.breakers, key, spec);
      && e.admitted == Admitted(states, ranked)
      && (forall p :: p in e.selected ==> Candidate(states, latencies, table, p))
      && (forall p, q :: p in e.selected && Candidate(states, latencies, table, q) && q !in e.selected ==>
            p.stats.p99 <= q.stats.p99)
      && (e.selected == [] <==> forall p :: !Measured(latencies, table, p))
  {
    var e := Evaluated(mem, key, spec, ranked, clock);
    var states := States(e.memory.breakers, key, spec);
    if !BreakerOn(spec) {
      NobodyEjected(states, ranked);
    }
    SelectionIsOptimal(spec, states, ranked, latencies, table);
  }

  /** End to end, in terms of the published slice: whenever a reconcile publishes, every address in the slice is
      that of a candidate, no candidate left out of it is faster than one in it, and it is empty only if no pod
      was measured. */
  lemma PublishedSliceIsOptimal(store: Store, mem: Memory, key: ObjectKey, env: Env, ranked: seq<PodRanking>)
    requires Publishes(store, mem, key, env, ranked)
    requires IsRanking(ranked, env.latencies.value, TableOf(env))
    ensures var (after, mem') := Reconciled(store, mem, key, env, ranked);
      var sliceKey, latencies, table := SliceOf(store, key, env), env.latencies.value, TableOf(env);
      var states := States(mem'.breakers, key, Working(store, key, env).spec);
      && sliceKey in after.slices
      && var ips := Addresses(after.slices[sliceKey]);
      && (forall ip :: ip in ips ==> exists p: PodRanking :: p.podIP == ip && Candidate(states, latencies, table, p))
      && (forall p, q |
            && Candidate(states, latencies, table, p) && p.podIP in ips
            && Candidate(states, latencies, table, q) && q.podIP !in ips ::
            p.stats.p99 <= q.stats.p99)
      && (ips == [] <==> forall p :: !Measured(latencies, table, p))
  {
    var (after, mem') := Reconciled(store, mem, key, env, ranked);
    var spec, e := Working(store, key, env).spec, EvaluationOf(store, mem, key, env, ranked);
    ReconcilePublishesSelection(store, mem, key, env, ranked);
    EvaluationIsOptimal(mem, key, spec, ranked, env.clock, env.latencies.value, TableOf(env));
    AddressesOfSelection(e.selected, States(mem'.breakers, key, spec), env.latencies.value, TableOf(env));
  }

  lemma AddressesOfSelection(selected: seq<PodRanking>, states: Pods,
                             latencies: map<string, Stats>, table: map<string, Pod>)
    requires forall p :: p in selected ==> Candidate(states, latencies, table, p)
    ensures forall ip :: ip in IPs(selected) ==>
      exists p: PodRanking :: p.podIP == ip && Candidate(states, latencies, table, p)
    ensures forall p :: Candidate(states, latencies, table, p) ==> (p.podIP in IPs(selected) <==> p in selected)
  {
    forall ip | ip in IPs(selected)
      ensures exists p: PodRanking :: p.podIP == ip && Candidate(states, latencies, table, p)
    {
      var i :| 0 <= i < |selected| && IPs(selected)[i] == ip;
      assert selected[i] in selected;
    }
    forall p | Candidate(states, latencies, table, p)
      ensures p.podIP in IPs(selected) <==> p in selected
    {
      if p.podIP in IPs(selected) {
        var i :| 0 <= i < |selected| && IPs(selected)[i] == p.podIP;
        assert selected[i] in selected;
        assert selected[i] == p;
      }
      assert forall i :: 0 <= i < |selected| ==> IPs(selected)[i] == selected[i].podIP;
    }
  }

  // ---------- status ----------

  lemma AllOrNone(states: Pods, ranked: seq<PodRanking>)
    requires AscendingBy(P99Of, ranked) && DistinctIPs(ranked)
    ensures (forall p :: p in Admitted(states, ranked) ==> Ejected(states, p.podIP))
         || (forall p :: p in Admitted(states, ranked) ==> !Ejected(states, p.podIP))
    ensures AscendingBy(P99Of, Admitted(states, ranked))
  {
    HealthyOnes(states, ranked);
    if |Healthy(states, ranked)| == 0 {
      assert forall p :: p in ranked ==> p !in Healthy(states, ranked);
    }
  }

  /** The listed pods are the first ten of the pods that took part; either none of them or all are marked as
      circuit-broken, in agreement with the list of broken pods; no more pods are active than there are in all. */
  lemma StatusIsConsistent(last: PolicyStatus, states: Pods, ranked: seq<PodRanking>, spec: PolicySpec)
    requires AscendingBy(P99Of, ranked) && DistinctIPs(ranked)
    ensures var admitted := Admitted(states, ranked);
      var status := StatusOf(last, admitted, SelectPods(spec, admitted), states);
      var infos := status.podLatencies;
      && |infos| == (if |admitted| < 10 then |admitted| else 10)
      && (forall i :: 0 <= i < |infos| ==>
            infos[i].podIP == admitted[i].podIP && infos[i].p99 == admitted[i].stats.p99
            && (infos[i].circuitBroken <==> infos[i].podIP in status.circuitBrokenPods))
      && (forall i, j :: 0 <= i < j < |infos| ==> infos[i].circuitBroken == infos[j].circuitBroken)
      && 0 <= status.activePods <= status.totalPods
  {
    AllOrNone(states, ranked);
    var admitted := Admitted(states, ranked);
    SelectionIsPrefix(spec, admitted);
    var infos := Infos(admitted, states);
    forall i | 0 <= i < |infos|
      ensures infos[i].circuitBroken == Ejected(states, admitted[0].podIP)
    {
      assert admitted[i] in admitted && admitted[0] in admitted;
    }
  }

  /** The policy a reconcile works on is the stored one. */
  lemma WorkingIsStored(store: Store, key: ObjectKey, env: Env)
    requires Evaluates(store, key, env)
    ensures var adopting := Adopt(store, key, store.policies[key], env.addFinalizer).0;
      key in adopting.policies && adopting.policies[key] == Working(store, key, env)
  {
  }

  /** The status that publishing leaves on a policy of which the copy is up to date. */
  lemma PublishedStatus(store: Store, key: ObjectKey, policy: Policy, env: Env, table: map<string, Pod>,
                        admitted: seq<PodRanking>, selected: seq<PodRanking>, states: Pods)
    requires key in store.policies && store.policies[key] == policy && !policy.deleting
    requires env.getSlice.Fine? && env.writeSlice.Fine? && !env.writeStatus.Refused?
    ensures var after := PublishStage(store, key, policy, env, table, admitted, selected, states);
      && key in after.policies
      && after.policies[key].status == StatusOf(policy.status, admitted, selected, states)
  {
  }

  /** A reconcile whose slice calls work and whose status write takes effect leaves that status on the policy. */
  lemma ReconcileReportsConsistently(store: Store, mem: Memory, key: ObjectKey, env: Env, ranked: seq<PodRanking>)
    requires Evaluates(store, key, env)
    requires IsRanking(ranked, env.latencies.value, TableOf(env))
    requires EvaluationOf(store, mem, key, env, ranked).publish
    requires env.getSlice.Fine? && env.writeSlice.Fine? && !env.writeStatus.Refused?
    ensures var (after, mem') := Reconciled(store, mem, key, env, ranked);
      var e, states := EvaluationOf(store, mem, key, env, ranked),
        States(mem'.breakers, key, Working(store, key, env).spec);
      && key in after.policies
      && var status := after.policies[key].status;
      && status == StatusOf(Working(store, key, env).status, e.admitted, e.selected, states)
      && e.admitted == Admitted(states, ranked)
      && e.selected == SelectPods(Working(store, key, env).spec, e.admitted)
  {
    var policy, e := Working(store, key, env), EvaluationOf(store, mem, key, env, ranked);
    WorkingIsStored(store, key, env);
    PublishedStatus(Adopt(store, key, store.policies[key], env.addFinalizer).0, key, policy, env, TableOf(env),
                    e.admitted, e.selected, States(e.memory.breakers, key, policy.spec));
    EvaluationIsOptimal(mem, key, policy.spec, ranked, env.clock, env.latencies.value, TableOf(env));
  }

  /** The reported average lies between the smallest and the largest reported latency when the sum fits. */
  lemma StatusAverage(last: PolicyStatus, admitted: seq<PodRanking>, selected: seq<PodRanking>, states: Pods,
                      lo: int, hi: int)
    requires admitted != [] && Fits64(Sum(Keys(P99Of, admitted)))
    requires forall p :: p in admitted ==> lo <= p.stats.p99 <= hi
    ensures var status := StatusOf(last, admitted, selected, states);
      TruncDiv(lo, NANOS_PER_MILLI) <= status.averageLatencyMs <= TruncDiv(hi, NANOS_PER_MILLI)
  {
    var keys := Keys(P99Of, admitted);
    forall i | 0 <= i < |keys|
      ensures lo <= keys[i] <= hi
    {
      assert admitted[i] in admitted;
    }
    AverageWithinBounds(keys, lo, hi);
    TruncMonotone(lo, Average(keys), NANOS_PER_MILLI);
    TruncMonotone(Average(keys), hi, NANOS_PER_MILLI);
  }

  /** The reported fleet P99 is the nearest-rank 99th percentile of the pods that took part, in milliseconds; with
      up to 100 of them, that of the slowest. */
  lemma StatusP99(last: PolicyStatus, admitted: seq<PodRanking>, selected: seq<PodRanking>, states: Pods)
    requires admitted != []
    ensures var reported := StatusOf(last, admitted, selected, states).p99LatencyMs;
      && (exists v :: IsPercentile(Keys(P99Of, admitted), 99, v) && reported == TruncDiv(v, NANOS_PER_MILLI))
      && (|admitted| <= 100 ==> forall p :: p in admitted ==> TruncDiv(p.stats.p99, NANOS_PER_MILLI) <= reported)
  {
    assert IsPercentile(Keys(P99Of, admitted), 99, FleetP99(admitted));
    FleetP99OrderFree(admitted, admitted);
    forall p | p in admitted && |admitted| <= 100
      ensures TruncDiv(p.stats.p99, NANOS_PER_MILLI) <= TruncDiv(FleetP99(admitted), NANOS_PER_MILLI)
    {
      TruncMonotone(p.stats.p99, FleetP99(admitted), NANOS_PER_MILLI);
    }
  }

  lemma TruncMonotone(a: int, b: int, n: int)
    requires n > 0 && a <= b
    ensures TruncDiv(a, n) <= TruncDiv(b, n)
  {
    var q, r := TruncDiv(a, n), TruncDiv(b, n);
    if r < q {
      Product(n, r + 1, q);
    }
  }
}
