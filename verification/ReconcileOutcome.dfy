/** What one reconcile leaves behind, in terms of what it meets: when it evaluates, the endpoints and the status it
    writes, and what every other way out leaves alone. */
module ReconcileOutcome {
  import opened Options
  import opened Aggregator
  import opened Arithmetic
  import opened Cluster
  import opened Controller
  import opened ControllerProperties
  import opened Decision
  import opened EndpointSlice
  import opened EvaluationOutcome
  import opened FinalizerProtocol
  import opened GoInt
  import opened Order
  import CircuitBreaker

  // ---------- the pods behind an address ----------

  predicate IsReady(pod: Pod) { pod.running && !pod.deleting }

  predicate IsLastWith(pods: seq<Pod>, ip: string, i: nat)
    requires i < |pods|
  {
    && IsReady(pods[i]) && pods[i].ip == ip
    && forall j :: i < j < |pods| && IsReady(pods[j]) ==> pods[j].ip != ip
  }

  /** The last ready pod with the address. */
  predicate StandsFor(pods: seq<Pod>, ip: string, pod: Pod) {
    ip != "" && exists i :: 0 <= i < |pods| && pods[i] == pod && IsLastWith(pods, ip, i)
  }

  lemma IsLastStep(pods: seq<Pod>, last: Pod, ip: string, i: nat)
    requires i < |pods|
    ensures IsLastWith(pods + [last], ip, i) <==> IsLastWith(pods, ip, i) && !(IsReady(last) && last.ip == ip)
  {
    var all := pods + [last];
    assert all[|pods|] == last;
    assert forall j :: 0 <= j < |pods| ==> all[j] == pods[j];
  }

  lemma StandsForStep(pods: seq<Pod>, last: Pod, ip: string, pod: Pod)
    ensures StandsFor(pods + [last], ip, pod) <==>
      if IsReady(last) && last.ip == ip then ip != "" && pod == last else StandsFor(pods, ip, pod)
  {
    var all := pods + [last];
    assert all[|pods|] == last;
    forall i | 0 <= i < |pods| {
      IsLastStep(pods, last, ip, i);
    }
    if IsReady(last) && last.ip == ip {
      assert IsLastWith(all, ip, |pods|);
    } else if ip != "" && StandsFor(pods, ip, pod) {
      var i :| 0 <= i < |pods| && pods[i] == pod && IsLastWith(pods, ip, i);
      assert all[i] == pod && IsLastWith(all, ip, i);
    } else {
      assert forall i :: 0 <= i < |pods| ==> all[i] == pods[i];
    }
  }

  function KnownPod(pods: seq<Pod>, ip: string): Option<Pod> {
    var table := PodTable(ReadyPods(pods));
    if ip in table then Some(table[ip]) else None
  }

  lemma KnownPodStep(pods: seq<Pod>, last: Pod, ip: string)
    ensures KnownPod(pods + [last], ip)
         == if IsReady(last) && last.ip == ip && ip != "" then Some(last) else KnownPod(pods, ip)
  {
    assert (pods + [last])[..|pods|] == pods;
    var ready := ReadyPods(pods);
    assert (ready + [last])[..|ready|] == ready;
    assert ready + [] == ready;
  }

  lemma {:induction false} KnownPodMeaning(pods: seq<Pod>, ip: string, pod: Pod)
    ensures KnownPod(pods, ip) == Some(pod) <==> StandsFor(pods, ip, pod)
  {
    if pods != [] {
      var before, last := pods[..|pods| - 1], pods[|pods| - 1];
      assert pods == before + [last];
      KnownPodMeaning(before, ip, pod);
      KnownPodStep(before, last, ip);
      StandsForStep(before, last, ip, pod);
      if ip == "" {
        PodTableSound(ReadyPods(pods), ip);
      }
    }
  }

  /** The addresses a reconcile knows, and the pods they stand for. */
  lemma TableMeaning(pods: seq<Pod>, ip: string)
    ensures ip in PodTable(ReadyPods(pods)) ==> StandsFor(pods, ip, PodTable(ReadyPods(pods))[ip])
    ensures forall pod :: StandsFor(pods, ip, pod) ==>
      ip in PodTable(ReadyPods(pods)) && PodTable(ReadyPods(pods))[ip] == pod
  {
    forall pod {
      KnownPodMeaning(pods, ip, pod);
    }
    var table := PodTable(ReadyPods(pods));
    if ip in table {
      KnownPodMeaning(pods, ip, table[ip]);
    }
  }

  lemma {:induction false} SomeReady(pods: seq<Pod>)
    ensures ReadyPods(pods) != [] <==> exists i :: 0 <= i < |pods| && IsReady(pods[i])
  {
    if pods != [] {
      var before, last := pods[..|pods| - 1], pods[|pods| - 1];
      SomeReady(before);
      assert forall i :: 0 <= i < |before| ==> before[i] == pods[i];
      if IsReady(last) {
        assert IsReady(pods[|pods| - 1]);
      }
    }
  }

  /** The ranking lists, fastest first, each address that was measured and stands for a ready pod, once, with that
      pod's name and the latencies measured. */
  lemma RankingMeaning(ranked: seq<PodRanking>, latencies: map<string, Stats>, pods: seq<Pod>)
    requires IsRanking(ranked, latencies, PodTable(ReadyPods(pods)))
    ensures forall i, j :: 0 <= i < j < |ranked| ==>
      ranked[i].stats.p99 <= ranked[j].stats.p99 && ranked[i].podIP != ranked[j].podIP
    ensures forall p :: p in ranked ==>
      && p.podIP in latencies && p.stats == latencies[p.podIP]
      && exists pod :: StandsFor(pods, p.podIP, pod) && pod.name == p.podName
    ensures forall ip, pod :: ip in latencies && StandsFor(pods, ip, pod) ==>
      PodRanking(pod.name, ip, latencies[ip]) in ranked
  {
    var table := PodTable(ReadyPods(pods));
    forall i, j | 0 <= i < j < |ranked|
      ensures ranked[i].stats.p99 <= ranked[j].stats.p99 && ranked[i].podIP != ranked[j].podIP
    {
      assert P99Of(ranked[i]) <= P99Of(ranked[j]);
    }
    forall p | p in ranked
      ensures p.podIP in latencies && p.stats == latencies[p.podIP]
      ensures exists pod :: StandsFor(pods, p.podIP, pod) && pod.name == p.podName
    {
      assert Measured(latencies, table, p);
      TableMeaning(pods, p.podIP);
      assert StandsFor(pods, p.podIP, table[p.podIP]);
    }
    forall ip, pod | ip in latencies && StandsFor(pods, ip, pod)
      ensures PodRanking(pod.name, ip, latencies[ip]) in ranked
    {
      TableMeaning(pods, ip);
      assert Measured(latencies, table, PodRanking(pod.name, ip, latencies[ip]));
    }
  }

  // ---------- when a reconcile evaluates ----------

  const NAME_OF_FINALIZER := "aviator.io/finalizer"

  /** It finds the policy, not deleted, with the finalizer or the chance to add it; the Service; at least one ready
      pod; and latencies. */
  lemma EvaluatesMeaning(store: Store, key: ObjectKey, env: Env)
    ensures Evaluates(store, key, env) <==>
      && env.getPolicy.Fine? && key in store.policies && !store.policies[key].deleting
      && (NAME_OF_FINALIZER in store.policies[key].finalizers || env.addFinalizer.Fine?)
      && env.service.Present?
      && env.pods.Some? && (exists i :: 0 <= i < |env.pods.value| && IsReady(env.pods.value[i]))
      && env.latencies.Some?
  {
    if env.pods.Some? {
      SomeReady(env.pods.value);
    }
  }

  lemma WorkingMeaning(store: Store, key: ObjectKey, env: Env)
    requires Evaluates(store, key, env)
    ensures var policy, stored := Working(store, key, env), store.policies[key];
      && policy.spec == stored.spec && policy.status == stored.status && policy.uid == stored.uid
      && policy.finalizers == stored.finalizers + {NAME_OF_FINALIZER}
  {
    assert store.policies[key].finalizers + {FINALIZER} == store.policies[key].finalizers
      || FINALIZER !in store.policies[key].finalizers;
  }

  /** Then its entries are those of the evaluation of the stored spec. */
  lemma EvaluationRuns(store: Store, mem: Memory, key: ObjectKey, env: Env, ranked: seq<PodRanking>)
    requires Evaluates(store, key, env)
    ensures key in store.policies
    ensures EvaluationOf(store, mem, key, env, ranked)
         == Evaluated(mem, key, store.policies[key].spec, ranked, env.clock)
    ensures Reconciled(store, mem, key, env, ranked).1
         == Evaluated(mem, key, store.policies[key].spec, ranked, env.clock).memory
  {
    WorkingMeaning(store, key, env);
    ReconcilePublishesSelection(store, mem, key, env, ranked);
  }

  // ---------- the endpoints ----------

  /** The slice that a publishing reconcile leaves: one ready endpoint for each selected pod, in order, with the
      address, name and node of the pod that the address stands for. */
  lemma PublishedEndpoints(store: Store, mem: Memory, key: ObjectKey, env: Env, ranked: seq<PodRanking>)
    requires Publishes(store, mem, key, env, ranked)
    requires IsRanking(ranked, env.latencies.value, TableOf(env))
    ensures key in store.policies && env.pods.Some?
    ensures var policy, after := store.policies[key], Reconciled(store, mem, key, env, ranked).0;
      var selected := Evaluated(mem, key, policy.spec, ranked, env.clock).selected;
      var sliceKey := ObjectKey(key.ns, "aviator-" + policy.spec.target);
      && sliceKey in after.slices
      && var endpoints := after.slices[sliceKey].endpoints;
      && after.slices[sliceKey].policyName == key.name
      && after.slices[sliceKey].owner
         == (if sliceKey in store.slices then store.slices[sliceKey].owner else policy.uid)
      && |endpoints| == |selected|
      && forall i :: 0 <= i < |selected| ==>
        && endpoints[i].address == selected[i].podIP
        && endpoints[i].podName == selected[i].podName
        && endpoints[i].ready
        && exists pod ::
           && StandsFor(env.pods.value, selected[i].podIP, pod)
           && endpoints[i].podName == pod.name
           && endpoints[i].nodeName == if pod.nodeName == "" then None else Some(pod.nodeName)
  {
    EvaluationRuns(store, mem, key, env, ranked);
    WorkingMeaning(store, key, env);
    ReconcilePublishesSelection(store, mem, key, env, ranked);
    var selected := EvaluationOf(store, mem, key, env, ranked).selected;
    SelectedAreRanked(mem, key, store.policies[key].spec, ranked, env.clock);
    forall i | 0 <= i < |selected|
      ensures selected[i].podIP in TableOf(env)
      ensures StandsFor(env.pods.value, selected[i].podIP, TableOf(env)[selected[i].podIP])
      ensures selected[i].podName == TableOf(env)[selected[i].podIP].name
    {
      assert selected[i] in ranked;
      assert Measured(env.latencies.value, TableOf(env), selected[i]);
      TableMeaning(env.pods.value, selected[i].podIP);
    }
    SliceKeyText(key.ns, store.policies[key].spec.target);
  }

  lemma SliceKeyText(ns: string, service: string)
    ensures SliceKey(ns, service) == ObjectKey(ns, "aviator-" + service)
  {
  }

  lemma SelectedAreRanked(mem: Memory, key: ObjectKey, spec: PolicySpec, ranked: seq<PodRanking>, clock: nat -> int)
    requires AscendingBy(P99Of, ranked) && DistinctIPs(ranked)
    ensures forall p :: p in Evaluated(mem, key, spec, ranked, clock).selected ==> p in ranked
  {
    TakingPart(mem, key, spec, ranked, clock);
    SelectedPrefix(mem, key, spec, ranked, clock);
  }

  // ---------- the other ways out ----------

  /** Finding no policy, or none to be read, a reconcile does nothing. */
  lemma NothingToDo(store: Store, mem: Memory, key: ObjectKey, env: Env, ranked: seq<PodRanking>)
    requires !env.getPolicy.Fine? || key !in store.policies
    ensures Reconciled(store, mem, key, env, ranked) == (store, mem)
  {
  }

  /** A live policy that is not evaluated, whatever is missing, keeps its spec, its status and its entries; it may have
      got the finalizer; no slice and no other policy is touched. */
  lemma NotEvaluated(store: Store, mem: Memory, key: ObjectKey, env: Env, ranked: seq<PodRanking>)
    requires key in store.policies && !store.policies[key].deleting && !Evaluates(store, key, env)
    ensures var (after, mem') := Reconciled(store, mem, key, env, ranked);
      && after.slices == store.slices && mem' == mem
      && after.policies.Keys == store.policies.Keys
      && (forall k :: k in store.policies && k != key ==> after.policies[k] == store.policies[k])
      && var before, policy := store.policies[key], after.policies[key];
      && policy == before.(version := policy.version, finalizers := policy.finalizers)
      && policy.finalizers ==
           before.finalizers + (if env.getPolicy.Fine? && !env.addFinalizer.Refused? then {NAME_OF_FINALIZER} else {})
  {
  }

  /** A deleted policy: without the finalizer nothing happens.  With it, the slice goes first; then, only if that was
      reported to work, the entries go, and the finalizer if that write takes effect. */
  lemma DeletionOutcome(store: Store, mem: Memory, key: ObjectKey, env: Env, ranked: seq<PodRanking>)
    requires env.getPolicy.Fine? && key in store.policies && store.policies[key].deleting
    ensures var (after, mem') := Reconciled(store, mem, key, env, ranked);
      var policy := store.policies[key];
      var sliceKey := ObjectKey(key.ns, "aviator-" + policy.spec.target);
      if NAME_OF_FINALIZER !in policy.finalizers then (after, mem') == (store, mem)
      else
        && after.slices == (if env.deleteSlice.Refused? then store.slices else store.slices - {sliceKey})
        && mem' == (if env.deleteSlice.Fine? then Memory(mem.breakers - {key}, mem.dampeners - {key}) else mem)
        && (forall k :: k != key ==>
              (k in after.policies <==> k in store.policies)
              && (k in store.policies ==> after.policies[k] == store.policies[k]))
        && if env.deleteSlice.Fine? && !env.removeFinalizer.Refused? then
             var left := policy.finalizers - {NAME_OF_FINALIZER};
             && (key in after.policies <==> left != {})
             && (left != {} ==> after.policies[key].finalizers == left && after.policies[key].deleting)
           else key in after.policies && after.policies[key] == policy
  {
    SliceKeyText(key.ns, store.policies[key].spec.target);
  }

  // ---------- the status ----------

  /** The figures of a status, pod by pod. */
  ghost predicate StatusDescribes(
    status: PolicyStatus, last: PolicyStatus, mem: Memory, key: ObjectKey, spec: PolicySpec,
    admitted: seq<PodRanking>, selected: seq<PodRanking>)
  {
    && status.activePods == |selected|
    && status.totalPods == |admitted|
    && (forall ip :: ip in status.circuitBrokenPods <==> IsOpen(mem, key, spec, ip))
    && |status.podLatencies| == (if |admitted| < 10 then |admitted| else 10)
    && (forall i :: 0 <= i < |status.podLatencies| ==>
          status.podLatencies[i] == PodLatencyInfo(
            admitted[i].podName, admitted[i].podIP, admitted[i].stats.p50, admitted[i].stats.p99,
            IsOpen(mem, key, spec, admitted[i].podIP)))
    && if admitted == [] then
         status.averageLatencyMs == last.averageLatencyMs && status.p99LatencyMs == last.p99LatencyMs
       else
         && InMillis(status.averageLatencyMs, MeanP99(admitted))
         && exists v :: IsPercentile(P99s(admitted), 99, v) && InMillis(status.p99LatencyMs, v)
  }

  function P99s(pods: seq<PodRanking>): seq<int> {
    seq(|pods|, i requires 0 <= i < |pods| => pods[i].stats.p99)
  }

  /** The mean, rounded toward zero, of the int64 the sum wraps to. */
  function MeanP99(pods: seq<PodRanking>): int
    requires pods != []
  {
    var total := Wrap64(Sum(P99s(pods)));
    if total >= 0 then total / |pods| else -((-total) / |pods|)
  }

  /** Nanoseconds in milliseconds, rounded toward zero. */
  predicate InMillis(ms: int, ns: int) {
    ms == if ns >= 0 then ns / 1_000_000 else -((-ns) / 1_000_000)
  }

  lemma FiguresMeaning(last: PolicyStatus, admitted: seq<PodRanking>, selected: seq<PodRanking>,
                       states: CircuitBreaker.Pods)
    requires admitted != []
    ensures var status := StatusOf(last, admitted, selected, states);
      && InMillis(status.averageLatencyMs, MeanP99(admitted))
      && IsPercentile(P99s(admitted), 99, FleetP99(admitted))
      && InMillis(status.p99LatencyMs, FleetP99(admitted))
  {
    assert Keys(P99Of, admitted) == P99s(admitted);
    assert IsPercentile(Keys(P99Of, admitted), 99, FleetP99(admitted));
  }

  lemma StatusMeaning(last: PolicyStatus, mem: Memory, key: ObjectKey, spec: PolicySpec,
                      admitted: seq<PodRanking>, selected: seq<PodRanking>)
    ensures StatusDescribes(StatusOf(last, admitted, selected, States(mem.breakers, key, spec)), last, mem, key, spec,
                            admitted, selected)
  {
    if admitted != [] {
      FiguresMeaning(last, admitted, selected, States(mem.breakers, key, spec));
    }
  }

  /** A reconcile leaves on the policy a status that describes its evaluation exactly when it published, was told that
      it worked, and the write of the status takes effect; otherwise it leaves the status as it was. */
  lemma StatusOutcome(store: Store, mem: Memory, key: ObjectKey, env: Env, ranked: seq<PodRanking>)
    requires Evaluates(store, key, env)
    ensures key in store.policies
    ensures var (after, mem') := Reconciled(store, mem, key, env, ranked);
      var policy := store.policies[key];
      var e := Evaluated(mem, key, policy.spec, ranked, env.clock);
      && key in after.policies && after.policies[key].spec == policy.spec
      && after.policies[key].finalizers == policy.finalizers + {NAME_OF_FINALIZER}
      && if e.publish && env.getSlice.Fine? && env.writeSlice.Fine? && !env.writeStatus.Refused? then
           StatusDescribes(after.policies[key].status, policy.status, mem', key, policy.spec, e.admitted, e.selected)
         else after.policies[key].status == policy.status
  {
    var policy, e := Working(store, key, env), EvaluationOf(store, mem, key, env, ranked);
    var adopting := Adopt(store, key, store.policies[key], env.addFinalizer).0;
    EvaluationRuns(store, mem, key, env, ranked);
    WorkingMeaning(store, key, env);
    WorkingIsStored(store, key, env);
    StatusMeaning(policy.status, e.memory, key, policy.spec, e.admitted, e.selected);
    if e.publish {
      StageStatus(adopting, key, policy, env, TableOf(env), e.admitted, e.selected,
                  States(e.memory.breakers, key, policy.spec));
    }
  }

  lemma StageStatus(store: Store, key: ObjectKey, policy: Policy, env: Env, table: map<string, Pod>,
                    admitted: seq<PodRanking>, selected: seq<PodRanking>, states: CircuitBreaker.Pods)
    requires key in store.policies && store.policies[key] == policy && !policy.deleting
    ensures var after := PublishStage(store, key, policy, env, table, admitted, selected, states);
      && key in after.policies && after.policies[key].spec == policy.spec
      && after.policies[key].finalizers == policy.finalizers
      && after.policies[key].status
         == if env.getSlice.Fine? && env.writeSlice.Fine? && !env.writeStatus.Refused?
            then StatusOf(policy.status, admitted, selected, states) else policy.status
  {
  }
}
