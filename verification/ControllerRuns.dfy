/** Runs of the controller: every reconcile is a run of the finalizer protocol, and what follows for whole runs of
    reconciles, users' writes, garbage collection and restarts. */
module ControllerRuns {
  import opened Options
  import opened Aggregator
  import opened Cluster
  import opened EndpointSlice
  import opened FinalizerProtocol
  import opened Controller

  // ---------- every reconcile is a run of the finalizer protocol ----------

  /** The protocol's view of the controller between reconciles. */
  function AtRest(store: Store, mem: Memory): World {
    World(store, mem.breakers.Keys, mem.dampeners.Keys, map[])
  }

  function ScriptActive(store: Store, mem: Memory, key: ObjectKey, policy: Policy, env: Env,
                        ranked: seq<PodRanking>): seq<Action> {
    if !Measurable(env) then
      if ReportsFailure(env) then [GiveUp(key)] + [Report(key, policy.status, env.writeStatus)] else [Abandon(key)]
    else
      var e := Evaluated(mem, key, policy.spec, ranked, env.clock);
      if !e.publish then [Decide(key, BreakerOn(policy.spec), None)]
      else
        [Decide(key, BreakerOn(policy.spec), Some(EndpointsOf(e, env)))]
        + ScriptPublish(store, key, policy, env, EndpointsOf(e, env),
                        StatusAfter(store, key, policy, env, e))
  }

  function EndpointsOf(e: Evaluation, env: Env): seq<Endpoint>
    requires Measurable(env)
  {
    Endpoints(PodEndpoints(e.selected, TableOf(env)))
  }

  function StatusAfter(store: Store, key: ObjectKey, policy: Policy, env: Env, e: Evaluation): PolicyStatus
    requires Measurable(env)
  {
    var desired := Desired(key.name, policy.uid, PodEndpoints(e.selected, TableOf(env)));
    if Published(store, SliceKeyOf(key, policy), desired, env.getSlice, env.writeSlice).1
    then StatusOf(policy.status, e.admitted, e.selected, States(e.memory.breakers, key, policy.spec))
    else policy.status
  }

  function ScriptPublish(store: Store, key: ObjectKey, policy: Policy, env: Env,
                         endpoints: seq<Endpoint>, status: PolicyStatus): seq<Action> {
    [Look(key, env.getSlice)]
    + (if GetSlice(store, SliceKeyOf(key, policy), env.getSlice).Unavailable? then []
       else [Write(key, env.writeSlice)])
    + [Report(key, status, env.writeStatus)]
  }

  function ScriptLive(store: Store, mem: Memory, key: ObjectKey, copy: Policy, env: Env,
                      ranked: seq<PodRanking>): seq<Action> {
    var (adopting, adopted) := Adopt(store, key, copy, env.addFinalizer);
    [Proceed(key, env.addFinalizer)]
    + if adopted.None? then [] else ScriptActive(adopting, mem, key, adopted.value, env, ranked)
  }

  /** The protocol steps that make up a reconcile. */
  function Script(store: Store, mem: Memory, key: ObjectKey, env: Env, ranked: seq<PodRanking>): seq<Action> {
    var got := GetPolicy(store, key, env.getPolicy);
    [Load(key, env.getPolicy)]
    + if !got.Found? then []
      else if got.value.deleting then [Proceed(key, env.deleteSlice)] + [Release(key, env.removeFinalizer)]
      else ScriptLive(store, mem, key, got.value, env, ranked)
  }

  /** The world is at the given store and entries, and the policy's reconcile is over; the others are where
      they were. */
  predicate RestsAt(w': World, w: World, key: ObjectKey, store: Store, mem: Memory) {
    && w'.store == store
    && w'.breakers == mem.breakers.Keys && w'.dampeners == mem.dampeners.Keys
    && PhaseOf(w', key).Idle?
    && w'.phases - {key} == w.phases - {key}
  }

  /** The world is in the middle of the policy's reconcile. */
  predicate At(w: World, key: ObjectKey, phase: Phase, store: Store, mem: Memory) {
    && w.store == store
    && w.breakers == mem.breakers.Keys && w.dampeners == mem.dampeners.Keys
    && PhaseOf(w, key) == phase
  }

  lemma ReportSimulated(w: World, key: ObjectKey, copy: Policy, status: PolicyStatus, fault: Fault,
                        store: Store, mem: Memory)
    requires At(w, key, Reporting(copy), store, mem)
    ensures RestsAt(Next(w, Report(key, status, fault)), w, key,
                    UpdateStatus(store, key, copy.(status := status), fault), mem)
  {
  }

  lemma PublishSimulated(w: World, key: ObjectKey, policy: Policy, env: Env, slice: Slice, status: PolicyStatus,
                         store: Store, mem: Memory)
    requires At(w, key, Publishing(policy, slice.endpoints), store, mem)
    requires slice == Slice(key.name, slice.endpoints, policy.uid)
    ensures RestsAt(After(w, ScriptPublish(store, key, policy, env, slice.endpoints, status)), w, key,
      UpdateStatus(Published(store, SliceKeyOf(key, policy), slice, env.getSlice, env.writeSlice).0,
                   key, policy.(status := status), env.writeStatus), mem)
  {
    var look, write := Look(key, env.getSlice), Write(key, env.writeSlice);
    var report := Report(key, status, env.writeStatus);
    var w1 := Next(w, look);
    if GetSlice(store, SliceKeyOf(key, policy), env.getSlice).Unavailable? {
      assert [look] + [] + [report] == [look] + [report];
      AfterTwo(w, look, report);
      ReportSimulated(w1, key, policy, status, env.writeStatus, store, mem);
    } else {
      AfterThree(w, look, write, report);
      var w2 := Next(w1, write);
      ReportSimulated(w2, key, policy, status, env.writeStatus, w2.store, mem);
    }
  }

  lemma DecideSimulated(w: World, key: ObjectKey, policy: Policy, publish: Option<seq<Endpoint>>,
                        store: Store, mem: Memory, ranked: seq<PodRanking>, clock: nat -> int)
    requires At(w, key, Adopted(policy), store, mem)
    ensures var w' := Next(w, Decide(key, BreakerOn(policy.spec), publish));
      var e := Evaluated(mem, key, policy.spec, ranked, clock);
      && At(w', key, if publish.Some? then Publishing(policy, publish.value) else Idle, store, e.memory)
      && w'.phases - {key} == w.phases - {key}
  {
    assert Evaluated(mem, key, policy.spec, ranked, clock).memory.dampeners.Keys == mem.dampeners.Keys + {key};
  }

  lemma ActiveSimulated(w: World, key: ObjectKey, policy: Policy, env: Env, ranked: seq<PodRanking>,
                        store: Store, mem: Memory)
    requires At(w, key, Adopted(policy), store, mem)
    ensures var (store', mem') := ReconciledActive(store, mem, key, policy, env, ranked);
      RestsAt(After(w, ScriptActive(store, mem, key, policy, env, ranked)), w, key, store', mem')
  {
    if !Measurable(env) {
      if ReportsFailure(env) {
        AfterTwo(w, GiveUp(key), Report(key, policy.status, env.writeStatus));
        ReportSimulated(Next(w, GiveUp(key)), key, policy, policy.status, env.writeStatus, store, mem);
      } else {
        AfterOne(w, Abandon(key));
      }
    } else {
      var e := Evaluated(mem, key, policy.spec, ranked, env.clock);
      if !e.publish {
        AfterOne(w, Decide(key, BreakerOn(policy.spec), None));
        DecideSimulated(w, key, policy, None, store, mem, ranked, env.clock);
      } else {
        var endpoints, status := EndpointsOf(e, env), StatusAfter(store, key, policy, env, e);
        var decide := Decide(key, BreakerOn(policy.spec), Some(endpoints));
        AfterConcat(w, [decide], ScriptPublish(store, key, policy, env, endpoints, status));
        AfterOne(w, decide);
        DecideSimulated(w, key, policy, Some(endpoints), store, mem, ranked, env.clock);
        var desired := Desired(key.name, policy.uid, PodEndpoints(e.selected, TableOf(env)));
        PublishSimulated(Next(w, decide), key, policy, env, desired, status, store, e.memory);
      }
    }
  }

  lemma DeletionSimulated(w: World, key: ObjectKey, copy: Policy, env: Env, store: Store, mem: Memory)
    requires At(w, key, Loaded(copy), store, mem) && copy.deleting
    ensures var (store', mem') := HandledDeletion(store, mem, key, copy, env);
      RestsAt(After(w, [Proceed(key, env.deleteSlice)] + [Release(key, env.removeFinalizer)]), w, key, store', mem')
  {
    AfterTwo(w, Proceed(key, env.deleteSlice), Release(key, env.removeFinalizer));
  }

  lemma LiveSimulated(w: World, key: ObjectKey, copy: Policy, env: Env, ranked: seq<PodRanking>,
                      store: Store, mem: Memory)
    requires At(w, key, Loaded(copy), store, mem) && !copy.deleting
    ensures var (store', mem') := ReconciledLive(store, mem, key, copy, env, ranked);
      RestsAt(After(w, ScriptLive(store, mem, key, copy, env, ranked)), w, key, store', mem')
  {
    var adopt := Proceed(key, env.addFinalizer);
    AfterOne(w, adopt);
    var (adopting, adopted) := Adopt(store, key, copy, env.addFinalizer);
    if adopted.None? {
      assert [adopt] + [] == [adopt];
    } else {
      AfterConcat(w, [adopt], ScriptActive(adopting, mem, key, adopted.value, env, ranked));
      ActiveSimulated(Next(w, adopt), key, adopted.value, env, ranked, adopting, mem);
    }
  }

  /** A whole reconcile, whatever it meets, is a run of the protocol from rest to rest. */
  lemma ReconcileSimulated(store: Store, mem: Memory, key: ObjectKey, env: Env, ranked: seq<PodRanking>)
    ensures var (store', mem') := Reconciled(store, mem, key, env, ranked);
      RestsAt(After(AtRest(store, mem), Script(store, mem, key, env, ranked)), AtRest(store, mem), key, store', mem')
  {
    var w, load := AtRest(store, mem), Load(key, env.getPolicy);
    AfterOne(w, load);
    var got := GetPolicy(store, key, env.getPolicy);
    if got.Found? {
      var w1 := Next(w, load);
      assert At(w1, key, Loaded(got.value), store, mem) && w1.phases - {key} == w.phases - {key};
      if got.value.deleting {
        AfterConcat(w, [load], [Proceed(key, env.deleteSlice)] + [Release(key, env.removeFinalizer)]);
        DeletionSimulated(w1, key, got.value, env, store, mem);
      } else {
        AfterConcat(w, [load], ScriptLive(store, mem, key, got.value, env, ranked));
        LiveSimulated(w1, key, got.value, env, ranked, store, mem);
      }
    }
  }

  predicate KeepsTargets(actions: seq<Action>) {
    forall i :: 0 <= i < |actions| ==> !actions[i].Retarget?
  }

  lemma ActiveKeepsTargets(store: Store, mem: Memory, key: ObjectKey, policy: Policy, env: Env,
                           ranked: seq<PodRanking>)
    ensures KeepsTargets(ScriptActive(store, mem, key, policy, env, ranked))
  {
  }

  lemma ScriptKeepsTargets(store: Store, mem: Memory, key: ObjectKey, env: Env, ranked: seq<PodRanking>)
    ensures KeepsTargets(Script(store, mem, key, env, ranked))
  {
    var got := GetPolicy(store, key, env.getPolicy);
    if got.Found? {
      var (adopting, adopted) := Adopt(store, key, got.value, env.addFinalizer);
      if adopted.Some? {
        ActiveKeepsTargets(adopting, mem, key, adopted.value, env, ranked);
      }
    }
  }

  lemma RestingKeeps(w': World, key: ObjectKey, store: Store, mem: Memory, store': Store, mem': Memory)
    requires Inv(w') && RestsAt(w', AtRest(store, mem), key, store', mem')
    ensures Inv(AtRest(store', mem'))
  {
  }

  /** What else happens between reconciles: other users' writes, garbage collection, restarts of the controller. */
  datatype Event = Reconciling(key: ObjectKey, env: Env, ranked: seq<PodRanking>) | Outside(action: Action)

  predicate IsOutside(a: Action) {
    a.Crash? || a.UserCreate? || a.UserEdit? || a.UserDelete? || a.Retarget? || a.SliceVanishes? || a.Collect?
  }

  function Happened(store: Store, mem: Memory, event: Event): (Store, Memory) {
    match event
    case Reconciling(key, env, ranked) => Reconciled(store, mem, key, env, ranked)
    case Outside(a) =>
      (Next(AtRest(store, mem), a).store, if a.Crash? then Memory(map[], map[]) else mem)
  }

  function RunFrom(store: Store, mem: Memory, events: seq<Event>): (Store, Memory) {
    if events == [] then (store, mem)
    else
      var (s, m) := RunFrom(store, mem, events[..|events| - 1]);
      Happened(s, m, events[|events| - 1])
  }

  function RunEvents(events: seq<Event>): (Store, Memory) {
    RunFrom(EMPTY.store, Memory(map[], map[]), events)
  }

  /** What happens outside reconciles is none of the controller's own steps, and changes the target of no policy that
      a slice carries the label of. */
  ghost predicate Allowed(store: Store, event: Event) {
    event.Outside? ==>
      && IsOutside(event.action)
      && (event.action.Retarget? && event.action.key in store.policies
          && event.action.target != store.policies[event.action.key].spec.target ==>
            Unlabelled(store, event.action.key))
  }

  ghost predicate AllAllowed(store: Store, mem: Memory, events: seq<Event>) {
    forall i :: 0 <= i < |events| ==> Allowed(RunFrom(store, mem, events[..i]).0, events[i])
  }

  lemma EventKeeps(store: Store, mem: Memory, event: Event)
    requires Inv(AtRest(store, mem)) && Allowed(store, event)
    ensures var (store', mem') := Happened(store, mem, event); Inv(AtRest(store', mem'))
  {
    var (store', mem') := Happened(store, mem, event);
    match event {
      case Reconciling(key, env, ranked) =>
        var script := Script(store, mem, key, env, ranked);
        ScriptKeepsTargets(store, mem, key, env, ranked);
        RunKeeps(AtRest(store, mem), script);
        ReconcileSimulated(store, mem, key, env, ranked);
        RestingKeeps(After(AtRest(store, mem), script), key, store, mem, store', mem');
      case Outside(a) =>
        StepKeepsIff(AtRest(store, mem), a);
    }
  }

  lemma {:induction false} RunFromKeeps(store: Store, mem: Memory, events: seq<Event>)
    requires Inv(AtRest(store, mem)) && AllAllowed(store, mem, events)
    ensures var (store', mem') := RunFrom(store, mem, events); Inv(AtRest(store', mem'))
  {
    if events != [] {
      var before := events[..|events| - 1];
      forall i | 0 <= i < |before|
        ensures Allowed(RunFrom(store, mem, before[..i]).0, before[i])
      {
        assert before[..i] == events[..i];
      }
      RunFromKeeps(store, mem, before);
      var (s, m) := RunFrom(store, mem, before);
      EventKeeps(s, m, events[|events| - 1]);
    }
  }

  /** After any run of whole reconciles, users' writes, garbage collection and restarts, with any failures: every slice
      is the current one of a policy that carries the finalizer, and of any other policy nothing is left. */
  lemma SystemSafety(events: seq<Event>)
    requires AllAllowed(EMPTY.store, Memory(map[], map[]), events)
    ensures var (store, mem) := RunEvents(events);
      Inv(AtRest(store, mem)) && Safe(AtRest(store, mem))
  {
    RunFromKeeps(EMPTY.store, Memory(map[], map[]), events);
    var (store, mem) := RunEvents(events);
    InvIsSafe(AtRest(store, mem));
  }

  /** And a deletion whose calls work does finish: the finalizer, the policy's slices and its entries are gone, and so
      is the policy unless somebody else's finalizer holds it. */
  lemma DeletionFinishes(store: Store, mem: Memory, key: ObjectKey, env: Env, ranked: seq<PodRanking>)
    requires Inv(AtRest(store, mem))
    requires Holds(store, key) && store.policies[key].deleting
    requires env.getPolicy.Fine? && env.deleteSlice.Fine? && env.removeFinalizer.Fine?
    ensures var (store', mem') := Reconciled(store, mem, key, env, ranked);
      && !Holds(store', key) && NothingOf(AtRest(store', mem'), key)
      && (key in store'.policies <==> store.policies[key].finalizers != {FINALIZER})
  {
    var (store', mem') := Reconciled(store, mem, key, env, ranked);
    EventKeeps(store, mem, Reconciling(key, env, ranked));
    assert store.policies[key].finalizers - {FINALIZER} == {} <==> store.policies[key].finalizers == {FINALIZER};
    assert !Holds(store', key);
    assert forall sliceKey :: sliceKey in store'.slices ==> SliceFits(AtRest(store', mem'), sliceKey);
  }
}
