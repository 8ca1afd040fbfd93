/** What dampening makes of a policy's slice over whole runs: other policies, users and restarts included. */
module DampenedRuns {
  import opened Options
  import opened Aggregator
  import opened Cluster
  import opened EndpointSlice
  import opened Decision
  import opened FinalizerProtocol
  import opened Controller
  import opened ControllerProperties
  import opened ControllerRuns
  import CircuitBreaker
  import Dampening

  /** Dampening is on, with the bounds the policy's schema demands. */
  predicate AlwaysDampens(spec: PolicySpec) {
    && DampeningOn(spec)
    && spec.dampening.value.thresholdPercent >= 1
    && spec.dampening.value.consecutiveIntervals >= 1
  }

  predicate Active(store: Store, key: ObjectKey) {
    key in store.policies && !store.policies[key].deleting && AlwaysDampens(store.policies[key].spec)
  }

  function OwnSlice(store: Store, key: ObjectKey): ObjectKey
    requires key in store.policies
  {
    SliceKeyOf(key, store.policies[key])
  }

  /** The slice of the policy holds what the dampener believes was selected last. */
  predicate InSync(store: Store, mem: Memory, key: ObjectKey)
    requires key in store.policies
  {
    key in mem.dampeners ==>
      var sliceKey := OwnSlice(store, key);
      sliceKey in store.slices && Addresses(store.slices[sliceKey]) == mem.dampeners[key].previous
  }

  /** The event leaves it to the controller what the policy's slice holds: the policy is not deleted and keeps
      dampening, its own slice writes take effect, and no other policy that names its Service is reconciled. */
  predicate Undisturbed(store: Store, key: ObjectKey, event: Event)
    requires key in store.policies
  {
    match event
    case Reconciling(other, env, _) =>
      if other == key then TakesEffect(env.getSlice, env.writeSlice)
      else other in store.policies ==> OwnSlice(store, other) != OwnSlice(store, key)
    case Outside(a) =>
      && IsOutside(a)
      && match a
         case UserEdit(other, policy) => other == key ==> AlwaysDampens(policy.spec)
         case UserDelete(other) => other != key
         case Retarget(other, _) => other != key
         case SliceVanishes(sliceKey) => sliceKey != OwnSlice(store, key)
         case Collect(sliceKey) =>
           sliceKey == OwnSlice(store, key) && sliceKey in store.slices ==>
             OwnerExists(store, sliceKey.ns, store.slices[sliceKey].owner)
         case _ => true
  }

  /** Every event of the run is undisturbed where it happens. */
  predicate Calm(store: Store, mem: Memory, key: ObjectKey, events: seq<Event>) {
    events == [] ||
    (var before := events[..|events| - 1];
     && Calm(store, mem, key, before)
     && var (s, _) := RunFrom(store, mem, before);
        key in s.policies && Undisturbed(s, key, events[|events| - 1]))
  }

  // ---------- one reconcile of the policy ----------

  lemma StatusKeepsSpec(store: Store, key: ObjectKey, copy: Policy, fault: Fault)
    requires Active(store, key)
    ensures var after := UpdateStatus(store, key, copy, fault);
      Active(after, key) && after.policies[key].spec == store.policies[key].spec && after.slices == store.slices
  {
  }

  lemma AdoptKeepsSpec(store: Store, key: ObjectKey, fault: Fault)
    requires Active(store, key)
    ensures var (after, copy) := Adopt(store, key, store.policies[key], fault);
      && Active(after, key) && after.policies[key].spec == store.policies[key].spec && after.slices == store.slices
      && (copy.Some? ==> copy.value.spec == store.policies[key].spec)
  {
  }

  lemma PublishKeepsSpec(store: Store, key: ObjectKey, policy: Policy, env: Env,
                         admitted: seq<PodRanking>, selected: seq<PodRanking>, states: CircuitBreaker.Pods)
    requires Active(store, key) && Measurable(env)
    ensures var after := PublishStage(store, key, policy, env, TableOf(env), admitted, selected, states);
      Active(after, key) && after.policies[key].spec == store.policies[key].spec
  {
  }

  lemma ReconcileKeepsSpec(store: Store, mem: Memory, key: ObjectKey, env: Env, ranked: seq<PodRanking>)
    requires Active(store, key)
    ensures var (after, mem') := Reconciled(store, mem, key, env, ranked);
      && Active(after, key) && after.policies[key].spec == store.policies[key].spec
      && (!Evaluates(store, key, env) ==> after.slices == store.slices && mem' == mem)
      && (Evaluates(store, key, env) ==> Working(store, key, env).spec == store.policies[key].spec)
  {
    AdoptKeepsSpec(store, key, env.addFinalizer);
    var (adopting, copy) := Adopt(store, key, store.policies[key], env.addFinalizer);
    if env.getPolicy.Fine? && copy.Some? {
      StatusKeepsSpec(adopting, key, copy.value, env.writeStatus);
      if Measurable(env) {
        var e := Evaluated(mem, key, copy.value.spec, ranked, env.clock);
        PublishKeepsSpec(adopting, key, copy.value, env, e.admitted, e.selected,
                         States(e.memory.breakers, key, copy.value.spec));
      }
    }
  }

  /** The addresses the reconcile selects. */
  function Selected(store: Store, mem: Memory, key: ObjectKey, env: Env, ranked: seq<PodRanking>): seq<string>
    requires Evaluates(store, key, env)
  {
    IPs(EvaluationOf(store, mem, key, env, ranked).selected)
  }

  /** The dampener moves as one call with the selection says. */
  lemma DampeningOfEvaluation(store: Store, mem: Memory, key: ObjectKey, env: Env, ranked: seq<PodRanking>)
    requires Active(store, key) && Evaluates(store, key, env)
    ensures var e, d := EvaluationOf(store, mem, key, env, ranked), store.policies[key].spec.dampening.value;
      && key in e.memory.dampeners
      && (e.memory.dampeners[key], e.publish) == Dampening.Damped(
            DampenerFor(mem.dampeners, key), Selected(store, mem, key, env, ranked),
            d.thresholdPercent, d.consecutiveIntervals)
  {
    ReconcileKeepsSpec(store, mem, key, env, ranked);
  }

  /** One evaluation whose slice calls take effect. */
  lemma EvaluationKeepsSync(store: Store, mem: Memory, key: ObjectKey, env: Env, ranked: seq<PodRanking>)
    requires Active(store, key) && InSync(store, mem, key)
    requires Evaluates(store, key, env) && TakesEffect(env.getSlice, env.writeSlice)
    ensures var (after, mem') := Reconciled(store, mem, key, env, ranked);
      var e, sliceKey := EvaluationOf(store, mem, key, env, ranked), OwnSlice(store, key);
      && mem' == e.memory
      && Active(after, key) && after.policies[key].spec == store.policies[key].spec
      && InSync(after, mem', key)
      && (e.publish ==> sliceKey in after.slices && Addresses(after.slices[sliceKey]) == IPs(e.selected))
      && (!e.publish ==> after.slices == store.slices)
  {
    ReconcileKeepsSpec(store, mem, key, env, ranked);
    ReconcilePublishesSelection(store, mem, key, env, ranked);
    DampeningOfEvaluation(store, mem, key, env, ranked);
  }

  // ---------- everything else ----------

  /** What the policy and its slice are does not change. */
  predicate Untouched(store: Store, mem: Memory, store': Store, mem': Memory, key: ObjectKey, sliceKey: ObjectKey) {
    && (key in store.policies <==> key in store'.policies)
    && (key in store.policies ==> store'.policies[key] == store.policies[key])
    && (sliceKey in store.slices <==> sliceKey in store'.slices)
    && (sliceKey in store.slices ==> store'.slices[sliceKey] == store.slices[sliceKey])
    && (key in mem.dampeners <==> key in mem'.dampeners)
    && (key in mem.dampeners ==> mem'.dampeners[key] == mem.dampeners[key])
    && (key in mem.breakers <==> key in mem'.breakers)
    && (key in mem.breakers ==> mem'.breakers[key] == mem.breakers[key])
  }

  lemma OtherDeletion(store: Store, mem: Memory, other: ObjectKey, copy: Policy, env: Env,
                      key: ObjectKey, sliceKey: ObjectKey)
    requires other != key && SliceKeyOf(other, copy) != sliceKey
    ensures var (after, mem') := HandledDeletion(store, mem, other, copy, env);
      Untouched(store, mem, after, mem', key, sliceKey)
  {
  }

  lemma OtherPublication(store: Store, mem: Memory, other: ObjectKey, policy: Policy, env: Env,
                         table: map<string, Pod>, admitted: seq<PodRanking>, selected: seq<PodRanking>,
                         states: CircuitBreaker.Pods, key: ObjectKey, sliceKey: ObjectKey)
    requires other != key && SliceKeyOf(other, policy) != sliceKey
    ensures Untouched(store, mem, PublishStage(store, other, policy, env, table, admitted, selected, states), mem,
                      key, sliceKey)
  {
  }

  lemma OtherEvaluation(store: Store, mem: Memory, other: ObjectKey, spec: PolicySpec, ranked: seq<PodRanking>,
                        clock: nat -> int, key: ObjectKey, sliceKey: ObjectKey)
    requires other != key
    ensures Untouched(store, mem, store, Evaluated(mem, other, spec, ranked, clock).memory, key, sliceKey)
  {
  }

  lemma OtherActive(store: Store, mem: Memory, other: ObjectKey, policy: Policy, env: Env, ranked: seq<PodRanking>,
                    key: ObjectKey, sliceKey: ObjectKey)
    requires other != key && SliceKeyOf(other, policy) != sliceKey
    ensures var (after, mem') := ReconciledActive(store, mem, other, policy, env, ranked);
      Untouched(store, mem, after, mem', key, sliceKey)
  {
    if Measurable(env) {
      var e := Evaluated(mem, other, policy.spec, ranked, env.clock);
      OtherEvaluation(store, mem, other, policy.spec, ranked, env.clock, key, sliceKey);
      OtherPublication(store, mem, other, policy, env, TableOf(env), e.admitted, e.selected,
                       States(e.memory.breakers, other, policy.spec), key, sliceKey);
    }
  }

  /** A reconcile of another policy touches neither the policy, nor its entries, nor any slice but its own. */
  lemma OtherReconcile(store: Store, mem: Memory, other: ObjectKey, env: Env, ranked: seq<PodRanking>,
                       key: ObjectKey, sliceKey: ObjectKey)
    requires other != key && (other in store.policies ==> OwnSlice(store, other) != sliceKey)
    ensures var (after, mem') := Reconciled(store, mem, other, env, ranked);
      Untouched(store, mem, after, mem', key, sliceKey)
  {
    var got := GetPolicy(store, other, env.getPolicy);
    if got.Found? {
      if got.value.deleting {
        OtherDeletion(store, mem, other, got.value, env, key, sliceKey);
      } else {
        var (adopting, adopted) := Adopt(store, other, got.value, env.addFinalizer);
        if adopted.Some? {
          OtherActive(adopting, mem, other, adopted.value, env, ranked, key, sliceKey);
        }
      }
    }
  }

  lemma OutsideKeepsActive(store: Store, mem: Memory, key: ObjectKey, a: Action)
    requires Active(store, key) && Undisturbed(store, key, Outside(a))
    ensures var after := Happened(store, mem, Outside(a)).0;
      Active(after, key) && OwnSlice(after, key) == OwnSlice(store, key)
  {
  }

  lemma OutsideKeepsSlice(store: Store, mem: Memory, key: ObjectKey, a: Action)
    requires Active(store, key) && Undisturbed(store, key, Outside(a)) && OwnSlice(store, key) in store.slices
    ensures var after, sliceKey := Happened(store, mem, Outside(a)).0, OwnSlice(store, key);
      sliceKey in after.slices && after.slices[sliceKey] == store.slices[sliceKey]
  {
  }

  lemma OutsideKeepsSync(store: Store, mem: Memory, key: ObjectKey, a: Action)
    requires Active(store, key) && InSync(store, mem, key) && Undisturbed(store, key, Outside(a))
    ensures var (after, mem') := Happened(store, mem, Outside(a));
      var sliceKey := OwnSlice(store, key);
      && Active(after, key) && OwnSlice(after, key) == sliceKey
      && InSync(after, mem', key)
      && mem' == (if a.Crash? then Memory(map[], map[]) else mem)
      && (sliceKey in store.slices ==>
            sliceKey in after.slices && after.slices[sliceKey] == store.slices[sliceKey])
  {
    OutsideKeepsActive(store, mem, key, a);
    if OwnSlice(store, key) in store.slices {
      OutsideKeepsSlice(store, mem, key, a);
    }
  }

  // ---------- runs ----------

  /** The event is an evaluation of the policy. */
  predicate EvaluationEvent(store: Store, key: ObjectKey, event: Event) {
    event.Reconciling? && event.key == key && Evaluates(store, key, event.env)
  }

  predicate Crashes(event: Event) { event == Outside(Crash) }

  /** One event of a calm run: the policy stays active and in step; outside its own evaluations its dampener changes
      only in a restart, and its slice not at all. */
  lemma EventKeepsSync(store: Store, mem: Memory, key: ObjectKey, event: Event)
    requires Active(store, key) && InSync(store, mem, key) && Undisturbed(store, key, event)
    ensures var (after, mem') := Happened(store, mem, event);
      var sliceKey := OwnSlice(store, key);
      && Active(after, key) && OwnSlice(after, key) == sliceKey
      && InSync(after, mem', key)
      && (Crashes(event) ==> key !in mem'.dampeners)
      && (!Crashes(event) && !EvaluationEvent(store, key, event) ==>
            && (key in mem'.dampeners <==> key in mem.dampeners)
            && DampenerFor(mem'.dampeners, key) == DampenerFor(mem.dampeners, key))
      && (!EvaluationEvent(store, key, event) && sliceKey in store.slices ==>
            sliceKey in after.slices && after.slices[sliceKey] == store.slices[sliceKey])
  {
    match event {
      case Outside(a) =>
        OutsideKeepsSync(store, mem, key, a);
      case Reconciling(other, env, ranked) =>
        if other != key {
          OtherReconcile(store, mem, other, env, ranked, key, OwnSlice(store, key));
        } else {
          ReconcileKeepsSpec(store, mem, key, env, ranked);
          if Evaluates(store, key, env) {
            EvaluationKeepsSync(store, mem, key, env, ranked);
          }
        }
    }
  }

  /** In every calm run, from any state in step on, the slice is what the dampener stores, whenever it stores
      something. */
  lemma {:induction false} SliceTracksDampener(store: Store, mem: Memory, key: ObjectKey, events: seq<Event>)
    requires Active(store, key) && InSync(store, mem, key) && Calm(store, mem, key, events)
    ensures var (after, mem') := RunFrom(store, mem, events);
      Active(after, key) && OwnSlice(after, key) == OwnSlice(store, key) && InSync(after, mem', key)
  {
    if events != [] {
      var before := events[..|events| - 1];
      SliceTracksDampener(store, mem, key, before);
      var (s, m) := RunFrom(store, mem, before);
      EventKeepsSync(s, m, key, events[|events| - 1]);
    }
  }

  // ---------- when the slice is rewritten ----------

  /** What the policy's evaluations have selected since the last restart. */
  function Selections(store: Store, mem: Memory, key: ObjectKey, events: seq<Event>): seq<seq<string>> {
    if events == [] then []
    else
      var before, event := events[..|events| - 1], events[|events| - 1];
      var (s, m) := RunFrom(store, mem, before);
      var sels := Selections(store, mem, key, before);
      if Crashes(event) then []
      else if EvaluationEvent(s, key, event) then sels + [Selected(s, m, key, event.env, event.ranked)]
      else sels
  }

  /** Edits leave the policy's dampening as it is. */
  predicate DampensWith(store: Store, key: ObjectKey, d: DampeningSpec) {
    key in store.policies && store.policies[key].spec.dampening == Some(d)
  }

  ghost predicate SameDampening(key: ObjectKey, d: DampeningSpec, events: seq<Event>) {
    forall i :: 0 <= i < |events| && events[i].Outside? ==>
      var a := events[i].action; a.UserEdit? && a.key == key ==> a.policy.spec.dampening == Some(d)
  }

  lemma OutsideKeepsDampening(store: Store, mem: Memory, key: ObjectKey, d: DampeningSpec, a: Action)
    requires Active(store, key) && DampensWith(store, key, d) && Undisturbed(store, key, Outside(a))
    requires a.UserEdit? && a.key == key ==> a.policy.spec.dampening == Some(d)
    ensures DampensWith(Happened(store, mem, Outside(a)).0, key, d)
  {
  }

  lemma EventKeepsDampening(store: Store, mem: Memory, key: ObjectKey, d: DampeningSpec, event: Event)
    requires Active(store, key) && DampensWith(store, key, d) && Undisturbed(store, key, event)
    requires SameDampening(key, d, [event])
    ensures DampensWith(Happened(store, mem, event).0, key, d)
  {
    match event {
      case Outside(a) =>
        assert [event][0] == event;
        OutsideKeepsDampening(store, mem, key, d, a);
      case Reconciling(other, env, ranked) =>
        if other != key {
          OtherReconcile(store, mem, other, env, ranked, key, OwnSlice(store, key));
        } else {
          ReconcileKeepsSpec(store, mem, key, env, ranked);
        }
    }
  }

  /** The dampener is what one that is new makes of a list of selections. */
  predicate Remembers(mem: Memory, key: ObjectKey, d: DampeningSpec, sels: seq<seq<string>>) {
    && (key in mem.dampeners <==> sels != [])
    && DampenerFor(mem.dampeners, key)
       == Dampening.After(Dampening.NEW, sels, d.thresholdPercent, d.consecutiveIntervals)
  }

  lemma EvaluationRemembers(store: Store, mem: Memory, key: ObjectKey, d: DampeningSpec, env: Env,
                            ranked: seq<PodRanking>, sels: seq<seq<string>>)
    requires Active(store, key) && DampensWith(store, key, d) && Evaluates(store, key, env)
    requires Remembers(mem, key, d, sels)
    ensures Remembers(Reconciled(store, mem, key, env, ranked).1, key, d,
                      sels + [Selected(store, mem, key, env, ranked)])
  {
    DampeningOfEvaluation(store, mem, key, env, ranked);
    ReconcilePublishesSelection(store, mem, key, env, ranked);
    var selected := Selected(store, mem, key, env, ranked);
    assert (sels + [selected])[..|sels|] == sels;
  }

  /** After every calm run from a restart on, the dampener is a function of the selections since the last restart. */
  lemma {:induction false} DampenerIsHistory(
    store: Store, mem: Memory, key: ObjectKey, d: DampeningSpec, events: seq<Event>)
    requires Active(store, key) && DampensWith(store, key, d) && key !in mem.dampeners
    requires Calm(store, mem, key, events) && SameDampening(key, d, events)
    ensures var (after, mem') := RunFrom(store, mem, events);
      DampensWith(after, key, d) && Remembers(mem', key, d, Selections(store, mem, key, events))
  {
    if events != [] {
      var before, event := events[..|events| - 1], events[|events| - 1];
      DampenerIsHistory(store, mem, key, d, before);
      SliceTracksDampener(store, mem, key, before);
      var (s, m) := RunFrom(store, mem, before);
      EventKeepsDampening(s, m, key, d, event);
      EventKeepsSync(s, m, key, event);
      if EvaluationEvent(s, key, event) {
        EvaluationRemembers(s, m, key, d, event.env, event.ranked, Selections(store, mem, key, before));
      }
    }
  }

  /** The last `consecutiveIntervals` selections, all made since the one of index p that was published, are each new to
      at least `thresholdPercent` against what is published; or nothing is. */
  ghost predicate Insists(d: DampeningSpec, published: seq<string>, sels: seq<seq<string>>, p: nat) {
    var n := d.consecutiveIntervals;
    || published == []
    || (&& |sels| - 1 - p >= n
        && forall j :: |sels| - n <= j < |sels| ==> Dampening.Significant(published, sels[j], d.thresholdPercent))
  }

  /** The index of the selection published last before the latest one. */
  function PublishedIndex(d: DampeningSpec, sels: seq<seq<string>>): (p: nat)
    requires |sels| >= 2
    ensures p < |sels| - 1
  {
    Dampening.LastUpdate(sels, d.thresholdPercent, d.consecutiveIntervals, |sels| - 1)
  }

  lemma StoredSelection(d: DampeningSpec, sels: seq<seq<string>>)
    requires d.thresholdPercent >= 1 && d.consecutiveIntervals >= 1 && |sels| >= 2
    ensures Dampening.After(Dampening.NEW, sels[..|sels| - 1], d.thresholdPercent, d.consecutiveIntervals).previous
         == sels[PublishedIndex(d, sels)]
  {
    Dampening.StateOfRun(sels, d.thresholdPercent, d.consecutiveIntervals, |sels| - 1);
  }

  lemma TriggerInsists(d: DampeningSpec, sels: seq<seq<string>>)
    requires d.thresholdPercent >= 1 && d.consecutiveIntervals >= 1 && |sels| >= 2
    ensures Dampening.Updates(sels, d.thresholdPercent, d.consecutiveIntervals, |sels| - 1)
        <==> Insists(d, sels[PublishedIndex(d, sels)], sels, PublishedIndex(d, sels))
  {
    Dampening.ExactTrigger(sels, d.thresholdPercent, d.consecutiveIntervals, |sels| - 1);
  }

  lemma DampenerRule(d: DampeningSpec, before: seq<seq<string>>, selected: seq<string>)
    requires d.thresholdPercent >= 1 && d.consecutiveIntervals >= 1 && before != []
    ensures var thr, n := d.thresholdPercent, d.consecutiveIntervals;
      var state, sels := Dampening.After(Dampening.NEW, before, thr, n), before + [selected];
      && state.previous == sels[PublishedIndex(d, sels)]
      && (Dampening.Damped(state, selected, thr, n).1 <==> Insists(d, state.previous, sels, PublishedIndex(d, sels)))
  {
    StoredSelection(d, before + [selected]);
    TriggerInsists(d, before + [selected]);
    assert (before + [selected])[..|before|] == before;
  }

  /** The verdict on a selection, after the earlier ones: the first is published, any later one if it insists. */
  ghost predicate Rewrites(d: DampeningSpec, before: seq<seq<string>>, selected: seq<string>) {
    before == [] ||
    var sels := before + [selected];
    Insists(d, sels[PublishedIndex(d, sels)], sels, PublishedIndex(d, sels))
  }

  lemma EvaluationDecides(store: Store, mem: Memory, key: ObjectKey, d: DampeningSpec, env: Env,
                          ranked: seq<PodRanking>, before: seq<seq<string>>)
    requires Active(store, key) && DampensWith(store, key, d) && Remembers(mem, key, d, before)
    requires Evaluates(store, key, env)
    ensures EvaluationOf(store, mem, key, env, ranked).publish
        <==> Rewrites(d, before, Selected(store, mem, key, env, ranked))
    ensures before != [] ==>
      var sels := before + [Selected(store, mem, key, env, ranked)];
      key in mem.dampeners && mem.dampeners[key].previous == sels[PublishedIndex(d, sels)]
  {
    DampeningOfEvaluation(store, mem, key, env, ranked);
    if before != [] {
      DampenerRule(d, before, Selected(store, mem, key, env, ranked));
    }
  }

  /** Exactly when an evaluation rewrites the slice, in any calm run from a restart on: the first one does; any later
      one does when the slice is empty, or the required number of selections in a row, this one included and all of
      them made since the slice was last rewritten, are each new enough against the addresses in it. */
  lemma RewriteRule(store: Store, mem: Memory, key: ObjectKey, d: DampeningSpec, events: seq<Event>,
                    env: Env, ranked: seq<PodRanking>)
    requires Active(store, key) && DampensWith(store, key, d) && key !in mem.dampeners
    requires Calm(store, mem, key, events) && SameDampening(key, d, events)
    requires Evaluates(RunFrom(store, mem, events).0, key, env) && TakesEffect(env.getSlice, env.writeSlice)
    ensures var (s, m) := RunFrom(store, mem, events);
      var before, selected := Selections(store, mem, key, events), Selected(s, m, key, env, ranked);
      var sels, sliceKey, after := before + [selected], OwnSlice(store, key), Reconciled(s, m, key, env, ranked).0;
      if before == [] then
        sliceKey in after.slices && Addresses(after.slices[sliceKey]) == selected
      else
        && sliceKey in s.slices && sliceKey in after.slices
        && var published := Addresses(s.slices[sliceKey]);
        && published == sels[PublishedIndex(d, sels)]
        && if Insists(d, published, sels, PublishedIndex(d, sels)) then Addresses(after.slices[sliceKey]) == selected
           else after.slices == s.slices
  {
    var (s, m) := RunFrom(store, mem, events);
    DampenerIsHistory(store, mem, key, d, events);
    SliceTracksDampener(store, mem, key, events);
    EvaluationDecides(s, m, key, d, env, ranked, Selections(store, mem, key, events));
    EvaluationKeepsSync(s, m, key, env, ranked);
  }

  // ---------- when an Open pod is published ----------

  /** Among the addresses is that of an Open pod, although some measured pod is not Open. */
  ghost predicate HoldsOpen(states: CircuitBreaker.Pods, env: Env, ips: seq<string>)
    requires Measurable(env)
  {
    && (exists p :: Measured(env.latencies.value, TableOf(env), p) && !CircuitBreaker.Ejected(states, p.podIP))
    && (exists ip :: ip in ips && CircuitBreaker.Ejected(states, ip))
  }

  lemma PublishedHoldsNoneOpen(store: Store, mem: Memory, key: ObjectKey, env: Env, ranked: seq<PodRanking>)
    requires Publishes(store, mem, key, env, ranked)
    requires IsRanking(ranked, env.latencies.value, TableOf(env))
    ensures var (after, mem') := Reconciled(store, mem, key, env, ranked);
      var sliceKey, states := SliceOf(store, key, env), States(mem'.breakers, key, Working(store, key, env).spec);
      sliceKey in after.slices && !HoldsOpen(states, env, Addresses(after.slices[sliceKey]))
  {
    PublishedSliceIsOptimal(store, mem, key, env, ranked);
  }

  /** In a calm run from a restart on, an evaluation leaves an Open pod in the slice, next to a measured pod that is
      not Open, exactly when it does not rewrite the slice and the slice holds an Open pod: what it rewrites never
      does. */
  lemma OpenStaysPublishedIff(store: Store, mem: Memory, key: ObjectKey, d: DampeningSpec, events: seq<Event>,
                              env: Env, ranked: seq<PodRanking>)
    requires Active(store, key) && DampensWith(store, key, d) && key !in mem.dampeners
    requires Calm(store, mem, key, events) && SameDampening(key, d, events)
    requires Evaluates(RunFrom(store, mem, events).0, key, env) && TakesEffect(env.getSlice, env.writeSlice)
    requires IsRanking(ranked, env.latencies.value, TableOf(env))
    ensures var (s, m) := RunFrom(store, mem, events);
      var (after, mem') := Reconciled(s, m, key, env, ranked);
      var sliceKey, before := OwnSlice(store, key), Selections(store, mem, key, events);
      && key in s.policies && sliceKey in after.slices && (before != [] ==> sliceKey in s.slices)
      && var states := States(mem'.breakers, key, s.policies[key].spec);
      (HoldsOpen(states, env, Addresses(after.slices[sliceKey])) <==>
         && before != [] && HoldsOpen(states, env, Addresses(s.slices[sliceKey]))
         && !Rewrites(d, before, Selected(s, m, key, env, ranked)))
  {
    var (s, m) := RunFrom(store, mem, events);
    DampenerIsHistory(store, mem, key, d, events);
    SliceTracksDampener(store, mem, key, events);
    EvaluationDecides(s, m, key, d, env, ranked, Selections(store, mem, key, events));
    EvaluationKeepsSync(s, m, key, env, ranked);
    ReconcileKeepsSpec(s, m, key, env, ranked);
    if EvaluationOf(s, m, key, env, ranked).publish {
      PublishedHoldsNoneOpen(s, m, key, env, ranked);
    }
  }

  // ---------- drops ----------

  /** No evaluation of the run selects a pod outside the given addresses. */
  predicate OnlyDrops(store: Store, mem: Memory, key: ObjectKey, events: seq<Event>, ips: seq<string>) {
    events == [] ||
    (var before, event := events[..|events| - 1], events[|events| - 1];
     && OnlyDrops(store, mem, key, before, ips)
     && var (s, m) := RunFrom(store, mem, before);
        EvaluationEvent(s, key, event) ==>
          forall ip :: ip in Selected(s, m, key, event.env, event.ranked) ==> ip in ips)
  }

  ghost predicate NoRestart(events: seq<Event>) {
    forall i :: 0 <= i < |events| ==> !Crashes(events[i])
  }

  lemma DropStep(store: Store, mem: Memory, key: ObjectKey, env: Env, ranked: seq<PodRanking>)
    requires Active(store, key) && InSync(store, mem, key)
    requires Evaluates(store, key, env) && TakesEffect(env.getSlice, env.writeSlice)
    requires key in mem.dampeners && mem.dampeners[key].previous != []
    requires forall ip :: ip in Selected(store, mem, key, env, ranked) ==> ip in mem.dampeners[key].previous
    ensures !EvaluationOf(store, mem, key, env, ranked).publish
    ensures Reconciled(store, mem, key, env, ranked).0.slices == store.slices
  {
    EvaluationKeepsSync(store, mem, key, env, ranked);
    DampeningOfEvaluation(store, mem, key, env, ranked);
    var d, selected := store.policies[key].spec.dampening.value, Selected(store, mem, key, env, ranked);
    Dampening.DropsAreSuppressed(mem.dampeners[key], [selected], d.thresholdPercent, d.consecutiveIntervals);
    if Dampening.Significant(mem.dampeners[key].previous, selected, d.thresholdPercent) {
      Dampening.SignificantAdds(mem.dampeners[key].previous, selected, d.thresholdPercent);
    }
  }

  /** In a calm run without a restart, as long as nothing is selected that is not published, the slice stays as it
      is, whatever becomes of the pods in it. */
  lemma {:induction false} DropsLeaveSlice(store: Store, mem: Memory, key: ObjectKey, events: seq<Event>)
    requires Active(store, key) && InSync(store, mem, key) && Calm(store, mem, key, events) && NoRestart(events)
    requires key in mem.dampeners && mem.dampeners[key].previous != []
    requires OnlyDrops(store, mem, key, events, mem.dampeners[key].previous)
    ensures var (after, mem') := RunFrom(store, mem, events);
      var sliceKey := OwnSlice(store, key);
      && sliceKey in after.slices && after.slices[sliceKey] == store.slices[sliceKey]
      && key in mem'.dampeners && mem'.dampeners[key].previous == mem.dampeners[key].previous
  {
    if events != [] {
      var before, event := events[..|events| - 1], events[|events| - 1];
      DropsLeaveSlice(store, mem, key, before);
      SliceTracksDampener(store, mem, key, before);
      var (s, m) := RunFrom(store, mem, before);
      EventKeepsSync(s, m, key, event);
      if EvaluationEvent(s, key, event) {
        DropStep(s, m, key, event.env, event.ranked);
        SliceTracksDampener(store, mem, key, events);
      }
    }
  }

  /** And a slice that is not empty never becomes empty in such a run. */
  lemma {:induction false} NeverEmptied(store: Store, mem: Memory, key: ObjectKey, events: seq<Event>)
    requires Active(store, key) && InSync(store, mem, key) && Calm(store, mem, key, events) && NoRestart(events)
    requires key in mem.dampeners && mem.dampeners[key].previous != []
    ensures var (after, mem') := RunFrom(store, mem, events);
      var sliceKey := OwnSlice(store, key);
      && key in mem'.dampeners && mem'.dampeners[key].previous != []
      && sliceKey in after.slices && Addresses(after.slices[sliceKey]) != []
  {
    SliceTracksDampener(store, mem, key, events);
    if events != [] {
      var before, event := events[..|events| - 1], events[|events| - 1];
      NeverEmptied(store, mem, key, before);
      SliceTracksDampener(store, mem, key, before);
      var (s, m) := RunFrom(store, mem, before);
      EventKeepsSync(s, m, key, event);
      if EvaluationEvent(s, key, event) {
        DampeningOfEvaluation(s, m, key, event.env, event.ranked);
        EvaluationKeepsSync(s, m, key, event.env, event.ranked);
        var d := s.policies[key].spec.dampening.value;
        Dampening.StaysNonEmpty(m.dampeners[key], Selected(s, m, key, event.env, event.ranked),
                                d.thresholdPercent, d.consecutiveIntervals);
      }
    }
  }
}
