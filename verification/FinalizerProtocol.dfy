/** The finalizer protocol between the controller and the API server: one step is one API call of a reconcile, or
    something the environment does in between.  What a reconcile decides is left open here; any number of
    policies may be in the middle of a reconcile, each of them once, and several may name the same Service. */
module FinalizerProtocol {
  import opened Options
  import opened Cluster
  import opened EndpointSlice

  const FINALIZER := "aviator.io/finalizer"

  /** Where a policy's reconcile stands, with the copy of the policy it works on. */
  datatype Phase =
    | Idle
    | Loaded(copy: Policy)
    | Adopted(copy: Policy)
    | Publishing(copy: Policy, endpoints: seq<Endpoint>)
    | Writing(copy: Policy, endpoints: seq<Endpoint>, existing: Option<Slice>)
    | Reporting(copy: Policy)
    | Released(copy: Policy)

  /** The store, the controller's per-policy entries, and the reconciles under way. */
  datatype World = World(
    store: Store, breakers: set<ObjectKey>, dampeners: set<ObjectKey>, phases: map<ObjectKey, Phase>)

  const EMPTY := World(Store(map[], map[], 0), {}, {}, map[])

  function PhaseOf(w: World, key: ObjectKey): Phase {
    if key in w.phases then w.phases[key] else Idle
  }

  function InPhase(w: World, key: ObjectKey, phase: Phase): World {
    w.(phases := w.phases[key := phase])
  }

  datatype Action =
    // a reconcile of one policy
    | Load(key: ObjectKey, fault: Fault)
    | Proceed(key: ObjectKey, fault: Fault)
    | Abandon(key: ObjectKey)
    | GiveUp(key: ObjectKey)
    | Decide(key: ObjectKey, withBreaker: bool, publish: Option<seq<Endpoint>>)
    | Look(key: ObjectKey, fault: Fault)
    | Write(key: ObjectKey, fault: Fault)
    | Report(key: ObjectKey, status: PolicyStatus, fault: Fault)
    | Release(key: ObjectKey, fault: Fault)
    // everyone else
    | Crash
    | UserCreate(key: ObjectKey, policy: Policy)
    | UserEdit(key: ObjectKey, policy: Policy)
    | UserDelete(key: ObjectKey)
    | SliceVanishes(key: ObjectKey)
    | Collect(key: ObjectKey)
    | Retarget(key: ObjectKey, target: string)

  function SliceKeyOf(key: ObjectKey, copy: Policy): ObjectKey {
    SliceKey(key.ns, copy.spec.target)
  }

  /** After loading: a policy being deleted is cleaned up, any other gets the finalizer if it lacks it. */
  function Proceeded(w: World, key: ObjectKey, copy: Policy, fault: Fault): World {
    if copy.deleting then
      if FINALIZER !in copy.finalizers then InPhase(w, key, Idle)
      else
        var (store, ok) := CleanedUp(w.store, SliceKeyOf(key, copy), fault);
        if ok then World(store, w.breakers - {key}, w.dampeners - {key}, w.phases[key := Released(copy)])
        else InPhase(w.(store := store), key, Idle)
    else if FINALIZER in copy.finalizers then InPhase(w, key, Adopted(copy))
    else
      var (store, written) :=
        UpdatePolicy(w.store, key, copy.(finalizers := copy.finalizers + {FINALIZER}), fault);
      InPhase(w.(store := store), key, if written.Some? then Adopted(written.value) else Idle)
  }

  function Existing(slice: Lookup<Slice>): Option<Slice> {
    if slice.Found? then Some(slice.value) else None
  }

  /** What users create: never with the controller's finalizer, never already deleted, under a uid of its own. */
  function Created(s: Store, policy: Policy): Policy {
    policy.(finalizers := policy.finalizers - {FINALIZER}, deleting := false, uid := s.nextVersion)
  }

  /** One step; an action that does not apply changes nothing.  Nobody but the controller touches its finalizer. */
  function Next(w: World, a: Action): World {
    match a
    case Load(key, fault) =>
      if PhaseOf(w, key).Idle? && GetPolicy(w.store, key, fault).Found?
      then InPhase(w, key, Loaded(w.store.policies[key])) else w
    case Proceed(key, fault) =>
      var phase := PhaseOf(w, key);
      if phase.Loaded? then Proceeded(w, key, phase.copy, fault) else w
    case Abandon(key) =>
      var phase := PhaseOf(w, key);
      if phase.Adopted? || phase.Reporting? then InPhase(w, key, Idle) else w
    case GiveUp(key) =>
      var phase := PhaseOf(w, key);
      if phase.Adopted? then InPhase(w, key, Reporting(phase.copy)) else w
    case Decide(key, withBreaker, publish) =>
      var phase := PhaseOf(w, key);
      if !phase.Adopted? then w
      else
        World(
          w.store,
          if withBreaker then w.breakers + {key} else w.breakers,
          w.dampeners + {key},
          w.phases[key := if publish.Some? then Publishing(phase.copy, publish.value) else Idle])
    case Look(key, fault) =>
      var phase := PhaseOf(w, key);
      if !phase.Publishing? then w
      else
        var slice := GetSlice(w.store, SliceKeyOf(key, phase.copy), fault);
        InPhase(w, key, if slice.Unavailable? then Reporting(phase.copy)
                        else Writing(phase.copy, phase.endpoints, Existing(slice)))
    case Write(key, fault) =>
      var phase := PhaseOf(w, key);
      if !phase.Writing? then w
      else
        var sliceKey, desired := SliceKeyOf(key, phase.copy), Slice(key.name, phase.endpoints, phase.copy.uid);
        var (store, _) :=
          if phase.existing.Some? then
            UpdateSlice(w.store, sliceKey, phase.existing.value, Merged(phase.existing.value, desired), fault)
          else CreateSlice(w.store, sliceKey, desired, fault);
        InPhase(w.(store := store), key, Reporting(phase.copy))
    case Report(key, status, fault) =>
      var phase := PhaseOf(w, key);
      if !phase.Reporting? then w
      else InPhase(w.(store := UpdateStatus(w.store, key, phase.copy.(status := status), fault)), key, Idle)
    case Release(key, fault) =>
      var phase := PhaseOf(w, key);
      if !phase.Released? then w
      else
        var copy := phase.copy.(finalizers := phase.copy.finalizers - {FINALIZER});
        InPhase(w.(store := UpdatePolicy(w.store, key, copy, fault).0), key, Idle)
    case Crash => World(w.store, {}, {}, map[])
    case UserCreate(key, policy) =>
      if key in w.store.policies then w
      else
        w.(store := Stored(w.store, key, Created(w.store, policy)))
    case UserEdit(key, policy) =>
      if key !in w.store.policies then w
      else
        var p := w.store.policies[key];
        w.(store := Stored(w.store, key, Policy(
          policy.spec.(target := p.spec.target), policy.status,
          policy.finalizers - {FINALIZER} + (p.finalizers * {FINALIZER}), p.deleting, 0, p.uid)))
    case UserDelete(key) =>
      if key !in w.store.policies then w
      else w.(store := Stored(w.store, key, w.store.policies[key].(deleting := true)))
    case SliceVanishes(key) => w.(store := w.store.(slices := w.store.slices - {key}))
    case Collect(key) => w.(store := Collected(w.store, key))
    case Retarget(key, target) =>
      if key !in w.store.policies then w
      else
        var p := w.store.policies[key];
        w.(store := Stored(w.store, key, p.(spec := p.spec.(target := target))))
  }

  function After(w: World, actions: seq<Action>): World {
    if actions == [] then w else Next(After(w, actions[..|actions| - 1]), actions[|actions| - 1])
  }

  lemma {:induction false} AfterConcat(w: World, a: seq<Action>, b: seq<Action>)
    ensures After(w, a + b) == After(After(w, a), b)
  {
    if b == [] {
      assert a + b == a;
    } else {
      assert (a + b)[..|a + b| - 1] == a + b[..|b| - 1];
      AfterConcat(w, a, b[..|b| - 1]);
    }
  }

  lemma AfterOne(w: World, a: Action)
    ensures After(w, [a]) == Next(w, a)
  {
    assert [a][..0] == [];
  }

  lemma AfterTwo(w: World, a: Action, b: Action)
    ensures After(w, [a] + [b]) == Next(Next(w, a), b)
  {
    AfterConcat(w, [a], [b]);
    AfterOne(w, a);
    AfterOne(Next(w, a), b);
  }

  lemma AfterThree(w: World, a: Action, b: Action, c: Action)
    ensures After(w, [a] + [b] + [c]) == Next(Next(Next(w, a), b), c)
  {
    AfterTwo(w, a, b);
    AfterConcat(w, [a] + [b], [c]);
    AfterOne(Next(Next(w, a), b), c);
  }

  lemma AfterStep(w: World, actions: seq<Action>, a: Action)
    ensures After(w, actions + [a]) == Next(After(w, actions), a)
  {
    assert (actions + [a])[..|actions|] == actions;
  }

  // ---------- the invariant ----------

  predicate Holds(s: Store, key: ObjectKey) {
    key in s.policies && FINALIZER in s.policies[key].finalizers
  }

  function Writer(s: Store, sliceKey: ObjectKey): ObjectKey
    requires sliceKey in s.slices
  {
    ObjectKey(sliceKey.ns, s.slices[sliceKey].policyName)
  }

  /** The stored policy carries the finalizer and names the Service the copy names. */
  predicate Bound(s: Store, key: ObjectKey, copy: Policy) {
    Holds(s, key) && s.policies[key].spec.target == copy.spec.target
  }

  /** A copy is as old as its version says. */
  predicate Known(s: Store, key: ObjectKey, copy: Policy) {
    && copy.version < s.nextVersion
    && (key in s.policies && s.policies[key].version == copy.version ==> s.policies[key] == copy)
  }

  ghost predicate Unlabelled(s: Store, key: ObjectKey) {
    forall sliceKey :: sliceKey in s.slices ==> Writer(s, sliceKey) != key
  }

  /** A reconcile that may still write the slice works for the Service the stored policy names, and one that cleans up
      does so for every slice that carries the policy's label. */
  ghost predicate PhaseFits(s: Store, key: ObjectKey, phase: Phase) {
    match phase
    case Idle => true
    case Loaded(copy) =>
      Known(s, key, copy) &&
      (FINALIZER in copy.finalizers ==>
        if copy.deleting then Holds(s, key) && s.policies[key].deleting && (Bound(s, key, copy) || Unlabelled(s, key))
        else Bound(s, key, copy))
    case Reporting(copy) => Known(s, key, copy)
    case Released(copy) => Known(s, key, copy) && Holds(s, key) && s.policies[key].deleting && copy.deleting
    case _ => Known(s, key, phase.copy) && Bound(s, key, phase.copy)
  }

  /** The slice is the writer's current one, and the writer still carries the finalizer and is not past cleanup. */
  predicate SliceFits(w: World, sliceKey: ObjectKey)
    requires sliceKey in w.store.slices
  {
    var writer := Writer(w.store, sliceKey);
    && Holds(w.store, writer)
    && sliceKey == SliceKeyOf(writer, w.store.policies[writer])
    && !PhaseOf(w, writer).Released?
  }

  ghost predicate SlicesFit(w: World) {
    forall sliceKey :: sliceKey in w.store.slices ==> SliceFits(w, sliceKey)
  }

  ghost predicate EntriesFit(w: World) {
    forall key :: key in w.breakers || key in w.dampeners ==> Holds(w.store, key) && !PhaseOf(w, key).Released?
  }

  ghost predicate PhasesFit(w: World) {
    forall key :: PhaseFits(w.store, key, PhaseOf(w, key))
  }

  ghost predicate VersionsFit(w: World) {
    forall key :: key in w.store.policies ==> w.store.policies[key].version < w.store.nextVersion
  }

  ghost predicate Inv(w: World) {
    SlicesFit(w) && EntriesFit(w) && PhasesFit(w) && VersionsFit(w)
  }

  /** A write that keeps the finalizer, the Service and the deletion mark of a policy that carries the finalizer. */
  lemma PolicyWriteKeeps(w: World, key: ObjectKey, p: Policy)
    requires Inv(w)
    requires Holds(w.store, key) ==>
      && FINALIZER in p.finalizers
      && p.spec.target == w.store.policies[key].spec.target
      && (w.store.policies[key].deleting ==> p.deleting)
    ensures Inv(w.(store := Stored(w.store, key, p)))
  {
    var w' := w.(store := Stored(w.store, key, p));
    forall k
      ensures PhaseFits(w'.store, k, PhaseOf(w', k))
    {
      assert PhaseFits(w.store, k, PhaseOf(w, k));
    }
    forall sk | sk in w'.store.slices
      ensures SliceFits(w', sk)
    {
      assert SliceFits(w, sk);
    }
  }

  /** A change of phase alone. */
  lemma PhaseChangeKeeps(w: World, key: ObjectKey, phase: Phase)
    requires Inv(w) && PhaseFits(w.store, key, phase) && !phase.Released?
    ensures Inv(InPhase(w, key, phase))
  {
    var w' := InPhase(w, key, phase);
    forall k
      ensures PhaseFits(w'.store, k, PhaseOf(w', k))
    {
      assert PhaseFits(w.store, k, PhaseOf(w, k));
    }
    forall sk | sk in w'.store.slices
      ensures SliceFits(w', sk)
    {
      assert SliceFits(w, sk);
    }
  }

  lemma NewEntriesKeep(w: World, w': World, key: ObjectKey)
    requires Inv(w) && Holds(w.store, key) && !PhaseOf(w, key).Released?
    requires w' == w.(breakers := w'.breakers, dampeners := w'.dampeners)
    requires w'.breakers <= w.breakers + {key} && w'.dampeners <= w.dampeners + {key}
    ensures Inv(w')
  {
    forall k
      ensures PhaseFits(w'.store, k, PhaseOf(w', k))
    {
      assert PhaseFits(w.store, k, PhaseOf(w, k));
    }
    forall sk | sk in w'.store.slices
      ensures SliceFits(w', sk)
    {
      assert SliceFits(w, sk);
    }
  }

  lemma FewerSlicesKeep(w: World, key: ObjectKey)
    requires Inv(w)
    ensures Inv(w.(store := w.store.(slices := w.store.slices - {key})))
  {
    var w' := w.(store := w.store.(slices := w.store.slices - {key}));
    forall k
      ensures PhaseFits(w'.store, k, PhaseOf(w', k))
    {
      assert PhaseFits(w.store, k, PhaseOf(w, k));
    }
    forall sk | sk in w'.store.slices
      ensures SliceFits(w', sk)
    {
      assert SliceFits(w, sk);
    }
  }

  lemma SliceWriteKeeps(w: World, key: ObjectKey, copy: Policy, slice: Slice)
    requires Inv(w) && Bound(w.store, key, copy) && PhaseOf(w, key).Reporting? && slice.policyName == key.name
    ensures Inv(w.(store := w.store.(slices := w.store.slices[SliceKeyOf(key, copy) := slice])))
  {
    var sliceKey := SliceKeyOf(key, copy);
    var w' := w.(store := w.store.(slices := w.store.slices[sliceKey := slice]));
    forall k
      ensures PhaseFits(w'.store, k, PhaseOf(w', k))
    {
      assert PhaseFits(w.store, k, PhaseOf(w, k));
      if k != key && Unlabelled(w.store, k) {
        assert Unlabelled(w'.store, k);
      }
    }
    forall sk | sk in w'.store.slices
      ensures SliceFits(w', sk)
    {
      if sk == sliceKey {
        assert Writer(w'.store, sk) == key;
      } else {
        assert SliceFits(w, sk);
      }
    }
  }

  lemma CleanupKeeps(w: World, key: ObjectKey, copy: Policy)
    requires Inv(w) && PhaseOf(w, key) == Loaded(copy) && copy.deleting && FINALIZER in copy.finalizers
    ensures Inv(World(
      w.store.(slices := w.store.slices - {SliceKeyOf(key, copy)}),
      w.breakers - {key}, w.dampeners - {key}, w.phases[key := Released(copy)]))
  {
    assert PhaseFits(w.store, key, Loaded(copy));
    var w' := World(
      w.store.(slices := w.store.slices - {SliceKeyOf(key, copy)}),
      w.breakers - {key}, w.dampeners - {key}, w.phases[key := Released(copy)]);
    forall k
      ensures PhaseFits(w'.store, k, PhaseOf(w', k))
    {
      assert PhaseFits(w.store, k, PhaseOf(w, k));
    }
    forall sk | sk in w'.store.slices
      ensures SliceFits(w', sk)
    {
      assert SliceFits(w, sk);
      assert Writer(w.store, sk) != key;
    }
  }

  lemma ReleaseKeeps(w: World, key: ObjectKey, p: Policy)
    requires Inv(w) && PhaseOf(w, key).Released?
    ensures Inv(InPhase(w.(store := Stored(w.store, key, p)), key, Idle))
  {
    var w' := InPhase(w.(store := Stored(w.store, key, p)), key, Idle);
    forall k
      ensures PhaseFits(w'.store, k, PhaseOf(w', k))
    {
      assert PhaseFits(w.store, k, PhaseOf(w, k));
    }
    forall sk | sk in w'.store.slices
      ensures SliceFits(w', sk)
    {
      assert SliceFits(w, sk);
      assert Writer(w.store, sk) != key;
    }
  }

  lemma ProceedKeeps(w: World, key: ObjectKey, copy: Policy, fault: Fault)
    requires Inv(w) && PhaseOf(w, key) == Loaded(copy)
    ensures Inv(Proceeded(w, key, copy, fault))
  {
    assert PhaseFits(w.store, key, Loaded(copy));
    if copy.deleting && FINALIZER in copy.finalizers {
      CleanupKeeps(w, key, copy);
      FewerSlicesKeep(w, SliceKeyOf(key, copy));
      var (store, ok) := CleanedUp(w.store, SliceKeyOf(key, copy), fault);
      if !ok {
        PhaseChangeKeeps(w.(store := store), key, Idle);
      }
    } else if copy.deleting {
      PhaseChangeKeeps(w, key, Idle);
    } else if FINALIZER in copy.finalizers {
      PhaseChangeKeeps(w, key, Adopted(copy));
    } else {
      var adopting := copy.(finalizers := copy.finalizers + {FINALIZER});
      var (store, written) := UpdatePolicy(w.store, key, adopting, fault);
      if Accepts(w.store, key, adopting, fault) {
        assert w.store.policies[key] == copy;
        PolicyWriteKeeps(w, key, adopting);
        assert store == Stored(w.store, key, adopting);
        if written.Some? {
          assert PhaseFits(store, key, Adopted(written.value));
        }
      }
      PhaseChangeKeeps(w.(store := store), key, if written.Some? then Adopted(written.value) else Idle);
    }
  }

  lemma ReconcileStepKeeps(w: World, a: Action)
    requires Inv(w)
    requires a.Load? || a.Abandon? || a.GiveUp? || a.Decide? || a.Look? || a.Write? || a.Report? || a.Release?
    ensures Inv(Next(w, a))
  {
    var key, phase := a.key, PhaseOf(w, a.key);
    assert PhaseFits(w.store, key, phase);
    match a {
      case Load(_, fault) =>
        if Next(w, a) != w {
          PhaseChangeKeeps(w, key, Loaded(w.store.policies[key]));
        }
      case Abandon(_) =>
        PhaseChangeKeeps(w, key, Idle);
      case GiveUp(_) =>
        if phase.Adopted? {
          PhaseChangeKeeps(w, key, Reporting(phase.copy));
        }
      case Decide(_, _, publish) =>
        if phase.Adopted? {
          var phase' := if publish.Some? then Publishing(phase.copy, publish.value) else Idle;
          PhaseChangeKeeps(w, key, phase');
          NewEntriesKeep(InPhase(w, key, phase'), Next(w, a), key);
        }
      case Look(_, _) =>
        if phase.Publishing? {
          PhaseChangeKeeps(w, key, Reporting(phase.copy));
          var slice := GetSlice(w.store, SliceKeyOf(key, phase.copy), a.fault);
          PhaseChangeKeeps(w, key, Writing(phase.copy, phase.endpoints, Existing(slice)));
        }
      case Write(_, _) =>
        if phase.Writing? {
          var w' := InPhase(w, key, Reporting(phase.copy));
          PhaseChangeKeeps(w, key, Reporting(phase.copy));
          var desired := Slice(key.name, phase.endpoints, phase.copy.uid);
          SliceWriteKeeps(w', key, phase.copy,
                          if phase.existing.Some? then Merged(phase.existing.value, desired) else desired);
        }
      case Report(_, status, fault) =>
        if phase.Reporting? {
          PhaseChangeKeeps(w, key, Idle);
          if key in w.store.policies {
            PolicyWriteKeeps(InPhase(w, key, Idle), key, w.store.policies[key].(status := status));
          }
        }
      case Release(_, fault) =>
        if phase.Released? {
          var copy := phase.copy.(finalizers := phase.copy.finalizers - {FINALIZER});
          if Accepts(w.store, key, copy, fault) {
            ReleaseKeeps(w, key, w.store.policies[key].(spec := copy.spec, finalizers := copy.finalizers));
          } else {
            PhaseChangeKeeps(w, key, Idle);
          }
        }
    }
  }

  lemma CrashKeeps(w: World)
    requires Inv(w)
    ensures Inv(Next(w, Crash))
  {
  }

  /** Every step but a change of the target Service keeps the invariant. */
  lemma OtherStepKeeps(w: World, a: Action)
    requires Inv(w) && !a.Retarget?
    ensures Inv(Next(w, a))
  {
    match a {
      case Proceed(key, fault) =>
        var phase := PhaseOf(w, key);
        if phase.Loaded? {
          ProceedKeeps(w, key, phase.copy, fault);
        }
      case Crash =>
        CrashKeeps(w);
      case UserCreate(key, policy) =>
        if key !in w.store.policies {
          PolicyWriteKeeps(w, key, Created(w.store, policy));
        }
      case UserEdit(key, policy) =>
        if key in w.store.policies {
          var p := w.store.policies[key];
          PolicyWriteKeeps(w, key, Policy(
            policy.spec.(target := p.spec.target), policy.status,
            policy.finalizers - {FINALIZER} + (p.finalizers * {FINALIZER}), p.deleting, 0, p.uid));
        }
      case UserDelete(key) =>
        if key in w.store.policies {
          PolicyWriteKeeps(w, key, w.store.policies[key].(deleting := true));
        }
      case SliceVanishes(key) =>
        FewerSlicesKeep(w, key);
      case Collect(key) =>
        FewerSlicesKeep(w, key);
      case _ =>
        ReconcileStepKeeps(w, a);
    }
  }

  /** A reconcile that has the policy's finalizer secured and has not yet written its slice. */
  predicate MayWrite(phase: Phase) {
    || (phase.Loaded? && FINALIZER in phase.copy.finalizers && !phase.copy.deleting)
    || phase.Adopted? || phase.Publishing? || phase.Writing?
  }

  /** No slice carries the policy's label, and no reconcile is about to write one. */
  ghost predicate Unpublished(w: World, key: ObjectKey) {
    Unlabelled(w.store, key) && !MayWrite(PhaseOf(w, key))
  }

  /** A change of target that is none, or comes while nothing is published. */
  ghost predicate Guarded(w: World, a: Action) {
    a.Retarget? && a.key in w.store.policies && a.target != w.store.policies[a.key].spec.target ==>
      Unpublished(w, a.key)
  }

  lemma RetargetKeeps(w: World, key: ObjectKey, target: string)
    requires Inv(w) && key in w.store.policies && Unpublished(w, key)
    ensures Inv(Next(w, Retarget(key, target)))
  {
    var w' := Next(w, Retarget(key, target));
    forall k
      ensures PhaseFits(w'.store, k, PhaseOf(w', k))
    {
      assert PhaseFits(w.store, k, PhaseOf(w, k));
    }
    forall sk | sk in w'.store.slices
      ensures SliceFits(w', sk)
    {
      assert SliceFits(w, sk);
    }
  }

  lemma RetargetBreaks(w: World, key: ObjectKey, target: string)
    requires Inv(w) && key in w.store.policies && target != w.store.policies[key].spec.target
    requires !Unpublished(w, key)
    ensures !Inv(Next(w, Retarget(key, target)))
  {
    var w' := Next(w, Retarget(key, target));
    if sliceKey :| sliceKey in w.store.slices && Writer(w.store, sliceKey) == key {
      assert SliceFits(w, sliceKey);
      OtherTarget(key.ns, target, w.store.policies[key].spec.target);
      assert !SliceFits(w', sliceKey);
    } else {
      assert PhaseFits(w.store, key, PhaseOf(w, key));
      assert !PhaseFits(w'.store, key, PhaseOf(w', key));
    }
  }

  lemma OtherTarget(ns: string, target: string, target': string)
    requires target != target'
    ensures SliceKey(ns, target) != SliceKey(ns, target')
  {
    if SliceKey(ns, target) == SliceKey(ns, target') {
      SliceKeyInjective(ns, target, ns, target');
    }
  }

  /** A step keeps the invariant exactly when it does not point a policy that is published, or about to be, at
      another Service. */
  lemma StepKeepsIff(w: World, a: Action)
    requires Inv(w)
    ensures Inv(Next(w, a)) <==> Guarded(w, a)
  {
    if !a.Retarget? {
      OtherStepKeeps(w, a);
    } else if a.key in w.store.policies {
      var p := w.store.policies[a.key];
      if a.target == p.spec.target {
        PolicyWriteKeeps(w, a.key, p);
        assert p.(spec := p.spec.(target := a.target)) == p;
      } else if Unpublished(w, a.key) {
        RetargetKeeps(w, a.key, a.target);
      } else {
        RetargetBreaks(w, a.key, a.target);
      }
    }
  }

  ghost predicate GuardedRun(w: World, actions: seq<Action>) {
    forall i :: 0 <= i < |actions| ==> Guarded(After(w, actions[..i]), actions[i])
  }

  lemma GuardedBefore(w: World, actions: seq<Action>)
    requires actions != [] && GuardedRun(w, actions)
    ensures GuardedRun(w, actions[..|actions| - 1])
    ensures Guarded(After(w, actions[..|actions| - 1]), actions[|actions| - 1])
  {
    var before := actions[..|actions| - 1];
    forall i | 0 <= i < |before|
      ensures Guarded(After(w, before[..i]), before[i])
    {
      assert before[..i] == actions[..i];
    }
  }

  lemma {:induction false} RunKeeps(w: World, actions: seq<Action>)
    requires Inv(w) && GuardedRun(w, actions)
    ensures Inv(After(w, actions))
  {
    if actions != [] {
      GuardedBefore(w, actions);
      RunKeeps(w, actions[..|actions| - 1]);
      StepKeepsIff(After(w, actions[..|actions| - 1]), actions[|actions| - 1]);
    }
  }

  // ---------- what it is for ----------

  /** Nothing of a policy is left: no slice it wrote, no entry of the controller. */
  ghost predicate NothingOf(w: World, key: ObjectKey) {
    key !in w.breakers && key !in w.dampeners && Unlabelled(w.store, key)
  }

  /** Every slice is its writer's current one, and its writer carries the finalizer. */
  ghost predicate SlicesCurrent(s: Store) {
    forall sliceKey :: sliceKey in s.slices ==>
      var writer := Writer(s, sliceKey);
      Holds(s, writer) && sliceKey == SliceKeyOf(writer, s.policies[writer])
  }

  /** And of a policy without the finalizer nothing is left. */
  ghost predicate Safe(w: World) {
    SlicesCurrent(w.store) && forall key :: !Holds(w.store, key) ==> NothingOf(w, key)
  }

  lemma InvIsSafe(w: World)
    requires Inv(w)
    ensures Safe(w)
  {
    assert forall sliceKey :: sliceKey in w.store.slices ==> SliceFits(w, sliceKey);
  }

  /** After any run in which no published policy changes its target, at any point of any reconcile: a slice is its
      writer's current one and its writer carries the finalizer, and of a policy without the finalizer nothing is
      left. */
  lemma Safety(actions: seq<Action>)
    requires GuardedRun(EMPTY, actions)
    ensures Safe(After(EMPTY, actions))
  {
    RunKeeps(EMPTY, actions);
    InvIsSafe(After(EMPTY, actions));
  }

  /** The policy is gone, or is being deleted and no longer carries the finalizer. */
  predicate Ended(w: World, key: ObjectKey) {
    key !in w.store.policies || (w.store.policies[key].deleting && !Holds(w.store, key))
  }

  lemma EndedStays(w: World, a: Action, key: ObjectKey)
    requires Inv(w) && Ended(w, key)
    requires !(a.UserCreate? && a.key == key)
    ensures Ended(Next(w, a), key)
  {
  }

  /** Once ended, nothing of the policy comes back, whatever reconciles run, until someone creates it anew. */
  lemma {:induction false} EndedForGood(w: World, actions: seq<Action>, key: ObjectKey)
    requires Inv(w) && Ended(w, key)
    requires GuardedRun(w, actions)
    requires forall i :: 0 <= i < |actions| ==> !(actions[i].UserCreate? && actions[i].key == key)
    ensures Ended(After(w, actions), key) && NothingOf(After(w, actions), key)
  {
    RunKeeps(w, actions);
    if actions != [] {
      var before := actions[..|actions| - 1];
      GuardedBefore(w, actions);
      EndedForGood(w, before, key);
      RunKeeps(w, before);
      EndedStays(After(w, before), actions[|actions| - 1], key);
    }
    var w' := After(w, actions);
    assert forall sliceKey :: sliceKey in w'.store.slices ==> SliceFits(w', sliceKey);
  }

  // ---------- cleanup ----------

  /** The cleanup of a deleted policy removes all its slices exactly when every slice it wrote belongs to the
      Service its loaded copy names. */
  lemma CleanupExact(w: World, key: ObjectKey, copy: Policy)
    requires PhaseOf(w, key) == Loaded(copy) && copy.deleting && FINALIZER in copy.finalizers
    ensures NothingOf(Next(w, Proceed(key, Fine)), key) <==>
      forall sliceKey :: sliceKey in w.store.slices && Writer(w.store, sliceKey) == key ==>
        sliceKey == SliceKeyOf(key, copy)
  {
    var w' := Next(w, Proceed(key, Fine));
    assert w'.store.slices == w.store.slices - {SliceKeyOf(key, copy)};
    if NothingOf(w', key) {
      forall sliceKey | sliceKey in w.store.slices && Writer(w.store, sliceKey) == key
        ensures sliceKey == SliceKeyOf(key, copy)
      {
        assert sliceKey in w'.store.slices <==> sliceKey != SliceKeyOf(key, copy);
      }
    }
  }

  // ---------- which changes of target are safe ----------

  /** The read that a write under way is based on is not out of date. */
  predicate ReadIsFresh(w: World, key: ObjectKey) {
    var phase := PhaseOf(w, key);
    phase.Writing? && phase.existing.Some? ==>
      var sliceKey := SliceKeyOf(key, phase.copy);
      sliceKey in w.store.slices && w.store.slices[sliceKey] == phase.existing.value
  }

  function CallsLeft(phase: Phase): nat {
    match phase
    case Loaded(_) => 4
    case Adopted(_) => 3
    case Publishing(_, _) => 2
    case _ => 1
  }

  /** The next call of a reconcile that is on its way to write its slice, in the case that it works. */
  function NextCall(key: ObjectKey, phase: Phase): Action {
    match phase
    case Loaded(_) => Proceed(key, Fine)
    case Adopted(_) => Decide(key, false, Some([]))
    case Publishing(_, _) => Look(key, Fine)
    case _ => Write(key, Fine)
  }

  lemma NextCallAdvances(w: World, key: ObjectKey)
    requires MayWrite(PhaseOf(w, key)) && !PhaseOf(w, key).Writing?
    ensures var phase, w' := PhaseOf(w, key), Next(w, NextCall(key, PhaseOf(w, key)));
      && MayWrite(PhaseOf(w', key)) && CallsLeft(PhaseOf(w', key)) < CallsLeft(phase)
      && PhaseOf(w', key).copy == phase.copy && ReadIsFresh(w', key) && w'.store == w.store
  {
  }

  lemma WriteLands(w: World, key: ObjectKey)
    requires PhaseOf(w, key).Writing? && ReadIsFresh(w, key)
    ensures var phase := PhaseOf(w, key);
      var sliceKey := SliceKeyOf(key, phase.copy);
      var cleared := if phase.existing.None? then Next(w, SliceVanishes(sliceKey)) else w;
      var w' := Next(cleared, Write(key, Fine));
      && w'.store.policies == w.store.policies
      && sliceKey in w'.store.slices && Writer(w'.store, sliceKey) == key
  {
  }

  /** A reconcile that may write its slice can do so, whatever became of the policy meanwhile. */
  lemma {:induction false} ReachWrite(w: World, key: ObjectKey) returns (more: seq<Action>)
    requires MayWrite(PhaseOf(w, key)) && ReadIsFresh(w, key)
    ensures forall i :: 0 <= i < |more| ==> !more[i].Retarget?
    ensures var w', sliceKey := After(w, more), SliceKeyOf(key, PhaseOf(w, key).copy);
      && w'.store.policies == w.store.policies
      && sliceKey in w'.store.slices && Writer(w'.store, sliceKey) == key
    decreases CallsLeft(PhaseOf(w, key))
  {
    var phase := PhaseOf(w, key);
    if phase.Writing? {
      WriteLands(w, key);
      if phase.existing.None? {
        var vanish := SliceVanishes(SliceKeyOf(key, phase.copy));
        more := [vanish] + [Write(key, Fine)];
        AfterTwo(w, vanish, Write(key, Fine));
      } else {
        more := [Write(key, Fine)];
        AfterOne(w, Write(key, Fine));
      }
    } else {
      var call := NextCall(key, phase);
      NextCallAdvances(w, key);
      var rest := ReachWrite(Next(w, call), key);
      more := [call] + rest;
      AfterConcat(w, [call], rest);
      AfterOne(w, call);
    }
  }

  /** Everything that may follow, without another change of target of a published policy, is safe. */
  ghost predicate StaysSafe(w: World) {
    forall more :: GuardedRun(w, more) ==> Safe(After(w, more))
  }

  lemma NotCurrent(s: Store, key: ObjectKey, sliceKey: ObjectKey)
    requires sliceKey in s.slices && Writer(s, sliceKey) == key
    requires key in s.policies ==> SliceKeyOf(key, s.policies[key]) != sliceKey
    ensures !SlicesCurrent(s)
  {
  }

  /** Pointing a policy at another Service leaves everything safe, now and whatever follows, exactly when no slice
      carries the policy's label and no reconcile of it is on its way to write one. */
  lemma RetargetIsSafeIff(w: World, key: ObjectKey, target: string)
    requires Inv(w) && ReadIsFresh(w, key)
    requires key in w.store.policies && target != w.store.policies[key].spec.target
    ensures StaysSafe(Next(w, Retarget(key, target))) <==> Unpublished(w, key)
  {
    var w1 := Next(w, Retarget(key, target));
    OtherTarget(key.ns, target, w.store.policies[key].spec.target);
    if Unpublished(w, key) {
      RetargetKeeps(w, key, target);
      forall more | GuardedRun(w1, more)
        ensures Safe(After(w1, more))
      {
        RunKeeps(w1, more);
        InvIsSafe(After(w1, more));
      }
    } else if sliceKey :| sliceKey in w.store.slices && Writer(w.store, sliceKey) == key {
      assert SliceFits(w, sliceKey);
      NotCurrent(w1.store, key, sliceKey);
      assert GuardedRun(w1, []) && After(w1, []) == w1;
    } else {
      assert PhaseFits(w.store, key, PhaseOf(w, key));
      var more := ReachWrite(w1, key);
      NotCurrent(After(w1, more).store, key, SliceKeyOf(key, PhaseOf(w, key).copy));
      assert GuardedRun(w1, more);
    }
  }

  /** While no reconcile of the policy is under way, the label alone decides: what a user can look up. */
  lemma RetargetAtRestIsSafeIff(w: World, key: ObjectKey, target: string)
    requires Inv(w) && PhaseOf(w, key).Idle?
    requires key in w.store.policies && target != w.store.policies[key].spec.target
    ensures StaysSafe(Next(w, Retarget(key, target))) <==> Unlabelled(w.store, key)
  {
    RetargetIsSafeIff(w, key, target);
  }

  // ---------- what a published policy leaves behind when it changes its target ----------

  /** No uid is from the future. */
  ghost predicate UidsFit(w: World) {
    && (forall key :: key in w.store.policies ==> w.store.policies[key].uid < w.store.nextVersion)
    && (forall sliceKey :: sliceKey in w.store.slices ==> w.store.slices[sliceKey].owner < w.store.nextVersion)
    && (forall key :: var phase := PhaseOf(w, key);
          && (!phase.Idle? ==> phase.copy.uid < w.store.nextVersion)
          && (phase.Writing? && phase.existing.Some? ==> phase.existing.value.owner < w.store.nextVersion))
  }

  lemma PolicyUidsKept(w: World, a: Action, key: ObjectKey)
    requires UidsFit(w)
    ensures key in Next(w, a).store.policies ==> Next(w, a).store.policies[key].uid < Next(w, a).store.nextVersion
  {
  }

  lemma OwnersKept(w: World, a: Action, sliceKey: ObjectKey)
    requires UidsFit(w)
    ensures sliceKey in Next(w, a).store.slices ==>
      Next(w, a).store.slices[sliceKey].owner < Next(w, a).store.nextVersion
  {
    if a.Write? {
      assert PhaseOf(w, a.key).Idle? || PhaseOf(w, a.key).copy.uid < w.store.nextVersion;
    }
  }

  lemma CopyUidsKept(w: World, a: Action, key: ObjectKey)
    requires UidsFit(w)
    ensures var phase, next := PhaseOf(Next(w, a), key), Next(w, a).store.nextVersion;
      && (!phase.Idle? ==> phase.copy.uid < next)
      && (phase.Writing? && phase.existing.Some? ==> phase.existing.value.owner < next)
  {
    assert PhaseOf(w, key).Idle? || PhaseOf(w, key).copy.uid < w.store.nextVersion;
  }

  lemma UidsKept(w: World, a: Action)
    requires UidsFit(w)
    ensures UidsFit(Next(w, a))
  {
    var w' := Next(w, a);
    forall key {
      PolicyUidsKept(w, a, key);
    }
    forall sliceKey {
      OwnersKept(w, a, sliceKey);
    }
    forall key {
      CopyUidsKept(w, a, key);
    }
  }

  lemma {:induction false} RunKeepsUids(w: World, actions: seq<Action>)
    requires UidsFit(w)
    ensures UidsFit(After(w, actions))
  {
    if actions != [] {
      RunKeepsUids(w, actions[..|actions| - 1]);
      UidsKept(After(w, actions[..|actions| - 1]), actions[|actions| - 1]);
    }
  }

  /** Neither a stored policy nor a reconcile's copy of one names the slice's Service. */
  ghost predicate Unnamed(w: World, sliceKey: ObjectKey) {
    && (forall key :: key in w.store.policies ==> SliceKeyOf(key, w.store.policies[key]) != sliceKey)
    && (forall key :: !PhaseOf(w, key).Idle? ==> SliceKeyOf(key, PhaseOf(w, key).copy) != sliceKey)
  }

  /** The step neither brings a policy that names the slice's Service nor deletes the slice by hand. */
  predicate LeavesUnnamed(a: Action, sliceKey: ObjectKey) {
    match a
    case UserCreate(key, policy) => SliceKeyOf(key, policy) != sliceKey
    case Retarget(key, target) => SliceKey(key.ns, target) != sliceKey
    case SliceVanishes(key) => key != sliceKey
    case _ => true
  }

  lemma StoredUnnamed(w: World, a: Action, key: ObjectKey, sliceKey: ObjectKey)
    requires Unnamed(w, sliceKey) && LeavesUnnamed(a, sliceKey) && key in Next(w, a).store.policies
    ensures SliceKeyOf(key, Next(w, a).store.policies[key]) != sliceKey
  {
    assert !PhaseOf(w, key).Idle? ==> SliceKeyOf(key, PhaseOf(w, key).copy) != sliceKey;
  }

  lemma CopyUnnamed(w: World, a: Action, key: ObjectKey, sliceKey: ObjectKey)
    requires Unnamed(w, sliceKey) && LeavesUnnamed(a, sliceKey) && !PhaseOf(Next(w, a), key).Idle?
    ensures SliceKeyOf(key, PhaseOf(Next(w, a), key).copy) != sliceKey
  {
    assert !PhaseOf(w, key).Idle? ==> SliceKeyOf(key, PhaseOf(w, key).copy) != sliceKey;
  }

  lemma UnnamedStays(w: World, a: Action, sliceKey: ObjectKey)
    requires Unnamed(w, sliceKey) && LeavesUnnamed(a, sliceKey)
    ensures Unnamed(Next(w, a), sliceKey)
  {
    forall key | key in Next(w, a).store.policies {
      StoredUnnamed(w, a, key, sliceKey);
    }
    forall key | !PhaseOf(Next(w, a), key).Idle? {
      CopyUnnamed(w, a, key, sliceKey);
    }
  }

  /** An owner that is gone does not come back. */
  lemma OwnersStayGone(w: World, a: Action, ns: string, owner: nat)
    requires owner < w.store.nextVersion && OwnerExists(Next(w, a).store, ns, owner)
    ensures OwnerExists(w.store, ns, owner)
  {
  }

  /** Only garbage collection touches such a slice, and only when its owner is gone. */
  lemma UnnamedUntouched(w: World, a: Action, sliceKey: ObjectKey)
    requires Unnamed(w, sliceKey) && LeavesUnnamed(a, sliceKey) && sliceKey in w.store.slices
    ensures var w', gone := Next(w, a), !OwnerExists(w.store, sliceKey.ns, w.store.slices[sliceKey].owner);
      if a == Collect(sliceKey) && gone then sliceKey !in w'.store.slices
      else sliceKey in w'.store.slices && w'.store.slices[sliceKey] == w.store.slices[sliceKey]
  {
  }

  /** A slice whose Service no policy names any more stays exactly as it is for as long as its owner exists,
      whatever reconciles run and however they fail. */
  lemma {:induction false} UnnamedOutlives(w: World, actions: seq<Action>, sliceKey: ObjectKey)
    requires UidsFit(w) && Unnamed(w, sliceKey) && sliceKey in w.store.slices
    requires forall i :: 0 <= i < |actions| ==> LeavesUnnamed(actions[i], sliceKey)
    ensures var w' := After(w, actions);
      && Unnamed(w', sliceKey)
      && (OwnerExists(w'.store, sliceKey.ns, w.store.slices[sliceKey].owner) ==>
            sliceKey in w'.store.slices && w'.store.slices[sliceKey] == w.store.slices[sliceKey])
  {
    if actions != [] {
      var before, a := actions[..|actions| - 1], actions[|actions| - 1];
      UnnamedOutlives(w, before, sliceKey);
      RunKeepsUids(w, before);
      var w1 := After(w, before);
      UnnamedStays(w1, a, sliceKey);
      VersionsGrow(w, before);
      if OwnerExists(Next(w1, a).store, sliceKey.ns, w.store.slices[sliceKey].owner) {
        OwnersStayGone(w1, a, sliceKey.ns, w.store.slices[sliceKey].owner);
        UnnamedUntouched(w1, a, sliceKey);
      }
    }
  }

  lemma {:induction false} VersionsGrow(w: World, actions: seq<Action>)
    ensures w.store.nextVersion <= After(w, actions).store.nextVersion
  {
    if actions != [] {
      VersionsGrow(w, actions[..|actions| - 1]);
    }
  }

  /** After a policy was pointed at another Service, and as long as it exists, nothing its own reconciles or any
      others do touches the slice it left behind. */
  lemma RetargetedSliceStays(w: World, key: ObjectKey, target: string, actions: seq<Action>)
    requires UidsFit(w) && key in w.store.policies && target != w.store.policies[key].spec.target
    requires var sliceKey := SliceKeyOf(key, w.store.policies[key]);
      && sliceKey in w.store.slices && w.store.slices[sliceKey].owner == w.store.policies[key].uid
      && (forall k :: k in w.store.policies && k != key ==> SliceKeyOf(k, w.store.policies[k]) != sliceKey)
      && (forall k :: !PhaseOf(w, k).Idle? ==> SliceKeyOf(k, PhaseOf(w, k).copy) != sliceKey)
      && (forall i :: 0 <= i < |actions| ==> LeavesUnnamed(actions[i], sliceKey))
    ensures var sliceKey, w' := SliceKeyOf(key, w.store.policies[key]), After(Next(w, Retarget(key, target)), actions);
      key in w'.store.policies && w'.store.policies[key].uid == w.store.policies[key].uid ==>
        sliceKey in w'.store.slices && w'.store.slices[sliceKey] == w.store.slices[sliceKey]
  {
    var sliceKey, w1 := SliceKeyOf(key, w.store.policies[key]), Next(w, Retarget(key, target));
    OtherTarget(key.ns, target, w.store.policies[key].spec.target);
    forall k | k in w1.store.policies
      ensures SliceKeyOf(k, w1.store.policies[k]) != sliceKey
    {
    }
    forall k | !PhaseOf(w1, k).Idle?
      ensures SliceKeyOf(k, PhaseOf(w1, k).copy) != sliceKey
    {
      assert PhaseOf(w1, k) == PhaseOf(w, k);
    }
    UidsKept(w, Retarget(key, target));
    UnnamedOutlives(w1, actions, sliceKey);
  }

  /** The first reconcile of a new policy, whose calls all work, with nothing selected. */
  function FirstPublication(key: ObjectKey, policy: Policy, status: PolicyStatus): seq<Action> {
    [UserCreate(key, policy)] + [Load(key, Fine)] + [Proceed(key, Fine)] + [Decide(key, false, Some([]))]
    + [Look(key, Fine)] + [Write(key, Fine)] + [Report(key, status, Fine)]
  }

  lemma FirstCreated(key: ObjectKey, policy: Policy)
    ensures var w, created := After(EMPTY, [UserCreate(key, policy)] + [Load(key, Fine)]),
        Created(EMPTY.store, policy).(version := 0);
      && w == World(Store(map[key := created], map[], 1), {}, {}, map[key := Loaded(created)])
  {
    AfterTwo(EMPTY, UserCreate(key, policy), Load(key, Fine));
  }

  lemma FirstAdopted(w: World, key: ObjectKey, copy: Policy, endpoints: seq<Endpoint>)
    requires PhaseOf(w, key) == Loaded(copy) && !copy.deleting && FINALIZER !in copy.finalizers
    requires key in w.store.policies && w.store.policies[key] == copy
    ensures var w', adopted := Next(Next(w, Proceed(key, Fine)), Decide(key, false, Some(endpoints))),
        copy.(finalizers := copy.finalizers + {FINALIZER}, version := w.store.nextVersion);
      && w'.store == Store(w.store.policies[key := adopted], w.store.slices, w.store.nextVersion + 1)
      && w'.phases == w.phases[key := Publishing(adopted, endpoints)]
  {
  }

  lemma FirstWritten(w: World, key: ObjectKey, copy: Policy, endpoints: seq<Endpoint>, status: PolicyStatus)
    requires PhaseOf(w, key) == Publishing(copy, endpoints) && SliceKeyOf(key, copy) !in w.store.slices
    requires key in w.store.policies && w.store.policies[key] == copy && FINALIZER in copy.finalizers
    ensures var w' := Next(Next(Next(w, Look(key, Fine)), Write(key, Fine)), Report(key, status, Fine));
      && w'.store.policies == w.store.policies[key := copy.(status := status, version := w.store.nextVersion)]
      && w'.store.slices == w.store.slices[SliceKeyOf(key, copy) := Slice(key.name, endpoints, copy.uid)]
      && w'.phases == w.phases[key := Idle]
  {
  }

  /** The policy is the only one, is at rest, and its slice the only slice. */
  predicate AloneAndPublished(w: World, key: ObjectKey, spec: PolicySpec) {
    && w.store.policies.Keys == {key} && w.phases == map[key := Idle]
    && Holds(w.store, key) && !w.store.policies[key].deleting && w.store.policies[key].spec == spec
    && w.store.slices
       == map[SliceKey(key.ns, spec.target) := Slice(key.name, [], w.store.policies[key].uid)]
  }

  lemma FirstPublished(key: ObjectKey, policy: Policy, status: PolicyStatus)
    ensures AloneAndPublished(After(EMPTY, FirstPublication(key, policy, status)), key, policy.spec)
  {
    var start := [UserCreate(key, policy)] + [Load(key, Fine)];
    FirstCreated(key, policy);
    var w := After(EMPTY, start);
    AfterStep(EMPTY, start, Proceed(key, Fine));
    AfterStep(EMPTY, start + [Proceed(key, Fine)], Decide(key, false, Some([])));
    FirstAdopted(w, key, w.store.policies[key], []);
    var middle := start + [Proceed(key, Fine)] + [Decide(key, false, Some([]))];
    var w1 := After(EMPTY, middle);
    AfterStep(EMPTY, middle, Look(key, Fine));
    AfterStep(EMPTY, middle + [Look(key, Fine)], Write(key, Fine));
    AfterStep(EMPTY, middle + [Look(key, Fine)] + [Write(key, Fine)], Report(key, status, Fine));
    FirstWritten(w1, key, w1.store.policies[key], [], status);
  }

  /** Once retargeted, the policy is alive, carries the finalizer and names another Service; yet its old slice is
      there, and stays until the policy itself is gone. */
  ghost predicate LeavesSlice(w: World, key: ObjectKey, target: string, more: seq<Action>)
    requires key in w.store.policies
  {
    var sliceKey, w1 := SliceKeyOf(key, w.store.policies[key]), Next(w, Retarget(key, target));
    var w2 := After(w1, more);
    && Holds(w1.store, key) && !w1.store.policies[key].deleting && SliceKeyOf(key, w1.store.policies[key]) != sliceKey
    && sliceKey in w1.store.slices && Writer(w1.store, sliceKey) == key
    && (key in w2.store.policies && w2.store.policies[key].uid == w1.store.policies[key].uid ==>
          sliceKey in w2.store.slices && w2.store.slices[sliceKey] == w1.store.slices[sliceKey])
  }

  lemma AloneLeavesSlice(w: World, key: ObjectKey, spec: PolicySpec, target: string, more: seq<Action>)
    requires AloneAndPublished(w, key, spec) && UidsFit(w) && target != spec.target
    requires forall i :: 0 <= i < |more| ==> LeavesUnnamed(more[i], SliceKey(key.ns, spec.target))
    ensures LeavesSlice(w, key, target, more)
    ensures !Guarded(w, Retarget(key, target))
  {
    OtherTarget(key.ns, target, spec.target);
    assert Writer(w.store, SliceKey(key.ns, spec.target)) == key;
    RetargetedSliceStays(w, key, target, more);
  }

  /** An input on which it happens, from the very beginning: a policy is created, published once, and pointed at
      another Service; whatever follows leaves its old slice in place. */
  lemma RetargetLeavesSlice(key: ObjectKey, policy: Policy, status: PolicyStatus, target: string, more: seq<Action>)
    requires target != policy.spec.target
    requires forall i :: 0 <= i < |more| ==> LeavesUnnamed(more[i], SliceKeyOf(key, policy))
    ensures var w := After(EMPTY, FirstPublication(key, policy, status));
      && key in w.store.policies && w.store.policies[key].spec == policy.spec
      && LeavesSlice(w, key, target, more)
      && !Guarded(w, Retarget(key, target))
  {
    var actions := FirstPublication(key, policy, status);
    FirstPublished(key, policy, status);
    RunKeepsUids(EMPTY, actions);
    AloneLeavesSlice(After(EMPTY, actions), key, policy.spec, target, more);
  }
}
