/** The API server, as the controller uses it: policies and endpoint slices under their keys, each call linearizable.
    A call may be refused, or be applied although the caller is told it failed. */
module Cluster {
  import opened Options

  datatype ObjectKey = ObjectKey(ns: string, name: string)

  // ---------- objects ----------

  datatype SelectionPolicy = SelectionPolicy(mode: string, topN: Option<int>, percentage: Option<int>)

  datatype CircuitBreakerSpec = CircuitBreakerSpec(
    enabled: bool, p99Threshold: int, consecutiveViolations: int, recoveryInterval: int)

  datatype DampeningSpec = DampeningSpec(enabled: bool, thresholdPercent: int, consecutiveIntervals: int)

  datatype PolicySpec = PolicySpec(
    target: string,
    latencyThreshold: int,
    selection: SelectionPolicy,
    circuitBreaker: Option<CircuitBreakerSpec>,
    dampening: Option<DampeningSpec>)

  datatype PodLatencyInfo = PodLatencyInfo(name: string, podIP: string, p50: int, p99: int, circuitBroken: bool)

  /** The list of ejected pods is kept as a set: its order is that of a map iteration. */
  datatype PolicyStatus = PolicyStatus(
    activePods: int,
    totalPods: int,
    averageLatencyMs: int,
    p99LatencyMs: int,
    circuitBrokenPods: set<string>,
    podLatencies: seq<PodLatencyInfo>)

  /** A deleted policy stays, marked, for as long as it has finalizers.  Every write gives it a new version; its
      uid is that of its creation, never used before and never again. */
  datatype Policy = Policy(
    spec: PolicySpec, status: PolicyStatus, finalizers: set<string>, deleting: bool, version: nat, uid: nat)

  datatype Endpoint = Endpoint(address: string, podName: string, nodeName: Option<string>, ready: bool)

  /** The policy-name label says who wrote the slice last, the owner reference (a uid) who created it. */
  datatype Slice = Slice(policyName: string, endpoints: seq<Endpoint>, owner: nat)

  datatype Store = Store(policies: map<ObjectKey, Policy>, slices: map<ObjectKey, Slice>, nextVersion: nat)

  // ---------- calls ----------

  datatype Fault = Fine | Refused | Lost

  datatype Lookup<T> = Found(value: T) | NotFound | Unavailable

  function GetPolicy(s: Store, key: ObjectKey, fault: Fault): Lookup<Policy> {
    if !fault.Fine? then Unavailable
    else if key in s.policies then Found(s.policies[key]) else NotFound
  }

  /** What a write leaves under the key: nothing once a deleted policy has no finalizers. */
  function Stored(s: Store, key: ObjectKey, p: Policy): Store {
    var written := p.(version := s.nextVersion);
    Store(
      if written.deleting && written.finalizers == {} then s.policies - {key} else s.policies[key := written],
      s.slices,
      s.nextVersion + 1)
  }

  predicate Accepts(s: Store, key: ObjectKey, copy: Policy, fault: Fault) {
    !fault.Refused? && key in s.policies && s.policies[key].version == copy.version
  }

  /** Writes the copy's spec and finalizers, unless the policy has changed since it was read. */
  function UpdatePolicy(s: Store, key: ObjectKey, copy: Policy, fault: Fault): (Store, Option<Policy>) {
    if !Accepts(s, key, copy, fault) then (s, None)
    else
      var merged := s.policies[key].(spec := copy.spec, finalizers := copy.finalizers);
      (Stored(s, key, merged), if fault.Fine? then Some(merged.(version := s.nextVersion)) else None)
  }

  /** Writes the copy's status only; the controller ignores whether that worked. */
  function UpdateStatus(s: Store, key: ObjectKey, copy: Policy, fault: Fault): Store {
    if !Accepts(s, key, copy, fault) then s
    else Stored(s, key, s.policies[key].(status := copy.status))
  }

  function GetSlice(s: Store, key: ObjectKey, fault: Fault): Lookup<Slice> {
    if !fault.Fine? then Unavailable
    else if key in s.slices then Found(s.slices[key]) else NotFound
  }

  function CreateSlice(s: Store, key: ObjectKey, slice: Slice, fault: Fault): (Store, bool) {
    if fault.Refused? || key in s.slices then (s, false)
    else (s.(slices := s.slices[key := slice]), fault.Fine?)
  }

  /** Refused when the slice is no longer the one that was read. */
  function UpdateSlice(s: Store, key: ObjectKey, read: Slice, slice: Slice, fault: Fault): (Store, bool) {
    if fault.Refused? || key !in s.slices || s.slices[key] != read then (s, false)
    else (s.(slices := s.slices[key := slice]), fault.Fine?)
  }

  datatype Deletion = Deleted | Absent | Failed

  function DeleteSlice(s: Store, key: ObjectKey, fault: Fault): (Store, Deletion) {
    if fault.Refused? then (s, Failed)
    else
      (s.(slices := s.slices - {key}),
       if fault.Lost? then Failed else if key in s.slices then Deleted else Absent)
  }

  // ---------- garbage collection ----------

  /** Some policy of the namespace has the uid. */
  predicate OwnerExists(s: Store, ns: string, owner: nat) {
    exists key :: key in s.policies && key.ns == ns && s.policies[key].uid == owner
  }

  /** The cluster removes a slice whose owner is gone, and no other. */
  function Collected(s: Store, key: ObjectKey): Store {
    if key in s.slices && !OwnerExists(s, key.ns, s.slices[key].owner) then s.(slices := s.slices - {key}) else s
  }
}
