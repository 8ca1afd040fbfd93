/** The Aviator-owned endpoint slice of a Service (internal/endpointslice). */
module EndpointSlice {
  import opened Options
  import opened Cluster
  import opened ApiClient

  datatype PodEndpoint = PodEndpoint(podName: string, podIP: string, nodeName: string, ready: bool)

  function SliceKey(ns: string, serviceName: string): ObjectKey {
    ObjectKey(ns, "aviator-" + serviceName)
  }

  /** Distinct Services of a namespace have distinct slices. */
  lemma SliceKeyInjective(ns: string, service: string, ns': string, service': string)
    requires SliceKey(ns, service) == SliceKey(ns', service')
    ensures ns == ns' && service == service'
  {
    assert ("aviator-" + service)[|"aviator-"|..] == service;
    assert ("aviator-" + service')[|"aviator-"|..] == service';
  }

  function EndpointOf(pod: PodEndpoint): Endpoint {
    Endpoint(pod.podIP, pod.podName, if pod.nodeName != "" then Some(pod.nodeName) else None, pod.ready)
  }

  function Endpoints(pods: seq<PodEndpoint>): seq<Endpoint> {
    seq(|pods|, i requires 0 <= i < |pods| => EndpointOf(pods[i]))
  }

  function Desired(policyName: string, owner: nat, pods: seq<PodEndpoint>): Slice {
    Slice(policyName, Endpoints(pods), owner)
  }

  function Addresses(slice: Slice): (ips: seq<string>)
    ensures |ips| == |slice.endpoints|
  {
    seq(|slice.endpoints|, i requires 0 <= i < |slice.endpoints| => slice.endpoints[i].address)
  }

  /** The desired content, under the owner reference of an existing slice. */
  function Merged(existing: Slice, desired: Slice): Slice {
    existing.(policyName := desired.policyName, endpoints := desired.endpoints)
  }

  /** Whether a publication takes effect, even if the caller is told otherwise. */
  predicate TakesEffect(read: Fault, write: Fault) { read.Fine? && !write.Refused? }

  /** The slice ends up with the desired content exactly when both calls take effect, and is left alone otherwise;
      success is reported exactly when both report it. */
  function Published(s: Store, key: ObjectKey, desired: Slice, read: Fault, write: Fault): (r: (Store, bool))
    ensures r.0 ==
      if TakesEffect(read, write) then
        s.(slices := s.slices[key := if key in s.slices then Merged(s.slices[key], desired) else desired])
      else s
    ensures r.1 <==> read.Fine? && write.Fine?
  {
    match GetSlice(s, key, read)
    case NotFound => CreateSlice(s, key, desired, write)
    case Unavailable => (s, false)
    case Found(existing) => UpdateSlice(s, key, existing, Merged(existing, desired), write)
  }

  /** A slice that is not there counts as cleaned up. */
  function CleanedUp(s: Store, key: ObjectKey, fault: Fault): (Store, bool) {
    var (cleaned, deletion) := DeleteSlice(s, key, fault);
    (cleaned, !deletion.Failed?)
  }

  class Manager {
    const client: Client

    constructor (client: Client)
      ensures this.client == client
    {
      this.client := client;
    }

    method Reconcile(policyKey: ObjectKey, uid: nat, serviceName: string, selectedPods: seq<PodEndpoint>,
                     read: Fault, write: Fault)
      returns (ok: bool)
      modifies client
      ensures (client.store, ok) == Published(
        old(client.store), SliceKey(policyKey.ns, serviceName), Desired(policyKey.name, uid, selectedPods), read, write)
    {
      var sliceKey := SliceKey(policyKey.ns, serviceName);
      var desired := BuildEndpointSlice(policyKey.name, uid, selectedPods);
      var existing := client.ReadSlice(sliceKey, read);
      match existing {
        case NotFound =>
          ok := client.Create(sliceKey, desired, write);
        case Unavailable =>
          ok := false;
        case Found(slice) =>
          slice := slice.(endpoints := desired.endpoints, policyName := desired.policyName);
          ok := client.Update(sliceKey, existing.value, slice, write);
      }
    }

    method Cleanup(ns: string, serviceName: string, fault: Fault) returns (ok: bool)
      modifies client
      ensures (client.store, ok) == CleanedUp(old(client.store), SliceKey(ns, serviceName), fault)
    {
      var deletion := client.Delete(SliceKey(ns, serviceName), fault);
      if deletion.Absent? {
        return true;
      }
      ok := deletion.Deleted?;
    }

    method BuildEndpointSlice(policyName: string, owner: nat, pods: seq<PodEndpoint>) returns (slice: Slice)
      ensures slice == Desired(policyName, owner, pods)
    {
      var endpoints := [];
      for i := 0 to |pods|
        invariant endpoints == Endpoints(pods[..i])
      {
        var ep := Endpoint(pods[i].podIP, pods[i].podName, None, pods[i].ready);
        if pods[i].nodeName != "" {
          ep := ep.(nodeName := Some(pods[i].nodeName));
        }
        endpoints := endpoints + [ep];
      }
      assert pods[..|pods|] == pods;
      slice := Slice(policyName, endpoints, owner);
    }
  }
}
