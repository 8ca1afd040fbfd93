/** The client through which the controller reaches the API server; what each call meets is an input. */
module ApiClient {
  import opened Options
  import opened Cluster

  class Client {
    var store: Store

    method ReadPolicy(key: ObjectKey, fault: Fault) returns (r: Lookup<Policy>)
      ensures r == GetPolicy(store, key, fault)
    {
      r := GetPolicy(store, key, fault);
    }

    method WritePolicy(key: ObjectKey, copy: Policy, fault: Fault) returns (r: Option<Policy>)
      modifies this
      ensures (store, r) == UpdatePolicy(old(store), key, copy, fault)
    {
      var (s, written) := UpdatePolicy(store, key, copy, fault);
      store := s;
      r := written;
    }

    method WriteStatus(key: ObjectKey, copy: Policy, fault: Fault)
      modifies this
      ensures store == UpdateStatus(old(store), key, copy, fault)
    {
      store := UpdateStatus(store, key, copy, fault);
    }

    method ReadSlice(key: ObjectKey, fault: Fault) returns (r: Lookup<Slice>)
      ensures r == GetSlice(store, key, fault)
    {
      r := GetSlice(store, key, fault);
    }

    method Create(key: ObjectKey, slice: Slice, fault: Fault) returns (ok: bool)
      modifies this
      ensures (store, ok) == CreateSlice(old(store), key, slice, fault)
    {
      var (s, done) := CreateSlice(store, key, slice, fault);
      store := s;
      ok := done;
    }

    method Update(key: ObjectKey, read: Slice, slice: Slice, fault: Fault) returns (ok: bool)
      modifies this
      ensures (store, ok) == UpdateSlice(old(store), key, read, slice, fault)
    {
      var (s, done) := UpdateSlice(store, key, read, slice, fault);
      store := s;
      ok := done;
    }

    method Delete(key: ObjectKey, fault: Fault) returns (deletion: Deletion)
      modifies this
      ensures (store, deletion) == DeleteSlice(old(store), key, fault)
    {
      var (s, done) := DeleteSlice(store, key, fault);
      store := s;
      deletion := done;
    }
  }
}
