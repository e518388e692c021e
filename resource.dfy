/**
 * The resource registry of src/util/resource.c as an object: the two globals
 * resource_mutex and resource_by_name, and the operations that update them.
 * Each critical block is one atomic step; the mutex is modelled only by
 * whether it exists. The outcomes of the collaborators the source calls
 * (mutex_create, hashtable_create, hashtable_put) are parameters.
 */
module Resource {

  import opened Wrappers
  import opened PlcTag
  import opened CString
  import opened RefCount
  import opened RegistrySpec

  class ResourceService {
    /** The cells that registered resources live in. */
    const heap: CellHeap
    /** resource_mutex is not NULL. */
    var mutexLive: bool
    /** resource_by_name is not NULL. */
    var tableLive: bool
    /** The entries of resource_by_name. */
    var store: map<CStr, CellId>

    /** The registry's abstract state. */
    ghost function Snapshot(): State
      reads this, heap
    {
      State(store, heap.counts)
    }

    /** Initialised, and the weak counts cover the table's entries. */
    ghost predicate Valid()
      reads this, heap
    {
      mutexLive && tableLive && WeakCovered(Snapshot())
    }

    /** The two globals start out NULL. */
    constructor (heap: CellHeap)
      ensures this.heap == heap
      ensures !mutexLive && !tableLive && store == map[]
    {
      this.heap := heap;
      mutexLive, tableLive, store := false, false, map[];
    }

    /** resource_get: the result and the new state are those of GetStep. */
    method Get(name: Option<CStr>) returns (result: Option<CellId>)
      requires Valid()
      modifies this, heap
      ensures Valid()
      ensures (Snapshot(), result) == GetStep(old(Snapshot()), name)
    {
      if name.None? {
        return None;
      }
      result := None;
      var resource := Lookup(store, name.value);
      if resource.Some? {
        result := heap.RcInc(resource);
      }
      if resource.Some? && result.None? {
        var _ := Remove(name);
      }
      GetKeepsCovered(old(Snapshot()), name);
    }

    /**
     * resource_put: the status and the new state are those of PutStep;
     * `tablePut` is the status hashtable_put reports.
     */
    method Put(name: Option<CStr>, resource: Option<CellId>, tablePut: Status) returns (rc: Status)
      requires Valid()
      requires resource.Some? ==> resource.value in heap.counts
      modifies this, heap
      ensures Valid()
      ensures (Snapshot(), rc) == PutStep(old(Snapshot()), name, resource, tablePut)
    {
      PutKeepsCovered(Snapshot(), name, resource, tablePut);
      rc := StatusOk;
      var tmp := heap.RcWeakInc(resource);
      if name.None? {
        return ErrNullPtr;
      }
      if tmp.None? {
        return ErrNullPtr;
      }
      rc := tablePut;
      if rc != StatusOk {
        return;
      }
      store := store[name.value := resource.value];
    }

    /** resource_remove: the status and the new state are those of RemoveStep. */
    method Remove(name: Option<CStr>) returns (rc: Status)
      requires Valid()
      modifies this, heap
      ensures Valid()
      ensures (Snapshot(), rc) == RemoveStep(old(Snapshot()), name)
    {
      RemoveKeepsCovered(Snapshot(), name);
      if name.None? {
        return ErrNullPtr;
      }
      var resource := Lookup(store, name.value);
      assert resource.Some? ==> name.value in Refs(store, resource.value);
      store := store - {name.value};
      heap.RcWeakDec(resource);
      rc := if resource.Some? then StatusOk else ErrNotFound;
    }

    /**
     * resource_service_init: `mutexCreate` is what mutex_create reports and
     * `tableCreated` whether hashtable_create returned a table. A failed
     * mutex_create is taken to leave both globals as they were.
     */
    method ServiceInit(mutexCreate: Status, tableCreated: bool) returns (rc: Status)
      modifies this
      ensures mutexCreate != StatusOk ==>
        rc == mutexCreate && mutexLive == old(mutexLive) && tableLive == old(tableLive) && store == old(store)
      ensures mutexCreate == StatusOk && !tableCreated ==> rc == ErrCreate && !mutexLive && !tableLive
      ensures mutexCreate == StatusOk && tableCreated ==> rc == StatusOk && store == map[] && Valid()
      ensures heap.counts == old(heap.counts)
    {
      rc := mutexCreate;
      if rc != StatusOk {
        return rc;
      }
      mutexLive := true;
      if !tableCreated {
        tableLive, store := false, map[];
        mutexLive := false;
        return ErrCreate;
      }
      tableLive, store := true, map[];
    }

    /**
     * resource_service_teardown: the table and the mutex are destroyed; the
     * weak references the remaining entries held are not given back.
     */
    method ServiceTeardown()
      modifies this
      ensures !mutexLive && !tableLive && store == map[]
      ensures heap.counts == old(heap.counts)
    {
      store, tableLive := map[], false;
      mutexLive := false;
    }
  }
}
