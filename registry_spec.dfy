/**
 * The resource registry of src/util/resource.c as a state machine on values.
 * The state is the name table (resource_by_name) and the counters of every
 * cell. Each critical block is one atomic step, so resource_get,
 * resource_put and resource_remove become the functions GetStep, PutStep and
 * RemoveStep; the lemmas below state what the source promises about them.
 */
module RegistrySpec {

  import opened Wrappers
  import opened PlcTag
  import opened CString
  import opened RefCount

  /** The name table and the counters of every cell. */
  datatype State = State(store: map<CStr, CellId>, cells: Cells)

  /** The names under which the table holds cell `c`. */
  function Refs(store: map<CStr, CellId>, c: CellId): set<CStr> {
    set k | k in store && store[k] == c
  }

  /**
   * The registry invariant: every entry names an allocated cell, and every
   * cell's weak count covers the entries that refer to it, so the weak
   * reference that resource_remove gives back is always one the table holds.
   */
  ghost predicate WeakCovered(s: State) {
    && (forall k :: k in s.store ==> s.store[k] in s.cells)
    && (forall c :: c in s.cells ==> |Refs(s.store, c)| <= s.cells[c].weak)
  }

  /** hashtable_get and hashtable_remove: the cell stored under `name`, or null. */
  function Lookup(store: map<CStr, CellId>, name: CStr): Option<CellId> {
    if name in store then Some(store[name]) else None
  }

  /** resource_remove: drop the entry and give back the weak reference it held. */
  function RemoveStep(s: State, name: Option<CStr>): (State, Status)
    requires WeakCovered(s)
  {
    if name.None? then (s, ErrNullPtr)
    else
      var resource := Lookup(s.store, name.value);
      assert resource.Some? ==> name.value in Refs(s.store, resource.value);
      var cells := WeakDec(s.cells, resource);
      (State(s.store - {name.value}, cells), if resource.Some? then StatusOk else ErrNotFound)
  }

  /**
   * resource_get: look the name up and try to promote the entry; a failed
   * promotion of a present entry is followed by resource_remove of the name.
   */
  function GetStep(s: State, name: Option<CStr>): (State, Option<CellId>)
    requires WeakCovered(s)
  {
    if name.None? then (s, None)
    else
      var resource := Lookup(s.store, name.value);
      var (cells, result) := Inc(s.cells, resource);
      if resource.Some? && result.None?
      then (RemoveStep(State(s.store, cells), name).0, None)
      else (State(s.store, cells), result)
  }

  /**
   * resource_put: take a weak reference first, then reject a null name or a
   * dead resource, then insert; `tablePut` is the status hashtable_put reports.
   */
  function PutStep(s: State, name: Option<CStr>, resource: Option<CellId>, tablePut: Status): (State, Status)
    requires resource.Some? ==> resource.value in s.cells
  {
    var (cells, tmp) := WeakInc(s.cells, resource);
    if name.None? || tmp.None? then (State(s.store, cells), ErrNullPtr)
    else if tablePut == StatusOk then (State(s.store[name.value := resource.value], cells), StatusOk)
    else (State(s.store, cells), tablePut)
  }

  /** Cell `c` can still be promoted. */
  predicate Live(s: State, c: CellId) {
    c in s.cells && s.cells[c].strong > 0
  }

  // ---------------------------------------------------------------------
  // Counting the table's references to a cell

  lemma RefsAfterInsert(store: map<CStr, CellId>, k: CStr, v: CellId, c: CellId)
    ensures c == v ==> Refs(store[k := v], c) == Refs(store, c) + {k}
    ensures c != v ==> Refs(store[k := v], c) == Refs(store, c) - {k}
  {
  }

  lemma RefsAfterDelete(store: map<CStr, CellId>, k: CStr, c: CellId)
    ensures Refs(store - {k}, c) == Refs(store, c) - {k}
  {
  }

  // ---------------------------------------------------------------------
  // The invariant is kept by every operation

  lemma RemoveKeepsCovered(s: State, name: Option<CStr>)
    requires WeakCovered(s)
    ensures WeakCovered(RemoveStep(s, name).0)
  {
    if name.Some? {
      var k := name.value;
      var s' := RemoveStep(s, name).0;
      forall c | c in s'.cells
        ensures |Refs(s'.store, c)| <= s'.cells[c].weak
      {
        RefsAfterDelete(s.store, k, c);
        if k in s.store && s.store[k] == c {
          assert k in Refs(s.store, c);
          assert |Refs(s.store, c) - {k}| == |Refs(s.store, c)| - 1;
        } else {
          assert Refs(s.store, c) - {k} == Refs(s.store, c);
        }
      }
    }
  }

  lemma PutKeepsCovered(s: State, name: Option<CStr>, resource: Option<CellId>, tablePut: Status)
    requires WeakCovered(s)
    requires resource.Some? ==> resource.value in s.cells
    ensures WeakCovered(PutStep(s, name, resource, tablePut).0)
  {
    var s' := PutStep(s, name, resource, tablePut).0;
    if name.Some? && resource.Some? && Live(s, resource.value) && tablePut == StatusOk {
      var k, r := name.value, resource.value;
      forall c | c in s'.cells
        ensures |Refs(s'.store, c)| <= s'.cells[c].weak
      {
        RefsAfterInsert(s.store, k, r, c);
        assert |Refs(s.store, c) - {k}| <= |Refs(s.store, c)|;
      }
    }
  }

  lemma GetKeepsCovered(s: State, name: Option<CStr>)
    requires WeakCovered(s)
    ensures WeakCovered(GetStep(s, name).0)
  {
    if name.Some? && name.value in s.store && !Live(s, s.store[name.value]) {
      RemoveKeepsCovered(s, name);
    }
  }

  // ---------------------------------------------------------------------
  // resource_get

  /** A null name is rejected and nothing changes. */
  lemma GetNullName(s: State)
    requires WeakCovered(s)
    ensures GetStep(s, None) == (s, None)
  {
  }

  /** A name that is not in the table gives null and changes nothing. */
  lemma GetMiss(s: State, name: CStr)
    requires WeakCovered(s) && name !in s.store
    ensures GetStep(s, Some(name)) == (s, None)
  {
  }

  /** A live entry is promoted: the same cell comes back, one more strong claim, table unchanged. */
  lemma GetLiveHit(s: State, name: CStr)
    requires WeakCovered(s) && name in s.store && Live(s, s.store[name])
    ensures var c := s.store[name];
      GetStep(s, Some(name)) ==
        (State(s.store, s.cells[c := Counts(s.cells[c].strong + 1, s.cells[c].weak)]), Some(c))
  {
  }

  /** A stale entry gives null and is purged, giving back its weak reference. */
  lemma GetStalePurges(s: State, name: CStr)
    requires WeakCovered(s) && name in s.store && !Live(s, s.store[name])
    ensures s.cells[s.store[name]].weak >= 1
    ensures var c := s.store[name];
      GetStep(s, Some(name)) ==
        (State(s.store - {name}, s.cells[c := Counts(s.cells[c].strong, s.cells[c].weak - 1)]), None)
  {
    assert name in Refs(s.store, s.store[name]);
  }

  /** Whatever get hands out was live, is the registered cell, and gained exactly one strong claim. */
  lemma GetReturnsLive(s: State, name: Option<CStr>)
    requires WeakCovered(s)
    ensures var (s', r) := GetStep(s, name);
      r.Some? ==> (name.Some? && name.value in s.store && r.value == s.store[name.value]
                   && Live(s, r.value) && s'.cells[r.value].strong == s.cells[r.value].strong + 1)
  {
  }

  // ---------------------------------------------------------------------
  // resource_put

  /** A null or dead resource is rejected with ErrNullPtr and nothing changes. */
  lemma PutDeadRejected(s: State, name: Option<CStr>, resource: Option<CellId>, tablePut: Status)
    requires resource.Some? ==> resource.value in s.cells
    requires resource.None? || !Live(s, resource.value)
    ensures PutStep(s, name, resource, tablePut) == (s, ErrNullPtr)
  {
  }

  /**
   * A null name is rejected with ErrNullPtr and the table is untouched, but the
   * weak reference taken before the check is kept: a live resource's weak
   * count stays raised by one.
   */
  lemma PutNullNameKeepsWeak(s: State, r: CellId, tablePut: Status)
    requires Live(s, r)
    ensures PutStep(s, None, Some(r), tablePut) ==
      (State(s.store, s.cells[r := Counts(s.cells[r].strong, s.cells[r].weak + 1)]), ErrNullPtr)
  {
  }

  /** A live resource under a name is inserted when the table accepts it. */
  lemma PutInserts(s: State, name: CStr, r: CellId)
    requires Live(s, r)
    ensures PutStep(s, Some(name), Some(r), StatusOk) ==
      (State(s.store[name := r], s.cells[r := Counts(s.cells[r].strong, s.cells[r].weak + 1)]), StatusOk)
  {
  }

  /** A refused insertion passes the table's status on, inserts nothing and keeps the weak reference. */
  lemma PutTableFailure(s: State, name: CStr, r: CellId, tablePut: Status)
    requires Live(s, r) && tablePut != StatusOk
    ensures PutStep(s, Some(name), Some(r), tablePut) ==
      (State(s.store, s.cells[r := Counts(s.cells[r].strong, s.cells[r].weak + 1)]), tablePut)
  {
  }

  // ---------------------------------------------------------------------
  // resource_remove

  lemma RemoveNullName(s: State)
    requires WeakCovered(s)
    ensures RemoveStep(s, None) == (s, ErrNullPtr)
  {
  }

  /**
   * Removing a present name deletes only that key and lowers its cell's weak
   * count once; that count is at least one, since the entry holds a weak reference.
   */
  lemma RemovePresent(s: State, name: CStr)
    requires WeakCovered(s) && name in s.store
    ensures s.cells[s.store[name]].weak >= 1
    ensures var c := s.store[name];
      RemoveStep(s, Some(name)) ==
        (State(s.store - {name}, s.cells[c := Counts(s.cells[c].strong, s.cells[c].weak - 1)]), StatusOk)
  {
    assert name in Refs(s.store, s.store[name]);
  }

  /** Removing an absent name reports ErrNotFound and changes nothing. */
  lemma RemoveAbsent(s: State, name: CStr)
    requires WeakCovered(s) && name !in s.store
    ensures RemoveStep(s, Some(name)) == (s, ErrNotFound)
  {
    assert s.store - {name} == s.store;
  }

  // ---------------------------------------------------------------------
  // Sequences of operations

  /**
   * After a successful put of a live resource, a get of the same name returns
   * that resource, raises its strong count by exactly one and keeps the entry.
   */
  lemma PutThenGet(s: State, name: CStr, r: CellId)
    requires WeakCovered(s) && Live(s, r)
    ensures var (s1, st) := PutStep(s, Some(name), Some(r), StatusOk);
      st == StatusOk && WeakCovered(s1) &&
      var (s2, got) := GetStep(s1, Some(name));
      got == Some(r) && s2.store == s1.store && s2.store[name] == r &&
      s2.cells == s1.cells[r := Counts(s1.cells[r].strong + 1, s1.cells[r].weak)]
  {
    PutKeepsCovered(s, Some(name), Some(r), StatusOk);
  }

  /**
   * After a successful put and a remove of the same name, a get misses and the
   * resource's weak count is back where it started.
   */
  lemma PutRemoveThenGet(s: State, name: CStr, r: CellId)
    requires WeakCovered(s) && Live(s, r)
    ensures var (s1, _) := PutStep(s, Some(name), Some(r), StatusOk);
      WeakCovered(s1) &&
      var (s2, st) := RemoveStep(s1, Some(name));
      st == StatusOk && s2.cells[r] == s.cells[r] && WeakCovered(s2) &&
      GetStep(s2, Some(name)) == (s2, None)
  {
    PutKeepsCovered(s, Some(name), Some(r), StatusOk);
    var s1 := PutStep(s, Some(name), Some(r), StatusOk).0;
    RemoveKeepsCovered(s1, Some(name));
  }

  /**
   * If every strong holder released a registered resource before the get, the
   * get misses and purges the entry; a later put of a live replacement then
   * succeeds and the name maps to the replacement alone.
   */
  lemma StaleThenPut(s: State, name: CStr, r2: CellId)
    requires WeakCovered(s) && name in s.store && !Live(s, s.store[name])
    requires Live(s, r2)
    ensures var (s1, got) := GetStep(s, Some(name));
      got == None && name !in s1.store && WeakCovered(s1) && Live(s1, r2) &&
      var (s2, st) := PutStep(s1, Some(name), Some(r2), StatusOk);
      st == StatusOk && s2.store == (s.store - {name})[name := r2]
  {
    GetKeepsCovered(s, Some(name));
  }

  /** Removing twice: the second remove reports ErrNotFound and changes nothing. */
  lemma RemoveIdempotent(s: State, name: CStr)
    requires WeakCovered(s)
    ensures var (s1, _) := RemoveStep(s, Some(name));
      WeakCovered(s1) && RemoveStep(s1, Some(name)) == (s1, ErrNotFound)
  {
    RemoveKeepsCovered(s, Some(name));
    var s1 := RemoveStep(s, Some(name)).0;
    assert s1.store - {name} == s1.store;
  }
}
