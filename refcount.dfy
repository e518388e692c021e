/**
 * The reference-counted cells that registered resources live in (util/refcount.h,
 * not part of this model). Only the contracts the registry relies on are
 * modelled: promotion and weak increment fail on null or once the strong count
 * has reached zero, and a weak decrement does nothing on null. Destructors and
 * memory reclamation are left out, so a cell never disappears from `Cells`.
 */
module RefCount {

  import opened Wrappers

  /** The identity of a resource pointer. */
  type CellId = nat

  datatype Counts = Counts(strong: nat, weak: nat)

  /** The counters of every cell that has been allocated. */
  type Cells = map<CellId, Counts>

  /** rc_inc: the new counters and the strong handle, or null. */
  function Inc(cells: Cells, p: Option<CellId>): (Cells, Option<CellId>)
    requires p.Some? ==> p.value in cells
  {
    if p.Some? && cells[p.value].strong > 0
    then (cells[p.value := cells[p.value].(strong := cells[p.value].strong + 1)], p)
    else (cells, None)
  }

  /** rc_weak_inc: the new counters and the weak handle, or null. */
  function WeakInc(cells: Cells, p: Option<CellId>): (Cells, Option<CellId>)
    requires p.Some? ==> p.value in cells
  {
    if p.Some? && cells[p.value].strong > 0
    then (cells[p.value := cells[p.value].(weak := cells[p.value].weak + 1)], p)
    else (cells, None)
  }

  /** rc_weak_dec: the caller gives back a weak reference it holds. */
  function WeakDec(cells: Cells, p: Option<CellId>): Cells
    requires p.Some? ==> p.value in cells && cells[p.value].weak > 0
  {
    if p.Some? then cells[p.value := cells[p.value].(weak := cells[p.value].weak - 1)] else cells
  }

  /** The heap of cells, whose counters the rc_* calls update in place. */
  class CellHeap {
    var counts: Cells

    constructor (counts: Cells)
      ensures this.counts == counts
    {
      this.counts := counts;
    }

    /** rc_inc: succeeds exactly on a live cell, raising only its strong count. */
    method RcInc(p: Option<CellId>) returns (r: Option<CellId>)
      requires p.Some? ==> p.value in counts
      modifies this
      ensures r.Some? <==> p.Some? && old(counts)[p.value].strong > 0
      ensures r.Some? ==> (r == p &&
        counts == old(counts)[p.value := Counts(old(counts)[p.value].strong + 1, old(counts)[p.value].weak)])
      ensures r.None? ==> counts == old(counts)
    {
      var (next, handle) := Inc(counts, p);
      counts, r := next, handle;
    }

    /** rc_weak_inc: succeeds exactly on a live cell, raising only its weak count. */
    method RcWeakInc(p: Option<CellId>) returns (r: Option<CellId>)
      requires p.Some? ==> p.value in counts
      modifies this
      ensures r.Some? <==> p.Some? && old(counts)[p.value].strong > 0
      ensures r.Some? ==> (r == p &&
        counts == old(counts)[p.value := Counts(old(counts)[p.value].strong, old(counts)[p.value].weak + 1)])
      ensures r.None? ==> counts == old(counts)
    {
      var (next, handle) := WeakInc(counts, p);
      counts, r := next, handle;
    }

    /** rc_weak_dec: lowers the weak count of a non-null cell by one; null is ignored. */
    method RcWeakDec(p: Option<CellId>)
      requires p.Some? ==> p.value in counts && counts[p.value].weak > 0
      modifies this
      ensures p.None? ==> counts == old(counts)
      ensures p.Some? ==>
        counts == old(counts)[p.value := Counts(old(counts)[p.value].strong, old(counts)[p.value].weak - 1)]
    {
      counts := WeakDec(counts, p);
    }
  }
}
