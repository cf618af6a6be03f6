/** SerialDataCollector::remove and the tool's deleteFromIterationInFile: removing iterations from a file. */
module Iterations {
  import opened EntryIds

  /** The maxID that belongs to a set of iterations: the highest of them, or 0. */
  ghost predicate IsMaxId(ids: set<int>, maxId: int) {
    maxId >= 0 && (forall id | id in ids :: id <= maxId) && (maxId == 0 || maxId in ids)
  }

  class Collector {
    /** The groups below "data". */
    var ids: set<int>
    var maxID: int

    constructor (ids: set<int>, maxID: int)
      ensures this.ids == ids && this.maxID == maxID
    {
      this.ids, this.maxID := ids, maxID;
    }

    /** remove(id): fails without such an iteration, and looks for the new highest one after removing. */
    method Remove(id: int) returns (ok: bool)
      modifies this
      ensures ok <==> id in old(ids)
      ensures ok ==> ids == old(ids) - {id} && IsMaxId(ids, maxID)
      ensures !ok ==> ids == old(ids) && maxID == old(maxID)
    {
      ok := id in ids;
      if ok {
        ids := ids - {id};
        maxID := 0;
        var _, groups := GetEntryIDs(ids);
        for i := 0 to |groups|
          invariant ids == old(ids) - {id} && maxID >= 0 && (maxID == 0 || maxID in ids)
          invariant forall k | 0 <= k < i :: groups[k] <= maxID
        {
          assert groups[i] in groups;
          if groups[i] > maxID {
            maxID := groups[i];
          }
        }
        assert forall x | x in ids :: x in groups;
      }
    }

    /** deleteFromIterationInFile: removes the iterations from `iteration` on. */
    method DeleteFrom(iteration: int)
      modifies this
      ensures ids == set id | id in old(ids) && id < iteration
      ensures if ids == old(ids) then maxID == old(maxID) else IsMaxId(ids, maxID)
    {
      var count, entries := GetEntryIDs(ids);
      forall k | 0 <= k < count ensures entries[k] in ids {
        assert entries[k] in entries;
      }
      for i := 0 to count
        invariant ids <= old(ids) && forall k | i <= k < count :: entries[k] in ids
        invariant forall k | 0 <= k < i :: entries[k] in ids <==> entries[k] < iteration
        invariant if ids == old(ids) then maxID == old(maxID) else IsMaxId(ids, maxID)
      {
        if entries[i] >= iteration {
          var ok := Remove(entries[i]);
        }
      }
      forall id | id in old(ids) ensures id in ids <==> id < iteration {
        assert id in entries;
      }
    }
  }
}
