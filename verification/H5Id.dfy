/**
 * H5IdWrapper with the RefCounted policy: wrappers that share an HDF5 identifier and a counter on the heap,
 * and close the identifier when the last of them lets go of it.
 */
module H5Id {
  import opened Arithmetic
  import opened IdSharing

  class Counter {
    var n: nat

    constructor ()
      ensures n == 1
    {
      n := 1;
    }
  }

  class Wrapper {
    var id: int
    var refCt: Counter?

    constructor (id: int, refCt: Counter)
      ensures this.id == id && this.refCt == refCt
    {
      this.id, this.refCt := id, refCt;
    }
  }

  ghost predicate HasFields(w: Wrapper, refCt: Counter, id: int)
    reads w
  {
    w.refCt == refCt && w.id == id
  }

  ghost predicate Counts(c: Counter, n: nat)
    reads c
  {
    c.n == n < UINT32
  }

  /** All wrappers of a program. */
  class Program {
    ghost var sharing: Sharing<Wrapper, Counter>

    /** The fields of every wrapper and every counter are what `sharing` says. */
    ghost predicate Valid()
      reads this, sharing.cell.Keys, sharing.ids.Keys
    {
      && Good(sharing)
      && (forall w | w in sharing.cell :: HasFields(w, sharing.cell[w], sharing.ids[sharing.cell[w]]))
      && (forall c | c in sharing.ids :: Counts(c, Count(sharing, c)))
    }

    constructor ()
      ensures Valid() && sharing == Sharing(map[], map[], {}, [])
    {
      sharing := Sharing(map[], map[], {}, []);
    }

    /** H5IdWrapper(hid_t) for an identifier that is new, or invalid. */
    method Construct(id: int) returns (w: Wrapper)
      requires Valid() && id !in sharing.issued
      modifies this
      ensures Valid() && fresh(w) && w.id == id && fresh(w.refCt)
      ensures sharing == Constructed(old(sharing), w, w.refCt, id)
    {
      hide Good, Count;
      var c := new Counter();
      w := new Wrapper(id, c);
      ConstructedIsGood(sharing, w, c, id);
      CountsAfterConstruct(sharing, w, c, id);
      sharing := Constructed(sharing, w, c, id);
    }

    /** The copy constructor: one sharer more, as long as `unsigned` can count them. */
    method Copy(rhs: Wrapper) returns (w: Wrapper)
      requires Valid() && rhs in sharing.cell && sharing.cell[rhs].n + 1 < UINT32
      modifies this, sharing.cell[rhs]
      ensures Valid() && fresh(w) && w.id == rhs.id && w.refCt == rhs.refCt
      ensures sharing == Copied(old(sharing), w, rhs)
    {
      hide Good, Count;
      InUse(sharing);
      var c: Counter := rhs.refCt;
      c.n := (c.n + 1) % UINT32;
      w := new Wrapper(rhs.id, c);
      CopiedIsGood(sharing, w, rhs);
      CountsAfterCopy(sharing, w, rhs);
      sharing := Copied(sharing, w, rhs);
    }

    /** swap: identifiers and counters change places. */
    method Swap(lhs: Wrapper, rhs: Wrapper)
      requires Valid() && lhs in sharing.cell && rhs in sharing.cell
      modifies this, lhs, rhs
      ensures Valid() && sharing == Swapped(old(sharing), lhs, rhs)
      ensures lhs.id == old(rhs.id) && rhs.id == old(lhs.id)
      ensures lhs.refCt == old(rhs.refCt) && rhs.refCt == old(lhs.refCt)
    {
      hide Good, Count;
      InUse(sharing);
      SwappedIsGood(sharing, lhs, rhs);
      CountsAfterSwap(sharing, lhs, rhs);
      lhs.id, rhs.id := rhs.id, lhs.id;
      lhs.refCt, rhs.refCt := rhs.refCt, lhs.refCt;
      sharing := Swapped(sharing, lhs, rhs);
    }

    /** The destructor: whoever finds the counter at zero deletes it and closes a valid identifier. */
    method Destroy(w: Wrapper)
      requires Valid() && w in sharing.cell
      modifies this, w, sharing.cell[w]
      ensures Valid() && sharing == Destroyed(old(sharing), w)
    {
      hide Good, Count, Shared;
      InUse(sharing);
      DestroyedIsGood(sharing, w);
      CountsAfterDestroy(sharing, w);
      DestroyedParts(sharing, w);
      InUse(Destroyed(sharing, w));
      ghost var closed := sharing.closed;
      var c: Counter := w.refCt;
      c.n := (c.n - 1) % UINT32;
      if c.n == 0 {
        w.refCt := null;
        if w.id >= 0 {
          closed := closed + [w.id];
        }
      }
      sharing := Destroyed(sharing, w);
      assert sharing.closed == closed;
    }

    /**
     * operator=, by copy and swap: lhs joins the sharers of rhs, and its old identifier is closed if lhs was
     * the last to hold it.
     */
    method Assign(lhs: Wrapper, rhs: Wrapper)
      requires Valid() && lhs in sharing.cell && rhs in sharing.cell && sharing.cell[rhs].n + 1 < UINT32
      modifies this, lhs, sharing.cell[lhs], sharing.cell[rhs]
      ensures Valid() && lhs.id == old(rhs.id) && lhs.refCt == old(rhs.refCt)
      ensures sharing.cell == old(sharing.cell[lhs := sharing.cell[rhs]]) && sharing.issued == old(sharing.issued)
      ensures sharing.closed == old(sharing.closed)
           + if old(lhs.id) >= 0 && !old(HeldBesides(sharing, lhs, lhs.id)) && old(lhs.id != rhs.id) then [old(lhs.id)] else []
    {
      hide Good, Count, HeldBesides;
      InUse(sharing);
      ghost var s := sharing;
      var tmp := Copy(rhs);
      Swap(lhs, tmp);
      Destroy(tmp);
      AssignmentMoves(s, lhs, rhs, tmp);
    }

    /** reset: a counter of its own, and the old identifier is closed if w was the last to hold it. */
    method Reset(w: Wrapper, id: int)
      requires Valid() && w in sharing.cell && id !in sharing.issued
      modifies this, w, sharing.cell[w]
      ensures Valid() && w.id == id && fresh(w.refCt) && sharing.cell == old(sharing.cell)[w := w.refCt]
      ensures sharing.closed == old(sharing.closed)
           + if old(w.id) >= 0 && !old(HeldBesides(sharing, w, w.id)) then [old(w.id)] else []
    {
      hide Good, Count, HeldBesides;
      InUse(sharing);
      ghost var s := sharing;
      var tmp := Construct(id);
      var c: Counter := tmp.refCt;
      Swap(w, tmp);
      Destroy(tmp);
      ResetMoves(s, w, id, tmp, c);
    }

    /** close: reset to the invalid identifier. */
    method Close(w: Wrapper)
      requires Valid() && w in sharing.cell
      modifies this, w, sharing.cell[w]
      ensures Valid() && w.id == -1 && fresh(w.refCt) && sharing.cell == old(sharing.cell)[w := w.refCt]
      ensures sharing.closed == old(sharing.closed)
           + if old(w.id) >= 0 && !old(HeldBesides(sharing, w, w.id)) then [old(w.id)] else []
    {
      ValidIdsIssued(sharing);
      Reset(w, -1);
    }
  }
}
