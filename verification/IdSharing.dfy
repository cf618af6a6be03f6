/**
 * Who shares which HDF5 identifier, on values: the counter that each wrapper points to and the identifier
 * behind each counter. H5Id keeps such a value beside its objects.
 */
module IdSharing {

  /** `issued` are the identifiers that wrappers were constructed with, `closed` the calls of the close method. */
  datatype Sharing<W, C> = Sharing(cell: map<W, C>, ids: map<C, int>, issued: set<int>, closed: seq<int>)

  ghost function Sharers<W, C>(cell: map<W, C>, c: C): set<W> {
    set w | w in cell && cell[w] == c
  }

  ghost predicate Shared<W, C>(cell: map<W, C>, c: C) {
    exists w :: w in cell && cell[w] == c
  }

  /** A wrapper other than w holds the identifier. */
  ghost predicate HeldBesides<W, C>(s: Sharing<W, C>, w: W, id: int) {
    exists v :: v in s.cell && v != w && s.cell[v] in s.ids && s.ids[s.cell[v]] == id
  }

  ghost predicate Held<W, C>(s: Sharing<W, C>, id: int) {
    exists v :: v in s.cell && s.cell[v] in s.ids && s.ids[s.cell[v]] == id
  }

  predicate NoDuplicates(s: seq<int>) {
    forall i, j | 0 <= i < j < |s| :: s[i] != s[j]
  }

  /** Counters in use are shared; a valid identifier has one counter as long as it is not closed. */
  ghost predicate Good<W, C>(s: Sharing<W, C>) {
    && (forall w | w in s.cell :: s.cell[w] in s.ids)
    && (forall c | c in s.ids :: Shared(s.cell, c))
    && (forall c, d | c in s.ids && d in s.ids && s.ids[c] == s.ids[d] && s.ids[c] >= 0 :: c == d)
    && (forall c | c in s.ids && s.ids[c] >= 0 :: s.ids[c] in s.issued && s.ids[c] !in s.closed)
    && (forall id | id in s.issued :: id >= 0 && (id in s.closed || exists c :: c in s.ids && s.ids[c] == id))
    && NoDuplicates(s.closed) && (forall id | id in s.closed :: id in s.issued)
  }

  // ---- The operations -----------------------------------------------------------------------------

  ghost function Constructed<W, C>(s: Sharing<W, C>, w: W, c: C, id: int): Sharing<W, C> {
    s.(cell := s.cell[w := c], ids := s.ids[c := id], issued := if id >= 0 then s.issued + {id} else s.issued)
  }

  ghost function Copied<W, C>(s: Sharing<W, C>, w: W, rhs: W): Sharing<W, C>
    requires rhs in s.cell
  {
    s.(cell := s.cell[w := s.cell[rhs]])
  }

  ghost function Swapped<W, C>(s: Sharing<W, C>, lhs: W, rhs: W): Sharing<W, C>
    requires lhs in s.cell && rhs in s.cell
  {
    s.(cell := s.cell[lhs := s.cell[rhs]][rhs := s.cell[lhs]])
  }

  /** The last sharer of a counter takes it along and closes a valid identifier. */
  ghost function Destroyed<W, C>(s: Sharing<W, C>, w: W): Sharing<W, C>
    requires w in s.cell && s.cell[w] in s.ids
  {
    var c, cell := s.cell[w], s.cell - {w};
    if Shared(cell, c) then s.(cell := cell)
    else s.(cell := cell, ids := s.ids - {c}, closed := if s.ids[c] >= 0 then s.closed + [s.ids[c]] else s.closed)
  }

  lemma ConstructedIsGood<W, C>(s: Sharing<W, C>, w: W, c: C, id: int)
    requires Good(s) && w !in s.cell && c !in s.ids && id !in s.issued
    ensures Good(Constructed(s, w, c, id))
  {
    var t := Constructed(s, w, c, id);
    forall d | d in t.ids ensures Shared(t.cell, d) {
      if d == c {
        assert w in t.cell && t.cell[w] == c;
      } else {
        var v :| v in s.cell && s.cell[v] == d;
        assert v in t.cell && t.cell[v] == d;
      }
    }
    forall h | h in t.issued ensures h >= 0 && (h in t.closed || exists d :: d in t.ids && t.ids[d] == h) {
      if h in s.issued && h !in s.closed {
        var d :| d in s.ids && s.ids[d] == h;
        assert d in t.ids && t.ids[d] == h;
      } else if h !in s.issued {
        assert c in t.ids && t.ids[c] == h;
      }
    }
  }

  lemma CopiedIsGood<W, C>(s: Sharing<W, C>, w: W, rhs: W)
    requires Good(s) && w !in s.cell && rhs in s.cell
    ensures Good(Copied(s, w, rhs))
  {
    var t := Copied(s, w, rhs);
    forall d | d in t.ids ensures Shared(t.cell, d) {
      assert Shared(s.cell, d);
      var v :| v in s.cell && s.cell[v] == d;
      assert v in t.cell && t.cell[v] == d;
    }
  }

  lemma SwappedIsGood<W, C>(s: Sharing<W, C>, lhs: W, rhs: W)
    requires Good(s) && lhs in s.cell && rhs in s.cell
    ensures Good(Swapped(s, lhs, rhs))
  {
    var t := Swapped(s, lhs, rhs);
    forall d | d in t.ids ensures Shared(t.cell, d) {
      assert Shared(s.cell, d);
      var v :| v in s.cell && s.cell[v] == d;
      var u := if v == lhs then rhs else if v == rhs then lhs else v;
      assert u in t.cell && t.cell[u] == d;
    }
  }

  lemma DestroyedShared<W, C>(s: Sharing<W, C>, w: W)
    requires Good(s) && w in s.cell
    ensures var t := Destroyed(s, w); forall d | d in t.ids :: Shared(t.cell, d)
  {
    var t := Destroyed(s, w);
    forall d | d in t.ids ensures Shared(t.cell, d) {
      assert Shared(s.cell, d);
      var v :| v in s.cell && s.cell[v] == d;
      assert v != w ==> v in t.cell && t.cell[v] == d;
    }
  }

  lemma DestroyedIssued<W, C>(s: Sharing<W, C>, w: W)
    requires Good(s) && w in s.cell
    ensures var t := Destroyed(s, w);
            forall h | h in t.issued :: h >= 0 && (h in t.closed || exists d :: d in t.ids && t.ids[d] == h)
  {
    var t := Destroyed(s, w);
    forall h | h in t.issued ensures h >= 0 && (h in t.closed || exists d :: d in t.ids && t.ids[d] == h) {
      if h !in s.closed {
        var d :| d in s.ids && s.ids[d] == h;
        assert d != s.cell[w] ==> d in t.ids && t.ids[d] == h;
        assert d == s.cell[w] && d !in t.ids ==> t.closed[|s.closed|] == h;
      } else {
        assert s.closed <= t.closed;
      }
    }
  }

  lemma DestroyedIsGood<W, C>(s: Sharing<W, C>, w: W)
    requires Good(s) && w in s.cell
    ensures Good(Destroyed(s, w))
  {
    DestroyedShared(s, w);
    DestroyedIssued(s, w);
    hide Shared;
  }

  /** Destruction calls the close method exactly when the last holder of a valid identifier goes. */
  lemma ClosesWithLastHolder<W, C>(s: Sharing<W, C>, w: W)
    requires Good(s) && w in s.cell
    ensures var id := s.ids[s.cell[w]];
            Destroyed(s, w).closed == s.closed + if id >= 0 && !HeldBesides(s, w, id) then [id] else []
  {
    var c := s.cell[w];
    var id := s.ids[c];
    if Shared(s.cell - {w}, c) {
      var v :| v in s.cell - {w} && (s.cell - {w})[v] == c;
      assert HeldBesides(s, w, id);
    }
    if id >= 0 && HeldBesides(s, w, id) {
      var v :| v in s.cell && v != w && s.cell[v] in s.ids && s.ids[s.cell[v]] == id;
      SharedBy(s.cell - {w}, c, v);
    }
  }

  lemma InUse<W, C>(s: Sharing<W, C>)
    requires Good(s)
    ensures forall w | w in s.cell :: s.cell[w] in s.ids
  {}

  lemma ValidIdsIssued<W, C>(s: Sharing<W, C>)
    requires Good(s)
    ensures forall id | id in s.issued :: id >= 0
  {}

  lemma DestroyedParts<W, C>(s: Sharing<W, C>, w: W)
    requires w in s.cell && s.cell[w] in s.ids
    ensures var t := Destroyed(s, w);
            && t.cell == s.cell - {w} && t.issued == s.issued
            && (forall c | c in t.ids :: c in s.ids && t.ids[c] == s.ids[c])
            && (forall c | c in s.ids && c != s.cell[w] :: c in t.ids)
  {}

  lemma SharedBy<W, C>(cell: map<W, C>, c: C, v: W)
    ensures v in cell && cell[v] == c ==> Shared(cell, c)
  {}

  // ---- Numbers of sharers -------------------------------------------------------------------------

  /** How many wrappers share a counter. */
  ghost function Count<W, C>(s: Sharing<W, C>, c: C): nat {
    |Sharers(s.cell, c)|
  }

  lemma SharersAfterAdd<W, C>(cell: map<W, C>, w: W, c: C, d: C)
    requires w !in cell
    ensures |Sharers(cell[w := c], d)| == |Sharers(cell, d)| + if c == d then 1 else 0
  {
    assert Sharers(cell[w := c], d) == Sharers(cell, d) + if c == d then {w} else {};
  }

  lemma CountsAfterConstruct<W, C>(s: Sharing<W, C>, w: W, c: C, id: int)
    requires Good(s) && w !in s.cell && c !in s.ids
    ensures var t := Constructed(s, w, c, id);
            Count(t, c) == 1 && forall d | d in s.ids :: Count(t, d) == Count(s, d)
  {
    assert Sharers(s.cell, c) == {};
    SharersAfterAdd(s.cell, w, c, c);
    forall d | d in s.ids ensures Count(Constructed(s, w, c, id), d) == Count(s, d) {
      SharersAfterAdd(s.cell, w, c, d);
    }
  }

  lemma CountsAfterCopy<W, C>(s: Sharing<W, C>, w: W, rhs: W)
    requires w !in s.cell && rhs in s.cell
    ensures forall d | d in s.ids :: Count(Copied(s, w, rhs), d) == Count(s, d) + if d == s.cell[rhs] then 1 else 0
  {
    forall d | d in s.ids ensures Count(Copied(s, w, rhs), d) == Count(s, d) + if d == s.cell[rhs] then 1 else 0 {
      SharersAfterAdd(s.cell, w, s.cell[rhs], d);
    }
  }

  /** Swapping changes no number of sharers. */
  lemma CountsAfterSwap<W, C>(s: Sharing<W, C>, lhs: W, rhs: W)
    requires lhs in s.cell && rhs in s.cell
    ensures forall d | d in s.ids :: Count(Swapped(s, lhs, rhs), d) == Count(s, d)
  {
    forall d | d in s.ids ensures Count(Swapped(s, lhs, rhs), d) == Count(s, d) {
      var rest, swapped := s.cell - {lhs} - {rhs}, Swapped(s, lhs, rhs).cell;
      if lhs == rhs {
        assert swapped == s.cell;
      } else {
        assert s.cell == rest[lhs := s.cell[lhs]][rhs := s.cell[rhs]];
        assert swapped == rest[lhs := s.cell[rhs]][rhs := s.cell[lhs]];
        SharersAfterAdd(rest, lhs, s.cell[lhs], d);
        SharersAfterAdd(rest[lhs := s.cell[lhs]], rhs, s.cell[rhs], d);
        SharersAfterAdd(rest, lhs, s.cell[rhs], d);
        SharersAfterAdd(rest[lhs := s.cell[rhs]], rhs, s.cell[lhs], d);
      }
    }
  }

  /** A counter goes down with its sharers, and it goes out of use when it reaches zero. */
  lemma CountsAfterDestroy<W, C>(s: Sharing<W, C>, w: W)
    requires Good(s) && w in s.cell
    ensures var t, c := Destroyed(s, w), s.cell[w];
            && (forall d | d in s.ids :: Count(t, d) == Count(s, d) - if d == c then 1 else 0)
            && Count(s, c) > 0 && (c in t.ids <==> Count(s, c) > 1)
            && t.closed == s.closed + if Count(s, c) == 1 && s.ids[c] >= 0 then [s.ids[c]] else []
  {
    var rest, c := s.cell - {w}, s.cell[w];
    forall d | d in s.ids ensures |Sharers(rest, d)| == |Sharers(s.cell, d)| - if d == c then 1 else 0 {
      assert Sharers(rest, d) == Sharers(s.cell, d) - if d == c then {w} else {};
    }
    SharedExactly(rest, c);
  }

  lemma SharedExactly<W, C>(cell: map<W, C>, c: C)
    ensures Shared(cell, c) <==> |Sharers(cell, c)| > 0
  {
    if Shared(cell, c) {
      var v :| v in cell && cell[v] == c;
      assert v in Sharers(cell, c);
    }
    if |Sharers(cell, c)| > 0 {
      var v :| v in Sharers(cell, c);
      assert v in cell && cell[v] == c;
    }
  }

  // ---- Assignment and reset -----------------------------------------------------------------------

  /** operator=: copy, swap, destroy the copy. */
  ghost function Assigned<W, C>(s: Sharing<W, C>, lhs: W, rhs: W, tmp: W): Sharing<W, C>
    requires Good(s) && lhs in s.cell && rhs in s.cell && tmp !in s.cell
  {
    CopiedIsGood(s, tmp, rhs);
    var t := Copied(s, tmp, rhs);
    SwappedIsGood(t, lhs, tmp);
    Destroyed(Swapped(t, lhs, tmp), tmp)
  }

  /** reset: construct, swap, destroy the old one; close() resets to -1. */
  ghost function Resetted<W, C>(s: Sharing<W, C>, w: W, id: int, tmp: W, c: C): Sharing<W, C>
    requires Good(s) && w in s.cell && tmp !in s.cell && c !in s.ids && id !in s.issued
  {
    ConstructedIsGood(s, tmp, c, id);
    var t := Constructed(s, tmp, c, id);
    SwappedIsGood(t, w, tmp);
    Destroyed(Swapped(t, w, tmp), tmp)
  }

  /** Besides a new wrapper tmp with the counter of w, u has the wrappers of s, and w has moved to counter c. */
  ghost predicate Moved<W, C>(s: Sharing<W, C>, u: Sharing<W, C>, w: W, tmp: W, c: C) {
    && w in s.cell && tmp !in s.cell && tmp in u.cell && u.cell[tmp] == s.cell[w]
    && (forall v | v in u.cell :: v == tmp || v in s.cell)
    && (forall v | v in s.cell :: v in u.cell && u.cell[v] == if v == w then c else s.cell[v])
    && c in u.ids && u.closed == s.closed
    && forall d | d in s.ids :: d in u.ids && u.ids[d] == s.ids[d]
  }

  /** Swapping a new wrapper tmp with counter c for w. */
  lemma SwappedIsMoved<W, C>(s: Sharing<W, C>, t: Sharing<W, C>, w: W, tmp: W, c: C)
    requires w in s.cell && tmp !in s.cell && t.cell == s.cell[tmp := c] && c in t.ids && t.closed == s.closed
    requires forall d | d in s.ids :: d in t.ids && t.ids[d] == s.ids[d]
    ensures Moved(s, Swapped(t, w, tmp), w, tmp, c)
  {}

  lemma MovedByAssignment<W, C>(s: Sharing<W, C>, lhs: W, rhs: W, tmp: W)
    requires Good(s) && lhs in s.cell && rhs in s.cell && tmp !in s.cell
    ensures Good(Swapped(Copied(s, tmp, rhs), lhs, tmp))
    ensures Moved(s, Swapped(Copied(s, tmp, rhs), lhs, tmp), lhs, tmp, s.cell[rhs])
  {
    CopiedIsGood(s, tmp, rhs);
    SwappedIsGood(Copied(s, tmp, rhs), lhs, tmp);
    assert s.cell[rhs] in s.ids;
    SwappedIsMoved(s, Copied(s, tmp, rhs), lhs, tmp, s.cell[rhs]);
    hide Good, Moved, Swapped;
  }

  lemma MovedByReset<W, C>(s: Sharing<W, C>, w: W, id: int, tmp: W, c: C)
    requires Good(s) && w in s.cell && tmp !in s.cell && c !in s.ids && id !in s.issued
    ensures Good(Swapped(Constructed(s, tmp, c, id), w, tmp))
    ensures Moved(s, Swapped(Constructed(s, tmp, c, id), w, tmp), w, tmp, c)
    ensures s.cell[w] in s.ids && (s.ids[s.cell[w]] >= 0 ==> s.ids[s.cell[w]] != id) && s.cell[w] != c
  {
    ConstructedIsGood(s, tmp, c, id);
    SwappedIsGood(Constructed(s, tmp, c, id), w, tmp);
    assert s.cell[w] in s.ids && (s.ids[s.cell[w]] >= 0 ==> s.ids[s.cell[w]] != id);
    SwappedIsMoved(s, Constructed(s, tmp, c, id), w, tmp, c);
    hide Good, Moved, Swapped;
  }

  /** The holders of an identifier besides tmp are those besides w before, and w if it got that identifier. */
  lemma HeldMoved<W, C>(s: Sharing<W, C>, u: Sharing<W, C>, w: W, tmp: W, c: C, id: int)
    requires Good(s) && Moved(s, u, w, tmp, c)
    ensures HeldBesides(u, tmp, id) <==> HeldBesides(s, w, id) || u.ids[c] == id
  {}

  lemma DestroyMoved<W, C>(s: Sharing<W, C>, u: Sharing<W, C>, w: W, tmp: W, c: C)
    requires Good(s) && Good(u) && Moved(s, u, w, tmp, c)
    ensures var a, id := Destroyed(u, tmp), s.ids[s.cell[w]];
            && Good(a) && a.cell == s.cell[w := c] && a.issued == u.issued
            && (forall d | d in a.ids :: d in u.ids && a.ids[d] == u.ids[d])
            && (forall d | d in u.ids && d != s.cell[w] :: d in a.ids)
            && a.closed == s.closed + if id >= 0 && !HeldBesides(s, w, id) && u.ids[c] != id then [id] else []
  {
    var id := s.ids[s.cell[w]];
    DestroyedIsGood(u, tmp);
    DestroyedParts(u, tmp);
    ClosesWithLastHolder(u, tmp);
    HeldMoved(s, u, w, tmp, c, id);
    MovedCell(s, u, w, tmp, c);
    hide Good, HeldBesides, Destroyed, Moved;
  }

  lemma MovedCell<W, C>(s: Sharing<W, C>, u: Sharing<W, C>, w: W, tmp: W, c: C)
    requires Moved(s, u, w, tmp, c)
    ensures tmp in u.cell && u.cell[tmp] == s.cell[w] && c in u.ids && u.closed == s.closed
    ensures s.cell[w] in s.ids ==> s.cell[w] in u.ids && u.ids[s.cell[w]] == s.ids[s.cell[w]]
    ensures u.cell - {tmp} == s.cell[w := c]
  {}

  /**
   * Assignment moves the left side to the sharers of the right side and touches nobody else; it closes the
   * old identifier if the left side was its last holder, and assigning a wrapper to itself does nothing.
   */
  lemma AssignmentMoves<W, C>(s: Sharing<W, C>, lhs: W, rhs: W, tmp: W)
    requires Good(s) && lhs in s.cell && rhs in s.cell && tmp !in s.cell
    ensures var id := s.ids[s.cell[lhs]];
            var a := Assigned(s, lhs, rhs, tmp);
            && Good(a) && a.cell == s.cell[lhs := s.cell[rhs]] && a.issued == s.issued
            && (forall c | c in a.ids :: c in s.ids && a.ids[c] == s.ids[c])
            && a.closed == s.closed + if id >= 0 && !HeldBesides(s, lhs, id) && id != s.ids[s.cell[rhs]] then [id] else []
  {
    MovedByAssignment(s, lhs, rhs, tmp);
    DestroyMoved(s, Swapped(Copied(s, tmp, rhs), lhs, tmp), lhs, tmp, s.cell[rhs]);
    hide Good, HeldBesides, Destroyed, Moved;
  }

  /** So assigning a wrapper to itself changes nothing. */
  lemma SelfAssignment<W, C>(s: Sharing<W, C>, w: W, tmp: W)
    requires Good(s) && w in s.cell && tmp !in s.cell
    ensures Assigned(s, w, w, tmp) == s
  {
    AssignmentMoves(s, w, w, tmp);
    var a := Assigned(s, w, w, tmp);
    assert a.cell == s.cell;
    forall c | c in s.ids ensures c in a.ids {
      var v :| v in s.cell && s.cell[v] == c;
    }
    assert a.ids == s.ids;
  }

  /** reset moves a wrapper to a counter of its own. */
  lemma ResetMoves<W, C>(s: Sharing<W, C>, w: W, id: int, tmp: W, c: C)
    requires Good(s) && w in s.cell && tmp !in s.cell && c !in s.ids && id !in s.issued
    ensures var before := s.ids[s.cell[w]];
            var a := Resetted(s, w, id, tmp, c);
            && Good(a) && a.cell == s.cell[w := c] && c in a.ids && a.ids[c] == id
            && a.issued == (if id >= 0 then s.issued + {id} else s.issued)
            && a.closed == s.closed + if before >= 0 && !HeldBesides(s, w, before) then [before] else []
  {
    MovedByReset(s, w, id, tmp, c);
    DestroyMoved(s, Swapped(Constructed(s, tmp, c, id), w, tmp), w, tmp, c);
    hide Good, HeldBesides, Destroyed, Moved;
  }

  // ---- Runs ---------------------------------------------------------------------------------------

  datatype Op<W, C> =
    | Construct(w: W, c: C, id: int)
    | Copy(w: W, rhs: W)
    | Swap(lhs: W, rhs: W)
    | Destroy(w: W)
    | Assign(lhs: W, rhs: W, tmp: W)
    | Reset(w: W, id: int, tmp: W, c: C)

  /** Objects are constructed once, on new addresses, and no two constructions get the same identifier. */
  ghost predicate Allowed<W, C>(s: Sharing<W, C>, op: Op<W, C>) {
    match op
    case Construct(w, c, id) => w !in s.cell && c !in s.ids && id !in s.issued
    case Copy(w, rhs) => w !in s.cell && rhs in s.cell
    case Swap(lhs, rhs) => lhs in s.cell && rhs in s.cell
    case Destroy(w) => w in s.cell
    case Assign(lhs, rhs, tmp) => lhs in s.cell && rhs in s.cell && tmp !in s.cell
    case Reset(w, id, tmp, c) => w in s.cell && tmp !in s.cell && c !in s.ids && id !in s.issued
  }

  ghost function Step<W, C>(s: Sharing<W, C>, op: Op<W, C>): Sharing<W, C>
    requires Good(s) && Allowed(s, op)
  {
    match op
    case Construct(w, c, id) => Constructed(s, w, c, id)
    case Copy(w, rhs) => Copied(s, w, rhs)
    case Swap(lhs, rhs) => Swapped(s, lhs, rhs)
    case Destroy(w) => Destroyed(s, w)
    case Assign(lhs, rhs, tmp) => Assigned(s, lhs, rhs, tmp)
    case Reset(w, id, tmp, c) => Resetted(s, w, id, tmp, c)
  }

  lemma StepIsGood<W, C>(s: Sharing<W, C>, op: Op<W, C>)
    requires Good(s) && Allowed(s, op)
    ensures Good(Step(s, op))
  {
    match op
    case Construct(w, c, id) => ConstructedIsGood(s, w, c, id);
    case Copy(w, rhs) => CopiedIsGood(s, w, rhs);
    case Swap(lhs, rhs) => SwappedIsGood(s, lhs, rhs);
    case Destroy(w) => DestroyedIsGood(s, w);
    case Assign(lhs, rhs, tmp) => AssignmentMoves(s, lhs, rhs, tmp);
    case Reset(w, id, tmp, c) => ResetMoves(s, w, id, tmp, c);
  }

  ghost predicate ValidRun<W, C>(s: Sharing<W, C>, ops: seq<Op<W, C>>)
    requires Good(s)
    decreases |ops|
  {
    ops == [] || (Allowed(s, ops[0]) && (StepIsGood(s, ops[0]); ValidRun(Step(s, ops[0]), ops[1..])))
  }

  ghost function Run<W, C>(s: Sharing<W, C>, ops: seq<Op<W, C>>): Sharing<W, C>
    requires Good(s) && ValidRun(s, ops)
    decreases |ops|
  {
    if ops == [] then s
    else
      StepIsGood(s, ops[0]);
      Run(Step(s, ops[0]), ops[1..])
  }

  ghost function Times(s: seq<int>, id: int): nat {
    if s == [] then 0 else Times(s[..|s| - 1], id) + if s[|s| - 1] == id then 1 else 0
  }

  lemma {:induction false} TimesOnce(s: seq<int>, id: int)
    requires NoDuplicates(s)
    ensures Times(s, id) == if id in s then 1 else 0
  {
    if s != [] {
      var n := |s| - 1;
      TimesOnce(s[..n], id);
      assert s == s[..n] + [s[n]];
    }
  }

  /**
   * Over every run the close method is called once for each valid identifier that no wrapper holds any more,
   * and never for one that is still held.
   */
  lemma {:induction false} EveryRun<W, C>(s: Sharing<W, C>, ops: seq<Op<W, C>>, id: int)
    requires Good(s) && ValidRun(s, ops)
    ensures var t := Run(s, ops);
            Good(t) && Times(t.closed, id) == if id in t.issued && !Held(t, id) then 1 else 0
    decreases |ops|
  {
    if ops != [] {
      StepIsGood(s, ops[0]);
      EveryRun(Step(s, ops[0]), ops[1..], id);
      hide Good, Step, Allowed;
    } else {
      ClosedOrHeld(s, id);
    }
  }

  lemma ClosedOrHeld<W, C>(s: Sharing<W, C>, id: int)
    requires Good(s)
    ensures Times(s.closed, id) == if id in s.issued && !Held(s, id) then 1 else 0
  {
    TimesOnce(s.closed, id);
    if id in s.issued && id !in s.closed {
      var c :| c in s.ids && s.ids[c] == id;
      var v :| v in s.cell && s.cell[v] == c;
      assert Held(s, id);
    }
  }
}
