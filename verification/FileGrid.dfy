/** The files of one merged read: a regular grid of boxes, possibly rotated along every axis. */
module FileGrid {
  import opened Geometry
  import opened DataSet

  /**
   * One axis of the global domain, cut into |cuts| - 1 intervals. The interval of rank r is
   * [cuts[r], cuts[r+1]); it is held by the files at position (shift + r) mod N. A simulation
   * with a moving window has shift > 0.
   */
  datatype Axis = Axis(cuts: seq<nat>, shift: nat) {

    ghost predicate Valid() {
      && |cuts| >= 2
      && shift < |cuts| - 1
      && forall r, s | 0 <= r < s < |cuts| :: cuts[r] < cuts[s]
    }

    function N(): nat
      requires |cuts| >= 2
    {
      |cuts| - 1
    }

    function Rank(p: nat): (r: nat)
      requires |cuts| >= 2 && p < N() && shift < N()
      ensures r < N()
    {
      if p >= shift then p - shift else p + N() - shift
    }

    function Start(p: nat): nat
      requires |cuts| >= 2 && p < N() && shift < N()
    {
      cuts[Rank(p)]
    }

    function End(p: nat): nat
      requires |cuts| >= 2 && p < N() && shift < N()
    {
      cuts[Rank(p) + 1]
    }

    predicate Owns(p: nat, q: nat)
      requires |cuts| >= 2 && p < N() && shift < N()
    {
      Start(p) <= q < End(p)
    }

    predicate InGlobal(q: nat)
      requires |cuts| >= 2
    {
      cuts[0] <= q < cuts[|cuts| - 1]
    }
  }

  /** The position holding coordinate q, found by walking up the ranks. */
  function OwnerFrom(a: Axis, q: nat, r: nat): (p: nat)
    requires a.Valid() && r < a.N() && a.cuts[r] <= q < a.cuts[a.N()]
    ensures p < a.N() && a.Owns(p, q)
    decreases a.N() - r
  {
    if q < a.cuts[r + 1] then
      (if a.shift + r < a.N() then a.shift + r else a.shift + r - a.N())
    else
      OwnerFrom(a, q, r + 1)
  }

  datatype DataClass = UndefinedType | PolyType | GridType

  /** A stored dataset and the domain attributes written beside it. */
  datatype File<T> = File(
    offset: Dims, size: Dims, globalOffset: Dims, globalSize: Dims, dataClass: DataClass, data: Stored<T>)
  {
    /** Where the file lies in the global frame: the offset attribute is relative to the global offset. */
    function FileDomain(): Domain {
      Domain(Add(offset, globalOffset), size)
    }
  }

  /** The file holds the global cell q, by the attributes it was written with. */
  predicate HoldsCell<T>(f: File<T>, q: Dims) {
    forall i | 0 <= i < AXES :: f.globalOffset[i] + f.offset[i] <= q[i] < f.globalOffset[i] + f.offset[i] + f.size[i]
  }

  lemma DomainHolds<T>(f: File<T>, q: Dims)
    ensures f.FileDomain().Contains(q) <==> HoldsCell(f, q)
  {}

  datatype FileGrid<T> = FileGrid(mpiSize: Dims, files: map<Dims, File<T>>) {

    predicate InRange(pos: Dims) {
      forall i | 0 <= i < AXES :: pos[i] < mpiSize[i]
    }
  }

  ghost predicate ValidAxes(ax: seq<Axis>) {
    |ax| == AXES && forall i | 0 <= i < AXES :: ax[i].Valid()
  }

  /**
   * What merged reading demands of the files: there is one per position, and on every axis the
   * start and the end of a file's domain depend only on the position on that axis, as the axis says.
   * A grid that is a single file along some axis need not reach down to the global offset there.
   */
  ghost predicate Regular<T>(g: FileGrid<T>, ax: seq<Axis>) {
    && ValidAxes(ax)
    && (forall i | 0 <= i < AXES :: g.mpiSize[i] == ax[i].N())
    && (forall pos: Dims :: g.InRange(pos) ==> pos in g.files && Fits(g.files[pos], ax, pos))
  }

  ghost predicate Fits<T>(f: File<T>, ax: seq<Axis>, pos: Dims)
    requires ValidAxes(ax)
  {
    forall i | 0 <= i < AXES ::
      && pos[i] < ax[i].N()
      && f.globalOffset[i] + f.offset[i] == ax[i].Start(pos[i])
      && f.size[i] == ax[i].End(pos[i]) - ax[i].Start(pos[i])
      && (ax[i].N() == 1 || f.globalOffset[i] == ax[i].cuts[0])
  }

  /** The file at `pos` holds the global cell q. */
  ghost predicate Owns(ax: seq<Axis>, pos: Dims, q: Dims)
    requires ValidAxes(ax)
  {
    forall i | 0 <= i < AXES :: pos[i] < ax[i].N() && ax[i].Owns(pos[i], q[i])
  }

  ghost predicate InGlobalDomain(ax: seq<Axis>, q: Dims)
    requires ValidAxes(ax)
  {
    forall i | 0 <= i < AXES :: ax[i].InGlobal(q[i])
  }

  /** What Regular says of one file. */
  lemma FileAt<T>(g: FileGrid<T>, ax: seq<Axis>, pos: Dims)
    requires Regular(g, ax) && g.InRange(pos)
    ensures pos in g.files && g.files[pos].FileDomain().Positive()
    ensures forall q: Dims :: g.files[pos].FileDomain().Contains(q) <==> Owns(ax, pos, q)
  {}

  /** The same in terms of the file's domain, axis by axis. */
  lemma DomainAt<T>(g: FileGrid<T>, ax: seq<Axis>, pos: Dims)
    requires Regular(g, ax) && g.InRange(pos)
    ensures ValidAxes(ax) && pos in g.files && forall i | 0 <= i < AXES ::
              && pos[i] < ax[i].N() && g.files[pos].FileDomain().offset[i] == ax[i].Start(pos[i])
              && g.files[pos].FileDomain().size[i] == ax[i].End(pos[i]) - ax[i].Start(pos[i])
              && (ax[i].N() == 1 || g.files[pos].globalOffset[i] == ax[i].cuts[0])
  {
    assert Fits(g.files[pos], ax, pos);
    hide Regular, Axis.Valid;
  }

  lemma OwnerExists(ax: seq<Axis>, q: Dims) returns (pos: Dims)
    requires ValidAxes(ax) && InGlobalDomain(ax, q)
    ensures Owns(ax, pos, q)
  {
    assert forall i | 0 <= i < AXES :: ax[i].InGlobal(q[i]);
    pos := [OwnerFrom(ax[0], q[0], 0), OwnerFrom(ax[1], q[1], 0), OwnerFrom(ax[2], q[2], 0)];
  }

  lemma TwoOwnersAreOne(ax: seq<Axis>, p: Dims, p': Dims, q: Dims)
    requires ValidAxes(ax) && Owns(ax, p, q) && Owns(ax, p', q)
    ensures p == p'
  {}

  lemma OwnedIsGlobal(ax: seq<Axis>, p: Dims, q: Dims)
    requires ValidAxes(ax) && Owns(ax, p, q)
    ensures InGlobalDomain(ax, q)
  {}

  /** Every cell of the global domain lies in the domain of exactly one file, and no other cell lies in any. */
  lemma OneOwnerPerCell<T>(g: FileGrid<T>, ax: seq<Axis>, q: Dims)
    requires Regular(g, ax)
    ensures InGlobalDomain(ax, q) <==> exists pos: Dims :: g.InRange(pos) && g.files[pos].FileDomain().Contains(q)
    ensures forall p: Dims, p': Dims | g.InRange(p) && g.InRange(p')
              && g.files[p].FileDomain().Contains(q) && g.files[p'].FileDomain().Contains(q) :: p == p'
  {
    if InGlobalDomain(ax, q) {
      var pos := OwnerExists(ax, q);
      OwnerInRange(g, ax, pos, q);
      FileAt(g, ax, pos);
    }
    forall p: Dims | g.InRange(p) && g.files[p].FileDomain().Contains(q)
      ensures Owns(ax, p, q) && InGlobalDomain(ax, q)
    {
      FileAt(g, ax, p);
      OwnedIsGlobal(ax, p, q);
    }
    forall p: Dims, p': Dims | g.InRange(p) && g.InRange(p')
      && g.files[p].FileDomain().Contains(q) && g.files[p'].FileDomain().Contains(q)
      ensures p == p'
    {
      TwoOwnersAreOne(ax, p, p', q);
    }
  }

  lemma OwnerInRange<T>(g: FileGrid<T>, ax: seq<Axis>, pos: Dims, q: Dims)
    requires Regular(g, ax) && Owns(ax, pos, q)
    ensures g.InRange(pos)
  {}
}
