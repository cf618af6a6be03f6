/**
 * Moving the window: adding the same amount to the global offset of every file and to the request changes where the
 * result lies, and no value that is read.
 */
module MovedWindow {
  import opened Geometry
  import opened Options
  import opened Hdf5
  import opened DataSet
  import opened FileGrid
  import opened CornerSearch
  import opened DataContainer
  import opened FileRead
  import opened Traversal
  import opened FileScan
  import opened GridMerge
  import opened DomainCollector
  import ParallelDomainCollector

  function MovedFile<T>(f: File<T>, d: Dims): File<T> {
    f.(globalOffset := Add(f.globalOffset, d))
  }

  function MovedRequest(request: Domain, d: Dims): Domain {
    Domain(Add(request.offset, d), request.size)
  }

  function MovedAxis(a: Axis, d: nat): (r: Axis)
    ensures |r.cuts| == |a.cuts| && r.shift == a.shift && forall k | 0 <= k < |a.cuts| :: r.cuts[k] == a.cuts[k] + d
  {
    Axis(seq(|a.cuts|, k requires 0 <= k < |a.cuts| => a.cuts[k] + d), a.shift)
  }

  function MovedAxes(ax: seq<Axis>, d: Dims): (r: seq<Axis>)
    requires |ax| == AXES
    ensures |r| == AXES && forall i | 0 <= i < AXES :: r[i] == MovedAxis(ax[i], d[i])
  {
    [MovedAxis(ax[0], d[0]), MovedAxis(ax[1], d[1]), MovedAxis(ax[2], d[2])]
  }

  function MovedGrid<T>(g: FileGrid<T>, d: Dims): (r: FileGrid<T>)
    ensures r.mpiSize == g.mpiSize && r.files.Keys == g.files.Keys
    ensures forall pos | pos in g.files :: r.files[pos] == MovedFile(g.files[pos], d)
  {
    FileGrid(g.mpiSize, map pos | pos in g.files :: MovedFile(g.files[pos], d))
  }

  // ---- One file -----------------------------------------------------------------------------------

  lemma MovedDomain<T>(f: File<T>, d: Dims)
    ensures MovedFile(f, d).FileDomain() == MovedRequest(f.FileDomain(), d)
  {
    assert Add(f.offset, Add(f.globalOffset, d)) == Add(Add(f.offset, f.globalOffset), d);
  }

  lemma MovedMeets(a: Domain, b: Domain, d: Dims)
    requires a.Positive() && b.Positive()
    ensures MovedRequest(a, d).Positive() && MovedRequest(b, d).Positive()
    ensures TestIntersection(MovedRequest(a, d), MovedRequest(b, d)) <==> TestIntersection(a, b)
  {}

  lemma MovedLocal(q: Dims, origin: Dims, d: Dims)
    ensures Local(Add(q, d), Add(origin, d)) == Local(q, origin)
  {}

  lemma MovedCellOf(request: Domain, d: Dims, k: nat)
    requires k < Prod(Phys(request.size, AXES))
    ensures CellOf(k, MovedRequest(request, d)) == Add(CellOf(k, request), d)
  {
    hide PosAt, Prod, Phys;
  }

  lemma MovedContains(box: Domain, q: Dims, d: Dims)
    ensures MovedRequest(box, d).Contains(Add(q, d)) <==> box.Contains(q)
    ensures forall i | 0 <= i < AXES :: MovedRequest(box, d).offset[i] == box.offset[i] + d[i] && Add(q, d)[i] == q[i] + d[i]
  {
    assert forall i | 0 <= i < AXES :: MovedRequest(box, d).offset[i] == box.offset[i] + d[i] && Add(q, d)[i] == q[i] + d[i];
    hide Add;
    if box.Contains(q) {
      assert forall i | 0 <= i < AXES :: box.offset[i] <= q[i] < box.offset[i] + box.size[i];
    }
    if MovedRequest(box, d).Contains(Add(q, d)) {
      forall i | 0 <= i < AXES ensures box.offset[i] <= q[i] < box.offset[i] + box.size[i] {
        assert MovedRequest(box, d).offset[i] <= Add(q, d)[i];
      }
    }
  }

  lemma MovedTargets<T>(f: File<T>, request: Domain, d: Dims, q: Dims)
    requires GridFile(f)
    ensures GridFile(MovedFile(f, d))
    ensures Targets(MovedFile(f, d), MovedRequest(request, d), Add(q, d)) <==> Targets(f, request, q)
    ensures CellIndex(MovedFile(f, d), Add(q, d)) == CellIndex(f, q)
  {
    MovedDomain(f, d);
    MovedContains(request, q, d);
    MovedContains(f.FileDomain(), q, d);
    MovedLocal(q, f.FileDomain().offset, d);
    hide Lin, Prod, LogicalOf, Local, Domain.Contains, Add;
  }

  /** A moved file is loaded into the buffer of a moved request as before. */
  lemma MovedLoad<T>(buf: seq<T>, f: File<T>, request: Domain, d: Dims)
    requires GridFile(f) && |buf| == Prod(Phys(request.size, AXES))
    ensures GridFile(MovedFile(f, d))
    ensures LoadFile(buf, MovedRequest(request, d), MovedFile(f, d)) == LoadFile(buf, request, f)
  {
    MovedDomain(f, d);
    assert GridFile(MovedFile(f, d));
    hide CellOf, Targets, CellIndex, GridFile, Prod, Phys;
    forall k | 0 <= k < |buf|
      ensures LoadFile(buf, MovedRequest(request, d), MovedFile(f, d))[k] == LoadFile(buf, request, f)[k]
    {
      MovedCellOf(request, d, k);
      MovedTargets(f, request, d, CellOf(k, request));
    }
  }

  /** What ParallelDomainCollector reads of a moved file: the same values, at the moved place. */
  lemma MovedRead<T>(c: Container<T>, c': Container<T>, f: File<T>, request: Domain, fill: T, d: Dims)
    requires request.Positive() && f.FileDomain().Positive() && f.data.Ok() && MovedFile(f, d).FileDomain().Positive()
    requires ParallelDomainCollector.DomainRead(c, f, request, fill)
    requires ParallelDomainCollector.DomainRead(c', MovedFile(f, d), MovedRequest(request, d), fill)
    ensures |c'.subdomains| == |c.subdomains|
    ensures f.data.Simple? ==> forall k | 0 <= k < |c.subdomains| :: SameData(c.subdomains[k], c'.subdomains[k], d)
  {
    MovedDomain(f, d);
    MovedMeets(request, f.FileDomain(), d);
    if TestIntersection(request, f.FileDomain()) {
      if f.dataClass == GridType {
        MovedLoad(Blank(request, fill), f, request, d);
        assert Blank(MovedRequest(request, d), fill) == Blank(request, fill);
      } else {
        hide TestIntersection;
        MovedPoly(c.subdomains[0], c'.subdomains[0], f, d);
      }
    }
  }

  /** The same values, d further on. */
  ghost predicate SameData<T>(s: DomainData<T>, s': DomainData<T>, d: Dims)
    reads s.data, s'.data
  {
    && s'.data[..] == s.data[..] && s'.elements == s.elements
    && s'.domain.size == s.domain.size && forall i | 0 <= i < AXES :: s'.domain.offset[i] == s.domain.offset[i] + d[i]
  }

  lemma MovedPoly<T>(s: DomainData<T>, s': DomainData<T>, f: File<T>, d: Dims)
    requires f.data.Ok() && PolyLoaded(s, f) && PolyLoaded(s', MovedFile(f, d))
    ensures f.data.Simple? ==> SameData(s, s', d)
  {
    assert s'.domain.size == [s'.domain.size[0], s'.domain.size[1], s'.domain.size[2]]
        == [s.domain.size[0], s.domain.size[1], s.domain.size[2]] == s.domain.size;
  }

  // ---- The grid -----------------------------------------------------------------------------------

  lemma MovedAxisIsValid(a: Axis, d: nat)
    requires a.Valid()
    ensures MovedAxis(a, d).Valid() && MovedAxis(a, d).N() == a.N()
    ensures forall p | 0 <= p < a.N() ::
              && MovedAxis(a, d).Rank(p) == a.Rank(p) && MovedAxis(a, d).Start(p) == a.Start(p) + d
              && MovedAxis(a, d).End(p) == a.End(p) + d
  {}

  lemma {:induction false} MovedSpan(a: Axis, d: nat, r: nat, end: nat)
    requires a.Valid() && r < a.N()
    ensures MovedAxis(a, d).Valid() && Span(MovedAxis(a, d), r, end + d) == Span(a, r, end)
    decreases a.N() - r
  {
    MovedAxisIsValid(a, d);
    if r + 1 < a.N() {
      MovedSpan(a, d, r + 1, end);
    }
  }

  lemma MovedIsRegular<T>(g: FileGrid<T>, ax: seq<Axis>, d: Dims)
    requires Regular(g, ax)
    ensures Regular(MovedGrid(g, d), MovedAxes(ax, d))
  {
    forall i | 0 <= i < AXES
      ensures MovedAxes(ax, d)[i].Valid() && MovedAxes(ax, d)[i].N() == ax[i].N()
    {
      MovedAxisIsValid(ax[i], d[i]);
    }
    forall pos: Dims | g.InRange(pos) ensures pos in MovedGrid(g, d).files && Fits(MovedGrid(g, d).files[pos], MovedAxes(ax, d), pos) {
      assert Fits(g.files[pos], ax, pos);
      hide Regular, Fits;
      MovedFits(g.files[pos], ax, pos, d);
    }
  }

  lemma MovedFitsAxis(a: Axis, d: nat, p: nat, start: nat, size: nat, globalOffset: nat)
    requires a.Valid() && p < a.N() && start == a.Start(p) && size == a.End(p) - a.Start(p) && (a.N() == 1 || globalOffset == a.cuts[0])
    ensures var a' := MovedAxis(a, d);
            && a'.Valid() && p < a'.N() && start + d == a'.Start(p) && size == a'.End(p) - a'.Start(p)
            && (a'.N() == 1 || globalOffset + d == a'.cuts[0])
  {
    MovedAxisIsValid(a, d);
  }

  /** Fits, for one axis. */
  ghost predicate FitsAxis<T>(f: File<T>, a: Axis, p: nat, i: nat)
    requires i < AXES
  {
    && a.Valid() && p < a.N() && f.globalOffset[i] + f.offset[i] == a.Start(p)
    && f.size[i] == a.End(p) - a.Start(p) && (a.N() == 1 || f.globalOffset[i] == a.cuts[0])
  }

  lemma FitsByAxis<T>(f: File<T>, ax: seq<Axis>, pos: Dims)
    requires |ax| == AXES
    ensures ValidAxes(ax) && Fits(f, ax, pos) <==> forall i | 0 <= i < AXES :: FitsAxis(f, ax[i], pos[i], i)
  {
    if forall i | 0 <= i < AXES :: FitsAxis(f, ax[i], pos[i], i) {
      assert FitsAxis(f, ax[0], pos[0], 0) && FitsAxis(f, ax[1], pos[1], 1) && FitsAxis(f, ax[2], pos[2], 2);
    }
    hide Axis.Valid;
  }

  lemma MovedFitsAt<T>(f: File<T>, a: Axis, p: nat, d: Dims, i: nat)
    requires i < AXES && FitsAxis(f, a, p, i)
    ensures FitsAxis(MovedFile(f, d), MovedAxis(a, d[i]), p, i)
  {
    MovedFitsAxis(a, d[i], p, f.globalOffset[i] + f.offset[i], f.size[i], f.globalOffset[i]);
  }

  lemma MovedFits<T>(f: File<T>, ax: seq<Axis>, pos: Dims, d: Dims)
    requires ValidAxes(ax) && Fits(f, ax, pos)
    ensures ValidAxes(MovedAxes(ax, d)) && Fits(MovedFile(f, d), MovedAxes(ax, d), pos)
  {
    FitsByAxis(f, ax, pos);
    FitsByAxis(MovedFile(f, d), MovedAxes(ax, d), pos);
    hide ValidAxes, Fits, FitsAxis, MovedAxis, MovedFile;
    forall i | 0 <= i < AXES ensures FitsAxis(MovedFile(f, d), MovedAxes(ax, d)[i], pos[i], i) {
      MovedFitsAt(f, ax[i], pos[i], d, i);
    }
  }

  lemma MovedOnAxis(a: Axis, d: nat, p: nat, q: nat)
    requires a.Valid()
    ensures var a' := MovedAxis(a, d);
            && a'.Valid() && a'.N() == a.N() && a'.cuts[a.N()] == a.cuts[a.N()] + d
            && (p < a.N() ==> (a'.Owns(p, q + d) <==> a.Owns(p, q)))
  {
    MovedAxisIsValid(a, d);
  }

  lemma MovedOwns(ax: seq<Axis>, pos: Dims, q: Dims, d: Dims)
    requires ValidAxes(ax)
    ensures ValidAxes(MovedAxes(ax, d)) && (Owns(MovedAxes(ax, d), pos, Add(q, d)) <==> Owns(ax, pos, q))
    ensures BeginsInside(MovedAxes(ax, d), Add(q, d)) <==> BeginsInside(ax, q)
  {
    var ax' := MovedAxes(ax, d);
    forall i | 0 <= i < AXES
      ensures ax'[i].Valid() && ax'[i].N() == ax[i].N() && ax'[i].cuts[ax[i].N()] == ax[i].cuts[ax[i].N()] + d[i]
      ensures pos[i] < ax[i].N() ==> (ax'[i].Owns(pos[i], q[i] + d[i]) <==> ax[i].Owns(pos[i], q[i]))
    {
      assert ax[i].Valid();
      hide Axis.Valid, Axis.Owns, MovedAxis;
      MovedOnAxis(ax[i], d[i], pos[i], q[i]);
    }
    assert forall i | 0 <= i < AXES :: Add(q, d)[i] == q[i] + d[i];
    hide Axis.Valid, Axis.Owns, MovedAxis, MovedAxes, Add;
  }

  lemma MovedWalk(ax: seq<Axis>, mpiSize: Dims, s: Dims, request: Domain, d: Dims)
    requires ValidAxes(ax) && forall i | 0 <= i < AXES :: s[i] < ax[i].N()
    ensures ValidAxes(MovedAxes(ax, d)) && forall i | 0 <= i < AXES :: s[i] < MovedAxes(ax, d)[i].N()
    ensures WalkOf(MovedAxes(ax, d), mpiSize, s, MovedRequest(request, d)) == WalkOf(ax, mpiSize, s, request)
  {
    forall i | 0 <= i < AXES
      ensures MovedAxes(ax, d)[i].Valid() && MovedAxes(ax, d)[i].N() == ax[i].N()
      ensures MovedAxes(ax, d)[i].Rank(s[i]) == ax[i].Rank(s[i])
      ensures Span(MovedAxes(ax, d)[i], ax[i].Rank(s[i]), request.offset[i] + request.size[i] + d[i])
           == Span(ax[i], ax[i].Rank(s[i]), request.offset[i] + request.size[i])
    {
      MovedAxisIsValid(ax[i], d[i]);
      MovedSpan(ax[i], d[i], ax[i].Rank(s[i]), request.offset[i] + request.size[i]);
    }
    hide MovedAxis, Span;
  }

  lemma MovedClasses<T>(g: FileGrid<T>, d: Dims, cls: DataClass)
    requires DomainCollector.Stored(g) && forall pos: Dims | g.InRange(pos) :: pos in g.files
    ensures DomainCollector.Stored(MovedGrid(g, d)) && (Consistent(MovedGrid(g, d), cls) <==> Consistent(g, cls))
    ensures HasClass(MovedGrid(g, d), cls) <==> HasClass(g, cls)
  {
    forall pos: Dims | g.InRange(pos)
      ensures var f, f' := g.files[pos], MovedGrid(g, d).files[pos]; f'.dataClass == f.dataClass && f'.data == f.data && f'.size == f.size
    {}
  }

  /** All files of a trace, moved, fill the buffer of the moved request as before. */
  lemma {:induction false} MovedLoads<T>(g: FileGrid<T>, request: Domain, w: Walk, trace: seq<Step>, fill: T, d: Dims)
    requires AllGrid(g, w, trace)
    ensures AllGrid(MovedGrid(g, d), w, trace)
    ensures LoadAll(MovedGrid(g, d), MovedRequest(request, d), w, trace, fill) == LoadAll(g, request, w, trace, fill)
    decreases |trace|
  {
    forall t | t in trace ensures w.InGrid(t) && w.Pos(t) in MovedGrid(g, d).files && GridFile(MovedGrid(g, d).files[w.Pos(t)]) {
      MovedDomain(g.files[w.Pos(t)], d);
    }
    hide GridFile, LoadFile;
    if |trace| > 0 {
      var n := |trace| - 1;
      assert trace[n] in trace;
      assert AllGrid(g, w, trace[..n]);
      MovedLoads(g, request, w, trace[..n], fill, d);
      MovedLoad(LoadAll(g, request, w, trace[..n], fill), g.files[w.Pos(trace[n])], request, d);
    }
  }

  // ---- Both reads ---------------------------------------------------------------------------------

  /** The container of the moved read holds the same values, d further on; a dataset without cells has none. */
  ghost predicate SameValues<T>(g: FileGrid<T>, c: Container<T>, c': Container<T>, cls: DataClass, w: Walk, d: Dims)
    reads c, c', c.Buffers(), c'.Buffers()
  {
    && |c'.subdomains| == |c.subdomains|
    && (cls == GridType ==> |c.subdomains| == 1 && c.subdomains[0].data in c.Buffers() && c'.subdomains[0].data in c'.Buffers()
                            && SameData(c.subdomains[0], c'.subdomains[0], d))
    && (cls == PolyType ==>
          |c.subdomains| == |Trace(w)|
          && forall k | 0 <= k < |c.subdomains| ::
               && c.subdomains[k].data in c.Buffers() && c'.subdomains[k].data in c'.Buffers()
               && w.Pos(Trace(w)[k]) in g.files
               && (g.files[w.Pos(Trace(w)[k])].data.Simple? ==> SameData(c.subdomains[k], c'.subdomains[k], d)))
  }

  lemma SameGrid<T>(g: FileGrid<T>, request: Domain, c: Container<T>, c': Container<T>, w: Walk, fill: T, d: Dims)
    requires LoadedGrid(g, request, c, w, fill) && LoadedGrid(MovedGrid(g, d), MovedRequest(request, d), c', w, fill)
    ensures SameValues(g, c, c', GridType, w, d) && c.subdomains != []
  {
    MovedLoads(g, request, w, Trace(w), fill, d);
    assert c.subdomains[0] in c.subdomains && c'.subdomains[0] in c'.subdomains;
  }

  lemma SamePoly<T>(g: FileGrid<T>, c: Container<T>, c': Container<T>, w: Walk, d: Dims)
    requires MergedPoly(g, c, w) && MergedPoly(MovedGrid(g, d), c', w)
    ensures SameValues(g, c, c', PolyType, w, d) && c.subdomains != []
  {
    hide ExactBox, Trace;
    forall k | 0 <= k < |c.subdomains|
      ensures c.subdomains[k] in c.subdomains && c'.subdomains[k] in c'.subdomains && w.Pos(Trace(w)[k]) in g.files
      ensures g.files[w.Pos(Trace(w)[k])].data.Simple? ==> SameData(c.subdomains[k], c'.subdomains[k], d)
    {
      var f := g.files[w.Pos(Trace(w)[k])];
      assert PolyLoaded(c.subdomains[k], f) && PolyLoaded(c'.subdomains[k], MovedFile(f, d));
      hide PolyLoaded, SameData;
      MovedPoly(c.subdomains[k], c'.subdomains[k], f, d);
    }
  }

  lemma SameWalk<T>(g: FileGrid<T>, ax: seq<Axis>, request: Domain, d: Dims, w: Walk, w': Walk)
    requires ValidAxes(ax) && ValidAxes(MovedAxes(ax, d))
    requires WalksFromStart(g, ax, request, w) && WalksFromStart(MovedGrid(g, d), MovedAxes(ax, d), MovedRequest(request, d), w')
    ensures w' == w
  {
    MovedOwns(ax, w'.s, request.offset, d);
    MovedWalk(ax, g.mpiSize, w.s, request, d);
    hide ValidAxes, Owns, WalkOf, MovedAxes;
    TwoOwnersAreOne(ax, w.s, w'.s, request.offset);
  }

  lemma SameClass<T>(g: FileGrid<T>, d: Dims, u: DataClass, cls: DataClass, cls': DataClass)
    requires DomainCollector.Stored(g) && Consistent(g, u) && HasClass(g, cls) && HasClass(MovedGrid(g, d), cls')
    ensures cls == cls' == u
  {
    MovedClasses(g, d, cls');
  }

  /** What readDomain promises for consistent files. */
  ghost predicate IsResult<T>(g: FileGrid<T>, ax: seq<Axis>, request: Domain, c: Container<T>, fill: T, cls: DataClass, w: Walk)
    requires ValidAxes(ax)
    reads c, c.Buffers()
  {
    if BeginsInside(ax, request.offset) then
      && WalksFromStart(g, ax, request, w) && HasClass(g, cls)
      && (cls == GridType ==> LoadedGrid(g, request, c, w, fill)) && (cls == PolyType ==> MergedPoly(g, c, w))
    else c.subdomains == [] && cls == UndefinedType
  }

  lemma ResultsAgree<T>(g: FileGrid<T>, ax: seq<Axis>, request: Domain, fill: T, d: Dims, u: DataClass,
                        c: Container<T>, cls: DataClass, w: Walk, c': Container<T>, cls': DataClass, w': Walk)
    requires ValidAxes(ax) && ValidAxes(MovedAxes(ax, d)) && DomainCollector.Stored(g) && Consistent(g, u) && u != UndefinedType
    requires BeginsInside(MovedAxes(ax, d), MovedRequest(request, d).offset) <==> BeginsInside(ax, request.offset)
    requires IsResult(g, ax, request, c, fill, cls, w)
    requires IsResult(MovedGrid(g, d), MovedAxes(ax, d), MovedRequest(request, d), c', fill, cls', w')
    ensures SameValues(g, c, c', cls, w, d) && (c.subdomains == [] <==> !BeginsInside(ax, request.offset))
  {
    hide ValidAxes, DomainCollector.Stored, Consistent, HasClass, BeginsInside, WalksFromStart, LoadedGrid, MergedPoly,
      SameValues, MovedGrid, MovedAxes, MovedRequest;
    if BeginsInside(ax, request.offset) {
      SameWalk(g, ax, request, d, w, w');
      SameClass(g, d, u, cls, cls');
      if cls == GridType {
        SameGrid(g, request, c, c', w, fill, d);
      } else {
        SamePoly(g, c, c', w, d);
      }
    } else {
      NothingRead(g, c, c', w, d);
    }
  }

  method ReadOnce<T>(g: FileGrid<T>, ghost ax: seq<Axis>, request: Domain, fill: T, ghost u: DataClass)
    returns (c: Container<T>, ghost cls: DataClass, ghost w: Walk)
    requires Regular(g, ax) && DomainCollector.Stored(g) && request.Positive() && Consistent(g, u)
    requires forall i | 0 <= i < AXES :: ax[i].cuts[0] <= request.offset[i]
    ensures ValidAxes(ax) && fresh(c) && fresh(c.Buffers()) && IsResult(g, ax, request, c, fill, cls, w)
  {
    AxesOf(g, ax);
    assert |ax| == AXES;
    hide Regular, DomainCollector.Stored, Consistent, HasClass, BeginsInside, WalksFromStart, LoadedGrid, MergedPoly, MergedGrid,
      Covers, NoneOff, ValidAxes, Container.Valid;
    var error, container, found, walk := ReadDomain(g, ax, request, fill);
    c, cls, w := container, found, walk;
  }

  /** readDomain before and after the window has moved, on files of one class. */
  method ReadBoth<T>(g: FileGrid<T>, ghost ax: seq<Axis>, request: Domain, fill: T, d: Dims, ghost u: DataClass)
    returns (c: Container<T>, c': Container<T>, ghost cls: DataClass, ghost w: Walk)
    requires Regular(g, ax) && DomainCollector.Stored(g) && request.Positive() && Consistent(g, u) && u != UndefinedType
    requires forall i | 0 <= i < AXES :: ax[i].cuts[0] <= request.offset[i]
    ensures c.subdomains == [] <==> !BeginsInside(ax, request.offset)
    ensures IsResult(g, ax, request, c, fill, cls, w) && SameValues(g, c, c', cls, w, d)
  {
    ReadableAgain(g, ax, request, d, u);
    assert |ax| == AXES;
    hide Regular, ValidAxes, DomainCollector.Stored, Consistent, BeginsInside, IsResult, SameValues, MovedGrid, MovedAxes, MovedRequest;
    ghost var cls', w';
    c, cls, w := ReadOnce(g, ax, request, fill, u);
    c', cls', w' := ReadOnce(MovedGrid(g, d), MovedAxes(ax, d), MovedRequest(request, d), fill, u);
    ResultsAgree(g, ax, request, fill, d, u, c, cls, w, c', cls', w');
  }

  lemma NothingRead<T>(g: FileGrid<T>, c: Container<T>, c': Container<T>, w: Walk, d: Dims)
    requires c.subdomains == [] && c'.subdomains == []
    ensures SameValues(g, c, c', UndefinedType, w, d)
  {}

  lemma ReadableAgain<T>(g: FileGrid<T>, ax: seq<Axis>, request: Domain, d: Dims, u: DataClass)
    requires Regular(g, ax) && DomainCollector.Stored(g) && request.Positive() && Consistent(g, u)
    requires forall i | 0 <= i < AXES :: ax[i].cuts[0] <= request.offset[i]
    ensures ValidAxes(ax) && ValidAxes(MovedAxes(ax, d)) && Regular(MovedGrid(g, d), MovedAxes(ax, d))
    ensures DomainCollector.Stored(MovedGrid(g, d)) && Consistent(MovedGrid(g, d), u) && MovedRequest(request, d).Positive()
    ensures forall i | 0 <= i < AXES :: MovedAxes(ax, d)[i].cuts[0] <= MovedRequest(request, d).offset[i]
    ensures BeginsInside(MovedAxes(ax, d), MovedRequest(request, d).offset) <==> BeginsInside(ax, request.offset)
  {
    MovedIsRegular(g, ax, d);
    MovedClasses(g, d, u);
    MovedOwns(ax, ZERO, request.offset, d);
    hide Regular, DomainCollector.Stored, Consistent, BeginsInside;
    assert forall i | 0 <= i < AXES :: MovedAxes(ax, d)[i].cuts[0] == ax[i].cuts[0] + d[i];
  }
}
