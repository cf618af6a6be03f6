/** DomainCollector::readDomain: a merged read returns the requested box of one big array. */
module DomainCollector {
  import opened Geometry
  import opened Options
  import opened DataSet
  import opened FileGrid
  import opened CornerSearch
  import opened DataContainer
  import opened FileRead
  import opened Traversal
  import opened FileScan
  import opened GridMerge

  // ---- From the axes of the grid to a walk --------------------------------------------------------

  /** How many intervals, counted from rank r, begin before `end`. */
  function Span(a: Axis, r: nat, end: nat): nat
    requires a.Valid() && r < a.N()
    decreases a.N() - r
  {
    if a.cuts[r] >= end then 0 else if r + 1 == a.N() then 1 else 1 + Span(a, r + 1, end)
  }

  lemma {:induction false} SpanCounts(a: Axis, r: nat, end: nat)
    requires a.Valid() && r < a.N()
    ensures r + Span(a, r, end) <= a.N()
    ensures forall k | r <= k < a.N() :: a.cuts[k] < end <==> k < r + Span(a, r, end)
    decreases a.N() - r
  {
    if a.cuts[r] < end && r + 1 < a.N() {
      SpanCounts(a, r + 1, end);
    }
  }

  /** A position meets the request on one axis exactly when it is less than Span steps behind the start. */
  lemma AxisHit(a: Axis, s: nat, req: nat, size: nat, k: nat)
    requires a.Valid() && s < a.N() && a.Owns(s, req) && size > 0 && k < a.N()
    ensures Rel(s, k, a.N()) < a.N()
    ensures a.Start(Rel(s, k, a.N())) < req + size && req < a.End(Rel(s, k, a.N())) <==> k < Span(a, a.Rank(s), req + size)
    ensures 1 <= Span(a, a.Rank(s), req + size) <= a.N()
    ensures k < Span(a, a.Rank(s), req + size) ==> a.Start(s) <= a.Start(Rel(s, k, a.N()))
  {
    var r0 := a.Rank(s);
    SpanCounts(a, r0, req + size);
    if r0 + k < a.N() {
      assert a.Rank(Rel(s, k, a.N())) == r0 + k;
    } else {
      var r := a.Rank(Rel(s, k, a.N()));
      assert r == r0 + k - a.N() && r < r0;
      assert a.cuts[r + 1] <= a.cuts[r0];
    }
  }

  /** The walk of a request whose first cell the file at `start` holds. */
  function WalkOf(ax: seq<Axis>, mpiSize: Dims, start: Dims, request: Domain): Walk
    requires ValidAxes(ax) && forall i | 0 <= i < AXES :: start[i] < ax[i].N()
  {
    Walk(mpiSize, start,
         [Span(ax[0], ax[0].Rank(start[0]), request.offset[0] + request.size[0]),
          Span(ax[1], ax[1].Rank(start[1]), request.offset[1] + request.size[1]),
          Span(ax[2], ax[2].Rank(start[2]), request.offset[2] + request.size[2])])
  }

  // ---- What merged reading demands of the files and the request -----------------------------------

  /** Every file has a data class and a dataset, a Grid file a dataset with cells. */
  ghost predicate Stored<T>(g: FileGrid<T>) {
    forall pos: Dims | g.InRange(pos) ::
      && pos in g.files && g.files[pos].dataClass != UndefinedType && g.files[pos].data.Ok()
      && (g.files[pos].dataClass == GridType ==> g.files[pos].data.Simple?)
  }

  /** All files are of class `cls`, and Grid data has the size of its domain. */
  ghost predicate Consistent<T>(g: FileGrid<T>, cls: DataClass)
    requires Stored(g)
  {
    forall pos: Dims | g.InRange(pos) ::
      g.files[pos].dataClass == cls && (cls == GridType ==> DataSize(g.files[pos].data) == g.files[pos].size)
  }

  /** The interval of position p meets the request on one axis. */
  predicate AxisMeets(a: Axis, p: nat, request: Domain, i: nat)
    requires a.Valid() && p < a.N() && i < AXES
  {
    a.Start(p) < request.offset[i] + request.size[i] && request.offset[i] < a.End(p)
  }

  /** The walk on one axis: which steps meet the request, and that none of those lies below the start. */
  ghost predicate AxisWalks(a: Axis, start: nat, request: Domain, i: nat, k: nat, span: nat)
    requires a.Valid() && start < a.N() && i < AXES
  {
    var p := Rel(start, k, a.N());
    && p < a.N() && 1 <= span <= a.N()
    && (AxisMeets(a, p, request, i) <==> k < span)
    && (k < span ==> a.Start(start) <= a.Start(p))
  }

  lemma WalkAxes(ax: seq<Axis>, mpiSize: Dims, start: Dims, request: Domain, t: Step)
    requires ValidAxes(ax) && request.Positive() && Owns(ax, start, request.offset)
    requires forall i | 0 <= i < AXES :: mpiSize[i] == ax[i].N()
    requires WalkOf(ax, mpiSize, start, request).InGrid(t)
    ensures var w := WalkOf(ax, mpiSize, start, request);
            && AxisWalks(ax[0], start[0], request, 0, t.a, w.c[0])
            && AxisWalks(ax[1], start[1], request, 1, t.b, w.c[1])
            && AxisWalks(ax[2], start[2], request, 2, t.d, w.c[2])
            && w.Valid()
  {
    assert request.size[0] > 0 && request.size[1] > 0 && request.size[2] > 0;
    AxisHit(ax[0], start[0], request.offset[0], request.size[0], t.a);
    AxisHit(ax[1], start[1], request.offset[1], request.size[1], t.b);
    AxisHit(ax[2], start[2], request.offset[2], request.size[2], t.d);
  }

  lemma FileMeets<T>(g: FileGrid<T>, ax: seq<Axis>, p: Dims, request: Domain)
    requires Regular(g, ax) && g.InRange(p) && request.Positive()
    ensures g.files[p].FileDomain().Positive()
    ensures p[0] < ax[0].N() && p[1] < ax[1].N() && p[2] < ax[2].N()
    ensures TestIntersection(request, g.files[p].FileDomain())
       <==> AxisMeets(ax[0], p[0], request, 0) && AxisMeets(ax[1], p[1], request, 1) && AxisMeets(ax[2], p[2], request, 2)
    ensures forall i | 0 <= i < AXES :: g.files[p].FileDomain().offset[i] == ax[i].Start(p[i])
  {}

  /** The steps of the walk inside its box are exactly those to files that meet the request. */
  lemma HitExactly<T>(g: FileGrid<T>, ax: seq<Axis>, start: Dims, request: Domain, t: Step)
    requires Regular(g, ax) && request.Positive() && g.InRange(start) && Owns(ax, start, request.offset)
    requires WalkOf(ax, g.mpiSize, start, request).InGrid(t)
    ensures var w := WalkOf(ax, g.mpiSize, start, request);
            && w.Valid() && g.InRange(w.Pos(t)) && g.files[w.Pos(t)].FileDomain().Positive()
            && (TestIntersection(request, g.files[w.Pos(t)].FileDomain()) <==> w.Hit(t))
  {
    var w := WalkOf(ax, g.mpiSize, start, request);
    var p := w.Pos(t);
    WalkAxes(ax, g.mpiSize, start, request, t);
    assert p[0] < ax[0].N() && p[1] < ax[1].N() && p[2] < ax[2].N();
    assert AxisMeets(ax[0], p[0], request, 0) <==> t.a < w.c[0];
    assert AxisMeets(ax[1], p[1], request, 1) <==> t.b < w.c[1];
    assert AxisMeets(ax[2], p[2], request, 2) <==> t.d < w.c[2];
    hide Owns, TestIntersection, AxisMeets, Span, AxisWalks;
    FileMeets(g, ax, p, request);
  }

  /** No file that meets the request begins below the one that holds its first cell. */
  lemma StartIsLowest<T>(g: FileGrid<T>, ax: seq<Axis>, start: Dims, request: Domain, t: Step)
    requires Regular(g, ax) && request.Positive() && g.InRange(start) && Owns(ax, start, request.offset)
    requires var w := WalkOf(ax, g.mpiSize, start, request); w.InGrid(t) && w.Hit(t)
    ensures var w := WalkOf(ax, g.mpiSize, start, request);
            && g.InRange(w.Pos(t))
            && forall i | 0 <= i < AXES ::
                 g.files[start].FileDomain().offset[i] <= g.files[w.Pos(t)].FileDomain().offset[i]
  {
    var w := WalkOf(ax, g.mpiSize, start, request);
    var p := w.Pos(t);
    HitExactly(g, ax, start, request, t);
    WalkAxes(ax, g.mpiSize, start, request, t);
    hide TestIntersection, AxisMeets, Span, Owns;
    assert ax[0].Start(start[0]) <= ax[0].Start(p[0]) && ax[1].Start(start[1]) <= ax[1].Start(p[1]) && ax[2].Start(start[2]) <= ax[2].Start(p[2]);
    assert Fits(g.files[p], ax, p) && Fits(g.files[start], ax, start);
  }

  /** One file of the walk. */
  lemma FileOnWalk<T>(g: FileGrid<T>, ax: seq<Axis>, start: Dims, request: Domain, t: Step)
    requires Regular(g, ax) && Stored(g) && request.Positive()
    requires g.InRange(start) && Owns(ax, start, request.offset)
    requires WalkOf(ax, g.mpiSize, start, request).InGrid(t)
    ensures var w := WalkOf(ax, g.mpiSize, start, request);
            w.Valid() && g.InRange(w.Pos(t)) && FileOk(g.files[w.Pos(t)], request, w.Hit(t))
  {
    hide Regular, Owns, TestIntersection, WalkOf;
    HitExactly(g, ax, start, request, t);
  }

  /** A regular grid of files is what the walk relies on. */
  lemma SceneOfGrid<T>(g: FileGrid<T>, ax: seq<Axis>, start: Dims, request: Domain)
    requires Regular(g, ax) && Stored(g) && request.Positive()
    requires g.InRange(start) && Owns(ax, start, request.offset)
    ensures Scene(g, request, WalkOf(ax, g.mpiSize, start, request))
    ensures forall t | WalkOf(ax, g.mpiSize, start, request).InGrid(t) :: g.InRange(WalkOf(ax, g.mpiSize, start, request).Pos(t))
  {
    var w := WalkOf(ax, g.mpiSize, start, request);
    hide WalkOf, FileOk, Owns;
    forall t | w.InGrid(t)
      ensures w.Valid() && g.InRange(w.Pos(t)) && w.Pos(t) in g.files && FileOk(g.files[w.Pos(t)], request, w.Hit(t))
    {
      FileOnWalk(g, ax, start, request, t);
    }
    assert w.Valid() by {
      FileOnWalk(g, ax, start, request, Step(0, 0, 0));
    }
  }

  /** Reading fails only if the files are not consistent. */
  lemma BlamedFilesDiffer<T>(g: FileGrid<T>, request: Domain, w: Walk, e: ReadError)
    requires Stored(g) && Scene(g, request, w) && Blames(g, w, e) && forall t | w.InGrid(t) :: g.InRange(w.Pos(t))
    ensures forall cls :: !Consistent(g, cls)
  {}

  // ---- The merged read ----------------------------------------------------------------------------

  /** For Grid data: one buffer for the request, into which the files of the trace have been loaded in order. */
  ghost predicate LoadedGrid<T>(g: FileGrid<T>, request: Domain, c: Container<T>, w: Walk, fill: T)
    reads c, c.Buffers()
  {
    && RequestBuffer(c, request) && AllGrid(g, w, Trace(w))
    && c.subdomains[0].data[..] == LoadAll(g, request, w, Trace(w), fill)
  }

  /** A buffer for the request that shows every file's part of it. */
  ghost predicate MergedGrid<T>(g: FileGrid<T>, request: Domain, c: Container<T>)
    requires request.Positive()
    reads c, c.Buffers()
  {
    RequestBuffer(c, request) && AllShown(g, request, c.subdomains[0].data[..])
  }

  /** For Poly data: the whole datasets of the files of the trace, inside their exact bounding box. */
  ghost predicate MergedPoly<T>(g: FileGrid<T>, c: Container<T>, w: Walk)
    reads c, c.Buffers()
  {
    && |c.subdomains| == |Trace(w)| > 0
    && (forall k | 0 <= k < |c.subdomains| ::
          && w.Pos(Trace(w)[k]) in g.files && g.files[w.Pos(Trace(w)[k])].data.Ok()
          && c.subdomains[k] in c.subdomains
          && PolyLoaded(c.subdomains[k], g.files[w.Pos(Trace(w)[k])]))
    && ExactBox(Domains(c.subdomains), c.offset, c.size)
  }

  ghost predicate ExactBox(ds: seq<Domain>, offset: Dims, size: Dims)
    requires |ds| > 0
  {
    forall i | 0 <= i < AXES :: offset[i] == LeastOffset(ds, i) && offset[i] + size[i] == GreatestEnd(ds, i)
  }

  /** The walk begins at the file that holds the request's first cell; there is one such file. */
  ghost predicate WalksFromStart<T>(g: FileGrid<T>, ax: seq<Axis>, request: Domain, w: Walk)
    requires ValidAxes(ax)
  {
    Owns(ax, w.s, request.offset) && w == WalkOf(ax, g.mpiSize, w.s, request)
  }

  ghost predicate HasClass<T>(g: FileGrid<T>, cls: DataClass) {
    exists pos: Dims :: g.InRange(pos) && pos in g.files && g.files[pos].dataClass == cls
  }

  /** DomainCollector::readDomain. */
  method ReadDomain<T>(g: FileGrid<T>, ghost ax: seq<Axis>, request: Domain, fill: T)
    returns (error: Option<ReadError>, c: Container<T>, cls: DataClass, ghost w: Walk)
    requires Regular(g, ax) && Stored(g) && request.Positive()
    requires forall i | 0 <= i < AXES :: ax[i].cuts[0] <= request.offset[i]
    ensures fresh(c) && fresh(c.Buffers()) && (error.None? ==> c.Valid())
    ensures error.Some? ==> BeginsInside(ax, request.offset) && forall u :: !Consistent(g, u)
    ensures !BeginsInside(ax, request.offset) ==> error.None? && c.subdomains == [] && cls == UndefinedType
    ensures BeginsInside(ax, request.offset) && error.None? ==>
              && WalksFromStart(g, ax, request, w) && Covers(g, request, w) && cls != UndefinedType && HasClass(g, cls)
              && (cls == GridType ==> LoadedGrid(g, request, c, w, fill))
              && (cls == GridType && NoneOff(g, request) ==> MergedGrid(g, request, c))
              && (cls == PolyType ==> MergedPoly(g, c, w))
  {
    hide Regular, Scene, Stored, Consistent, Blames, Holds, Covers, LoadedGrid, NoneOff, MergedGrid, MergedPoly, Owns,
      StartRanges, Span, HasClass;
    AxesOf(g, ax);
    error, cls := None, UndefinedType;
    c := new Container<T>();
    var belowZero := FindZero(g, ax);
    var lo, hi := SelectHalf(g, ax, belowZero, request.offset);
    var found := FindStart(g, ax, lo, hi, request.offset);
    w := Walk(g.mpiSize, ZERO, ZERO);
    if found.None? {
      return;
    }
    var start := found.value;
    var max := EndOfRange(g.mpiSize, start);
    w := WalkOf(ax, g.mpiSize, start, request);
    SceneOfGrid(g, ax, start, request);
    error, cls := ScanFiles(g, c, request, fill, start, max, w);
    if error.None? {
      ResultOfScan(g, ax, start, request, c, fill, cls, w);
    } else {
      BlamedFilesDiffer(g, request, w, error.value);
    }
  }

  lemma AxesOf<T>(g: FileGrid<T>, ax: seq<Axis>)
    requires Regular(g, ax)
    ensures ValidAxes(ax) && forall pos: Dims | g.InRange(pos) :: forall i | 0 <= i < AXES :: pos[i] < ax[i].N()
    ensures forall i | 0 <= i < AXES :: g.mpiSize[i] == ax[i].N()
  {}

  /** max_dims at the start of the walk: the position before the start corner on every axis. */
  method EndOfRange(mpiSize: Dims, start: Dims) returns (max: Dims)
    requires forall i | 0 <= i < AXES :: start[i] < mpiSize[i]
    ensures forall i | 0 <= i < AXES :: max[i] == (start[i] + mpiSize[i] - 1) % mpiSize[i]
  {
    max := ZERO;
    for i := 0 to AXES
      invariant forall j | 0 <= j < i :: max[j] == (start[j] + mpiSize[j] - 1) % mpiSize[j]
    {
      max := max[i := (start[i] + mpiSize[i] - 1) % mpiSize[i]];
    }
  }

  lemma ResultOfScan<T>(g: FileGrid<T>, ax: seq<Axis>, start: Dims, request: Domain, c: Container<T>, fill: T, cls: DataClass, w: Walk)
    requires Regular(g, ax) && request.Positive() && g.InRange(start) && Owns(ax, start, request.offset)
    requires w == WalkOf(ax, g.mpiSize, start, request) && Scene(g, request, w)
    requires Holds(c, g, request, w, fill, cls, Trace(w))
    ensures c.Valid() && Covers(g, request, w) && cls != UndefinedType && HasClass(g, cls)
    ensures cls == GridType ==> LoadedGrid(g, request, c, w, fill) && (NoneOff(g, request) ==> MergedGrid(g, request, c))
    ensures cls == PolyType ==> MergedPoly(g, c, w)
  {
    SceneCovers(g, request, w);
    assert w.c[2] >= 1;
    StartsAtCorner(w, w.c[2]);
    ClassOfFile(g, request, c, w, fill, cls);
    if cls == GridType && NoneOff(g, request) {
      RegularIsApart(g, ax);
      AllFilesShown(g, request, w, fill);
    }
    if cls == PolyType {
      PolyResult(g, ax, start, request, c, w);
    }
  }

  lemma ClassOfFile<T>(g: FileGrid<T>, request: Domain, c: Container<T>, w: Walk, fill: T, cls: DataClass)
    requires Scene(g, request, w) && Holds(c, g, request, w, fill, cls, Trace(w)) && cls != UndefinedType
    ensures HasClass(g, cls)
  {
    var t :| w.InGrid(t) && g.files[w.Pos(t)].dataClass == cls;
    PosInRange(g, w, t);
  }

  /** For particle data the container has the exact bounding box, because the start corner was added first. */
  lemma PolyResult<T>(g: FileGrid<T>, ax: seq<Axis>, start: Dims, request: Domain, c: Container<T>, w: Walk)
    requires Regular(g, ax) && request.Positive() && g.InRange(start) && Owns(ax, start, request.offset)
    requires w == WalkOf(ax, g.mpiSize, start, request) && Scene(g, request, w)
    requires c.Valid() && PolyTrace(c, g, request, w, Trace(w)) && |Trace(w)| > 0 && Trace(w)[0] == Step(0, 0, 0)
    ensures MergedPoly(g, c, w)
  {
    var ds := Domains(c.subdomains);
    forall k | 0 <= k < |ds|
      ensures w.Pos(Trace(w)[k]) in g.files && g.files[w.Pos(Trace(w)[k])].data.Ok()
      ensures c.subdomains[k] in c.subdomains && PolyLoaded(c.subdomains[k], g.files[w.Pos(Trace(w)[k])])
      ensures forall i | 0 <= i < AXES :: ds[k].size[i] > 0 && ds[0].offset[i] <= ds[k].offset[i]
    {
      PolySubdomain(g, ax, start, request, c, w, k);
    }
    hide Regular, Scene, PolyTrace, PolyLoaded, Owns, WalkOf, Covers;
    forall i | 0 <= i < AXES
      ensures c.offset[i] == LeastOffset(ds, i) && c.offset[i] + c.size[i] == GreatestEnd(ds, i)
    {
      FirstLowestIsExact(ds, i);
      assert Extent(c.offset[i], c.size[i]) == ExtentOf(ds, i);
    }
  }

  lemma PolySubdomain<T>(g: FileGrid<T>, ax: seq<Axis>, start: Dims, request: Domain, c: Container<T>, w: Walk, k: nat)
    requires Regular(g, ax) && request.Positive() && g.InRange(start) && Owns(ax, start, request.offset)
    requires w == WalkOf(ax, g.mpiSize, start, request) && Scene(g, request, w)
    requires c.Valid() && PolyTrace(c, g, request, w, Trace(w)) && k < |Trace(w)| && Trace(w)[0] == Step(0, 0, 0)
    ensures w.Pos(Trace(w)[k]) in g.files && g.files[w.Pos(Trace(w)[k])].data.Ok()
    ensures c.subdomains[k] in c.subdomains && PolyLoaded(c.subdomains[k], g.files[w.Pos(Trace(w)[k])])
    ensures forall i | 0 <= i < AXES ::
              c.subdomains[k].domain.size[i] > 0 && c.subdomains[0].domain.offset[i] <= c.subdomains[k].domain.offset[i]
  {
    AxesOf(g, ax);
    WalkStartsAt(g, ax, start, request, w);
    hide PolyTrace, PolyLoaded, TestIntersection, FileOk, Apart, Fits, Span, Trace, Regular, Scene, Owns, WalkOf, Rel;
    var t := Trace(w)[k];
    PolyAt(g, request, c, w, Trace(w), 0);
    PolyAt(g, request, c, w, Trace(w), k);
    HitsOnly(w, k);
    StartIsLowest(g, ax, start, request, t);
  }

  lemma WalkStartsAt<T>(g: FileGrid<T>, ax: seq<Axis>, start: Dims, request: Domain, w: Walk)
    requires Regular(g, ax) && g.InRange(start) && Scene(g, request, w) && w.s == start
    ensures w.Valid() && w.Pos(Step(0, 0, 0)) == start
  {}

  lemma HitsOnly(w: Walk, k: nat)
    requires w.Valid() && k < |Trace(w)|
    ensures w.Hit(Trace(w)[k])
  {
    assert Trace(w)[k] in Trace(w);
    LoadedHowOften(w, Trace(w)[k]);
  }

  lemma PolyAt<T>(g: FileGrid<T>, request: Domain, c: Container<T>, w: Walk, trace: seq<Step>, k: nat)
    requires Scene(g, request, w) && c.Valid() && PolyTrace(c, g, request, w, trace) && k < |trace|
    ensures w.InGrid(trace[k]) && w.Pos(trace[k]) in g.files && g.files[w.Pos(trace[k])].data.Ok()
    ensures c.subdomains[k] in c.subdomains && PolyLoaded(c.subdomains[k], g.files[w.Pos(trace[k])])
    ensures c.subdomains[k].domain == g.files[w.Pos(trace[k])].FileDomain() && c.subdomains[k].domain.Positive()
  {}

  /** A list that begins with a lowest domain has an exact box. */
  lemma FirstLowestIsExact(ds: seq<Domain>, i: nat)
    requires i < AXES && |ds| > 0 && forall k | 0 <= k < |ds| :: ds[k].size[i] > 0 && ds[0].offset[i] <= ds[k].offset[i]
    ensures ExtentOf(ds, i).offset == LeastOffset(ds, i)
    ensures ExtentOf(ds, i).offset + ExtentOf(ds, i).size == GreatestEnd(ds, i)
  {
    BoxIsExactWhenFarAfterNear(ds, i);
    LeastAndGreatest(ds, i);
    var j :| 0 <= j < |ds| && ds[j].offset[i] == LeastOffset(ds, i);
    var k :| 0 <= k < |ds| && EndOf(ds[k], i) == GreatestEnd(ds, i);
    assert ds[0].offset[i] == LeastOffset(ds, i);
    assert FarAfterNear(ds, i);
    assert LeastOffset(ds, i) <= GreatestEnd(ds, i);
  }

  // ---- Data with fewer axes than the file grid ----------------------------------------------------

  /** The request covers one coordinate of the global domain on an axis. */
  predicate OneCoordinate(a: Axis, request: Domain, i: nat)
    requires a.Valid() && i < AXES
  {
    request.size[i] == 1 || request.offset[i] + 1 >= a.cuts[a.N()]
  }

  lemma GridFilesOf<T>(g: FileGrid<T>, ax: seq<Axis>)
    requires Regular(g, ax) && Stored(g) && Consistent(g, GridType)
    ensures GridFiles(g)
  {
    forall pos: Dims | g.InRange(pos) ensures pos in g.files && GridFile(g.files[pos]) {
      FileAt(g, ax, pos);
    }
  }

  /** On an axis that the data lacks, every file holds one coordinate. */
  lemma ThinFile<T>(g: FileGrid<T>, ax: seq<Axis>, pos: Dims, i: nat)
    requires Regular(g, ax) && g.InRange(pos) && GridFile(g.files[pos]) && DataDims(g.files[pos].data) <= i < AXES
    ensures ValidAxes(ax) && pos[i] < ax[i].N() && ax[i].End(pos[i]) == ax[i].Start(pos[i]) + 1
    ensures g.files[pos].FileDomain().offset[i] == ax[i].Start(pos[i]) < ax[i].cuts[ax[i].N()]
  {}

  /** The file behind the start on an axis that the data lacks meets the request and is off. */
  lemma NextIsOff<T>(g: FileGrid<T>, ax: seq<Axis>, start: Dims, request: Domain, i: nat) returns (pos: Dims)
    requires Regular(g, ax) && GridFiles(g) && request.Positive() && g.InRange(start) && Owns(ax, start, request.offset)
    requires i < AXES && forall p: Dims | g.InRange(p) :: DataDims(g.files[p].data) <= i
    requires !OneCoordinate(ax[i], request, i)
    ensures g.InRange(pos) && g.files[pos].FileDomain().Positive() && TestIntersection(request, g.files[pos].FileDomain())
    ensures !FlatAt(g.files[pos], request)
  {
    hide Regular, TestIntersection, GridFile, OneCoordinate, Rel;
    ThinFile(g, ax, start, i);
    AxesOf(g, ax);
    StartMeets(ax, start, request, i);
    NextMeets(ax[i], start[i], request, i);
    var next := Rel(start[i], 1, ax[i].N());
    pos := start[i := next];
    forall j | 0 <= j < AXES ensures pos[j] < ax[j].N() && AxisMeets(ax[j], pos[j], request, j) {
      if j != i {
        StartMeets(ax, start, request, j);
      }
    }
    hide Owns, AxisMeets;
    assert g.InRange(pos);
    FileMeets(g, ax, pos, request);
    assert g.files[pos].FileDomain().offset[i] == request.offset[i] + 1;
  }

  lemma NextMeets(a: Axis, s: nat, request: Domain, i: nat)
    requires a.Valid() && i < AXES && s < a.N() && a.Owns(s, request.offset[i]) && a.End(s) == a.Start(s) + 1
    requires request.size[i] > 0 && !OneCoordinate(a, request, i)
    ensures var next := Rel(s, 1, a.N());
            next < a.N() && a.Start(next) == request.offset[i] + 1 && AxisMeets(a, next, request, i)
  {}

  lemma StartMeets(ax: seq<Axis>, start: Dims, request: Domain, j: nat)
    requires ValidAxes(ax) && j < AXES && Owns(ax, start, request.offset) && request.Positive()
    ensures start[j] < ax[j].N() && AxisMeets(ax[j], start[j], request, j)
    ensures ax[j].Owns(start[j], request.offset[j]) && request.size[j] > 0
  {}

  /** A request that covers one coordinate on the axes the data lacks only meets files that begin there. */
  lemma OneCoordinateIsFlat<T>(g: FileGrid<T>, ax: seq<Axis>, pos: Dims, request: Domain, nd: nat)
    requires Regular(g, ax) && g.InRange(pos) && request.Positive() && GridFile(g.files[pos]) && DataDims(g.files[pos].data) == nd
    requires forall i | nd <= i < AXES :: OneCoordinate(ax[i], request, i)
    requires TestIntersection(request, g.files[pos].FileDomain())
    ensures FlatAt(g.files[pos], request)
  {
    FileMeets(g, ax, pos, request);
    hide Regular, TestIntersection;
    forall i | nd <= i < AXES ensures g.files[pos].FileDomain().offset[i] == request.offset[i] {
      ThinFile(g, ax, pos, i);
      assert AxisMeets(ax[i], pos[i], request, i);
    }
  }

  /**
   * When all files hold data of the same number of axes, no file is off exactly when the request covers one
   * coordinate, and with it one file, on each axis that the data lacks.
   */
  lemma NoneOffExactly<T>(g: FileGrid<T>, ax: seq<Axis>, start: Dims, request: Domain, nd: nat)
    requires Regular(g, ax) && GridFiles(g) && request.Positive() && g.InRange(start) && Owns(ax, start, request.offset)
    requires nd <= AXES && forall p: Dims | g.InRange(p) :: DataDims(g.files[p].data) == nd
    ensures NoneOff(g, request) <==> forall i | nd <= i < AXES :: OneCoordinate(ax[i], request, i)
  {
    AxesOf(g, ax);
    hide Regular, GridFile, TestIntersection, FlatAt, Owns, OneCoordinate;
    if forall i | nd <= i < AXES :: OneCoordinate(ax[i], request, i) {
      forall pos: Dims | g.InRange(pos) && pos in g.files && g.files[pos].FileDomain().Positive()
                         && TestIntersection(request, g.files[pos].FileDomain())
        ensures FlatAt(g.files[pos], request)
      {
        OneCoordinateIsFlat(g, ax, pos, request, nd);
      }
    } else {
      var i :| nd <= i < AXES && !OneCoordinate(ax[i], request, i);
      var pos := NextIsOff(g, ax, start, request, i);
    }
  }

  /**
   * So a merged read of Grid data with nd axes shows every requested cell, for all contents of the files,
   * exactly when the request covers one coordinate on each of the axes that the data lacks.
   */
  lemma MergedReadShownExactly<T>(g: FileGrid<T>, ax: seq<Axis>, start: Dims, request: Domain, nd: nat, fill: T, mark: T)
    requires Regular(g, ax) && Stored(g) && Consistent(g, GridType) && request.Positive()
    requires g.InRange(start) && Owns(ax, start, request.offset) && mark != fill
    requires nd <= AXES && forall p: Dims | g.InRange(p) :: DataDims(g.files[p].data) == nd
    ensures GridFiles(g)
    ensures var w := WalkOf(ax, g.mpiSize, start, request);
            ((forall g' | SameButContents(g, g') ::
                AllGrid(g', w, Trace(w)) && AllShown(g', request, LoadAll(g', request, w, Trace(w), fill)))
             <==> forall i | nd <= i < AXES :: OneCoordinate(ax[i], request, i))
  {
    GridFilesOf(g, ax);
    NoneOffExactly(g, ax, start, request, nd);
    var w := WalkOf(ax, g.mpiSize, start, request);
    SceneOfGrid(g, ax, start, request);
    SceneCovers(g, request, w);
    RegularIsApart(g, ax);
    hide Regular, Stored, Consistent, GridFiles, Owns, NoneOff, OneCoordinate, SameButContents, AllShown, AllGrid, Covers, NoOverlap;
    ShownExactly(g, request, w, fill, mark);
  }

  lemma SceneCovers<T>(g: FileGrid<T>, request: Domain, w: Walk)
    requires Scene(g, request, w)
    ensures Covers(g, request, w)
  {}

  // ---- One big array ------------------------------------------------------------------------------

  /** The files hold the pieces of one big array. */
  ghost predicate Pieces<T>(g: FileGrid<T>, values: Dims -> T) {
    forall pos: Dims | g.InRange(pos) && pos in g.files :: Piece(g.files[pos], values)
  }

  /** The box [offset, offset + size) of the big array, as far as the global domain goes. */
  ghost predicate ShowsBox<T>(buf: seq<T>, ax: seq<Axis>, request: Domain, values: Dims -> T)
    requires ValidAxes(ax)
  {
    forall q: Dims | request.Contains(q) && InGlobalDomain(ax, q) ::
      BufferIndex(q, request) < |buf| && buf[BufferIndex(q, request)] == values(q)
  }

  /** What a merged read of Grid data returns is the requested box of the array the files were cut from. */
  lemma MergedReadIsOneArrayRead<T>(g: FileGrid<T>, ax: seq<Axis>, request: Domain, c: Container<T>, values: Dims -> T)
    requires Regular(g, ax) && request.Positive() && MergedGrid(g, request, c) && Pieces(g, values)
    ensures ShowsBox(c.subdomains[0].data[..], ax, request, values)
  {
    forall q: Dims | request.Contains(q) && InGlobalDomain(ax, q)
      ensures BufferIndex(q, request) < c.subdomains[0].data.Length && c.subdomains[0].data[..][BufferIndex(q, request)] == values(q)
    {
      OneOwnerPerCell(g, ax, q);
      var pos: Dims :| g.InRange(pos) && g.files[pos].FileDomain().Contains(q);
      FileAt(g, ax, pos);
      IntersectionMeansSharedCell(request, g.files[pos].FileDomain());
      assert Shows(c.subdomains[0].data[..], request, g.files[pos], q);
      PieceAt(g.files[pos], values, q);
    }
  }
}
