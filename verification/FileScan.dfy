/** DomainCollector::readDomain, second half: the walk over all files that may meet the request. */
module FileScan {
  import opened Geometry
  import opened Options
  import opened Hdf5
  import opened DataSet
  import opened FileGrid
  import opened DataContainer
  import opened FileRead
  import opened Traversal

  /** The exceptions of readDomainDataForRank. */
  datatype ReadError = SizeMismatch | InconsistentClasses

  // ---- What the walk knows ------------------------------------------------------------------------

  ghost predicate FileOk<T>(f: File<T>, request: Domain, hit: bool)
    requires request.Positive()
  {
    && f.FileDomain().Positive() && f.dataClass != UndefinedType && f.data.Ok()
    && (TestIntersection(request, f.FileDomain()) <==> hit)
    && (f.dataClass == GridType ==> f.data.Simple?)
  }

  /** The files of the walk are there, and they meet the request exactly where the walk says. */
  ghost predicate Scene<T>(g: FileGrid<T>, request: Domain, w: Walk) {
    && w.Valid() && request.Positive() && g.mpiSize == w.n
    && (forall t | w.InGrid(t) :: w.Pos(t) in g.files && FileOk(g.files[w.Pos(t)], request, w.Hit(t)))
  }

  /** What is wrong with the files when reading fails. */
  ghost predicate Blames<T>(g: FileGrid<T>, w: Walk, e: ReadError)
    requires w.Valid() && forall t | w.InGrid(t) :: w.Pos(t) in g.files && g.files[w.Pos(t)].data.Ok()
  {
    match e
    case SizeMismatch =>
      exists t :: w.InGrid(t) && g.files[w.Pos(t)].dataClass == GridType && DataSize(g.files[w.Pos(t)].data) != g.files[w.Pos(t)].size
    case InconsistentClasses =>
      exists t, t' :: w.InGrid(t) && w.InGrid(t') && g.files[w.Pos(t)].dataClass != g.files[w.Pos(t')].dataClass
  }

  /** The files of the steps are Grid files. */
  ghost predicate AllGrid<T>(g: FileGrid<T>, w: Walk, trace: seq<Step>) {
    forall t | t in trace :: w.InGrid(t) && w.Pos(t) in g.files && GridFile(g.files[w.Pos(t)])
  }

  /** The buffer for the request after the files of the trace have been loaded into it one after the other. */
  ghost function LoadAll<T>(g: FileGrid<T>, request: Domain, w: Walk, trace: seq<Step>, fill: T): (buf: seq<T>)
    requires AllGrid(g, w, trace)
    ensures |buf| == Prod(Phys(request.size, AXES))
    decreases |trace|
  {
    if |trace| == 0 then Blank(request, fill)
    else
      var n := |trace| - 1;
      assert trace[n] in trace;
      LoadFile(LoadAll(g, request, w, trace[..n], fill), request, g.files[w.Pos(trace[n])])
  }

  ghost predicate GridTrace<T>(c: Container<T>, g: FileGrid<T>, request: Domain, w: Walk, fill: T, trace: seq<Step>)
    reads c, c.Buffers()
  {
    && AllGrid(g, w, trace)
    && if |trace| == 0 then c.subdomains == []
       else RequestBuffer(c, request) && c.subdomains[0].data[..] == LoadAll(g, request, w, trace, fill)
  }

  ghost predicate PolyTrace<T>(c: Container<T>, g: FileGrid<T>, request: Domain, w: Walk, trace: seq<Step>)
    requires Scene(g, request, w)
    reads c, c.Buffers()
  {
    && |c.subdomains| == |trace|
    && forall k | 0 <= k < |trace| ::
         && w.InGrid(trace[k]) && g.files[w.Pos(trace[k])].dataClass == PolyType
         && c.subdomains[k] in c.subdomains
         && PolyLoaded(c.subdomains[k], g.files[w.Pos(trace[k])])
  }

  /** The container holds what the files of the trace contribute, and `cls` is the class of one of the files. */
  ghost predicate Holds<T>(c: Container<T>, g: FileGrid<T>, request: Domain, w: Walk, fill: T, cls: DataClass, trace: seq<Step>)
    requires Scene(g, request, w)
    reads c, c.Buffers()
  {
    && c.Valid()
    && (cls != UndefinedType ==> exists t :: w.InGrid(t) && g.files[w.Pos(t)].dataClass == cls)
    && (cls == UndefinedType ==> trace == [] && c.subdomains == [])
    && (cls == GridType ==> GridTrace(c, g, request, w, fill, trace))
    && (cls == PolyType ==> PolyTrace(c, g, request, w, trace))
  }

  lemma HoldsNothing<T>(g: FileGrid<T>, c: Container<T>, request: Domain, w: Walk, fill: T)
    requires Scene(g, request, w) && c.Valid() && c.subdomains == []
    ensures Holds(c, g, request, w, fill, UndefinedType, []) && c.Buffers() == {}
  {}

  // ---- One file -----------------------------------------------------------------------------------

  /** The exception for a file of which `cls` is the class of the files read so far, if any. */
  function ReadFailure<T>(f: File<T>, cls: DataClass): Option<ReadError>
    requires f.data.Ok()
  {
    if f.dataClass == GridType && DataSize(f.data) != f.size then Some(SizeMismatch)
    else if cls != UndefinedType && f.dataClass != cls then Some(InconsistentClasses)
    else None
  }

  lemma FailureBlames<T>(g: FileGrid<T>, request: Domain, w: Walk, cls: DataClass, t: Step)
    requires Scene(g, request, w) && w.InGrid(t)
    requires cls != UndefinedType ==> exists s :: w.InGrid(s) && g.files[w.Pos(s)].dataClass == cls
    ensures var e := ReadFailure(g.files[w.Pos(t)], cls); e.Some? ==> Blames(g, w, e.value)
  {}

  /**
   * DomainCollector::readDomainDataForRank: reports whether the file meets the request and adds its
   * contribution to the container.
   */
  method ReadDomainDataForRank<T>(g: FileGrid<T>, c: Container<T>, request: Domain, cls0: DataClass, pos: Dims, fill: T,
                                  ghost w: Walk, ghost t: Step, ghost trace: seq<Step>)
    returns (error: Option<ReadError>, hit: bool, cls: DataClass)
    requires Scene(g, request, w) && w.InGrid(t) && pos == w.Pos(t) && Holds(c, g, request, w, fill, cls0, trace)
    modifies c, c.Buffers()
    ensures error.Some? ==> Blames(g, w, error.value)
    ensures error == Some(SizeMismatch) <==> g.files[pos].dataClass == GridType && DataSize(g.files[pos].data) != g.files[pos].size
    ensures error == Some(InconsistentClasses) <==> error != Some(SizeMismatch) && cls0 != UndefinedType && g.files[pos].dataClass != cls0
    ensures error.None? ==> hit == w.Hit(t) && cls == g.files[pos].dataClass
    ensures error.None? ==> Holds(c, g, request, w, fill, cls, if hit then trace + [t] else trace)
    ensures fresh(c.Buffers() - old(c.Buffers()))
  {
    error, hit, cls := None, false, cls0;
    var f := g.files[pos];
    assert FileOk(f, request, w.Hit(t));
    FailureBlames(g, request, w, cls0, t);
    var dataSize := DataSize(f.data);
    ProductPositive(f.size[0], f.size[1], f.size[2]);
    assert f.FileDomain().size[0] > 0 && f.FileDomain().size[1] > 0 && f.FileDomain().size[2] > 0;
    var emptyRequest := ScalarSize(dataSize) == 1 && ScalarSize(f.size) == 0;
    if f.dataClass == GridType && dataSize != f.size && !emptyRequest {
      error := Some(SizeMismatch);
      return;
    }
    if cls == UndefinedType {
      cls := f.dataClass;
    } else if f.dataClass != cls {
      error := Some(InconsistentClasses);
      return;
    }
    if TestIntersection(request, f.FileDomain()) {
      hit := true;
      match cls {
        case PolyType =>
          LoadPoly(g, c, request, f, fill, w, t, trace);
        case GridType =>
          LoadGrid(g, c, request, f, fill, w, t, trace);
        case UndefinedType =>
          assert false;
      }
    }
  }

  method LoadPoly<T>(g: FileGrid<T>, c: Container<T>, request: Domain, f: File<T>, fill: T, ghost w: Walk, ghost t: Step, ghost trace: seq<Step>)
    requires Scene(g, request, w) && w.InGrid(t) && f == g.files[w.Pos(t)] && f.dataClass == PolyType
    requires c.Valid() && PolyTrace(c, g, request, w, trace)
    modifies c
    ensures c.Valid() && PolyTrace(c, g, request, w, trace + [t])
    ensures fresh(c.Buffers() - old(c.Buffers()))
  {
    ghost var before := c.subdomains;
    assert FileOk(f, request, w.Hit(t));
    assert w.Pos(t) in g.files && f.FileDomain().Positive() && f.data.Ok();
    hide Scene, FileOk, PolyLoaded, Container.Valid, DataSize, TestIntersection;
    ReadPolyInternal(c, f, fill);
    forall k | 0 <= k < |trace| + 1
      ensures var s := (trace + [t])[k];
        && w.InGrid(s) && g.files[w.Pos(s)].dataClass == PolyType && c.subdomains[k] in c.subdomains
        && PolyLoaded(c.subdomains[k], g.files[w.Pos(s)])
    {
      if k < |trace| {
        assert c.subdomains[k] == before[k] && before[k] in before;
        assert (trace + [t])[k] == trace[k];
      }
    }
  }

  method LoadGrid<T>(g: FileGrid<T>, c: Container<T>, request: Domain, f: File<T>, fill: T, ghost w: Walk, ghost t: Step, ghost trace: seq<Step>)
    requires Scene(g, request, w) && w.InGrid(t) && f == g.files[w.Pos(t)] && f.dataClass == GridType && DataSize(f.data) == f.size
    requires c.Valid() && GridTrace(c, g, request, w, fill, trace) && TestIntersection(request, f.FileDomain())
    modifies c, c.Buffers()
    ensures c.Valid() && GridTrace(c, g, request, w, fill, trace + [t])
    ensures fresh(c.Buffers() - old(c.Buffers()))
  {
    assert FileOk(f, request, w.Hit(t));
    ReadGridInternal(c, f, request, fill);
    LoadOneMore(g, request, w, trace, t, fill);
  }

  lemma LoadOneMore<T>(g: FileGrid<T>, request: Domain, w: Walk, trace: seq<Step>, t: Step, fill: T)
    requires AllGrid(g, w, trace) && w.InGrid(t) && w.Pos(t) in g.files && GridFile(g.files[w.Pos(t)])
    ensures AllGrid(g, w, trace + [t])
    ensures LoadAll(g, request, w, trace + [t], fill) == LoadFile(LoadAll(g, request, w, trace, fill), request, g.files[w.Pos(t)])
    ensures |trace| == 0 ==> LoadAll(g, request, w, trace, fill) == Blank(request, fill)
  {}

  /** Two files, one after the other. */
  lemma LoadTwo<T>(g: FileGrid<T>, request: Domain, w: Walk, t: Step, t': Step, fill: T)
    requires AllGrid(g, w, [t, t'])
    ensures w.Pos(t) in g.files && w.Pos(t') in g.files && GridFile(g.files[w.Pos(t)]) && GridFile(g.files[w.Pos(t')])
    ensures LoadAll(g, request, w, [t, t'], fill)
         == LoadFile(LoadFile(Blank(request, fill), request, g.files[w.Pos(t)]), request, g.files[w.Pos(t')])
  {
    hide LoadFile, GridFile, LoadAll, Blank, Prod, Phys;
    assert t in [t, t'] && t' in [t, t'];
    LoadOneMore(g, request, w, [], t, fill);
    LoadOneMore(g, request, w, [t], t', fill);
    assert [] + [t] == [t] && [t] + [t'] == [t, t'];
  }

  // ---- Rows, planes, everything -------------------------------------------------------------------

  /** Where row b of plane d stands in the walk: it is to be loaded, or it is the first one found empty. */
  ghost predicate RowToScan(w: Walk, b: nat, d: nat) {
    && b < w.n[1] && d < w.n[2] && d <= w.c[2] && b <= w.c[1]
    && (d == w.c[2] ==> b == 0)
    && (b == w.c[1] ==> d == 0)
  }

  /** The value of max_dims[0]: cut by the first row. */
  ghost function RowEnd(w: Walk, b: nat, d: nat): nat
    requires w.Valid()
  {
    assert 1 <= w.c[0] <= w.n[0];
    Rel(w.s[0], (if b == 0 && d == 0 then w.n[0] else w.c[0]) - 1, w.n[0])
  }

  /** The result of scanning row b of plane d from the given y and max_dims. */
  ghost predicate RowScanned(w: Walk, b: nat, d: nat, y0: nat, max0: Dims, trace0: seq<Step>,
                             y: nat, max: Dims, foundLast: bool, trace: seq<Step>)
    requires w.Valid()
  {
    if d == w.c[2] then foundLast && trace == trace0
    else if b < w.c[1] then
      && !foundLast && y == y0 && trace == trace0 + Row(0, w.c[0], b, d)
      && max == max0[0 := Rel(w.s[0], w.c[0] - 1, w.n[0])]
    else
      && !foundLast && y == Rel(w.s[1], w.c[1] - 1, w.n[1]) && trace == trace0 + Row(1, w.c[0], w.c[1] - 1, 0)
      && max == max0[1 := y]
  }

  /** The state at the head of the x loop after a files; `cut` once the y axis has been cut in this row. */
  ghost predicate InRow(w: Walk, b: nat, d: nat, y0: nat, max0: Dims, trace0: seq<Step>,
                        a: nat, cut: bool, y: nat, max: Dims, trace: seq<Step>)
    requires w.Valid()
  {
    && a < w.n[0]
    && (!cut ==>
          && y == y0 && max == max0 && trace == trace0 + Row(0, a, b, d)
          && (d == w.c[2] || b == w.c[1] ==> a == 0)
          && (d < w.c[2] && b < w.c[1] ==> a <= w.c[0] && (a == w.c[0] ==> b == 0 && d == 0)))
    && (cut ==>
          && b == w.c[1] && d == 0 && 1 <= a < w.c[0] && y == Rel(w.s[1], w.c[1] - 1, w.n[1])
          && max == max0[1 := y] && trace == trace0 + Row(1, a, w.c[1] - 1, 0))
  }

  /** The file that the x loop looks at. */
  ghost function Looked(w: Walk, b: nat, d: nat, a: nat, cut: bool): Step {
    if cut then Step(a, if w.c[1] > 0 then w.c[1] - 1 else 0, 0) else Step(a, b, d)
  }

  /** A file that meets the request is passed: the loop goes on, or the row is done. */
  lemma RowHit(w: Walk, b: nat, d: nat, y0: nat, max0: Dims, trace0: seq<Step>,
               a: nat, cut: bool, y: nat, max: Dims, trace: seq<Step>)
    requires w.Valid() && RowToScan(w, b, d) && max0[0] == RowEnd(w, b, d)
    requires InRow(w, b, d, y0, max0, trace0, a, cut, y, max, trace) && w.Hit(Looked(w, b, d, a, cut))
    ensures var x := Rel(w.s[0], a, w.n[0]);
            var trace' := trace + [Looked(w, b, d, a, cut)];
            && (x != max[0] ==> InRow(w, b, d, y0, max0, trace0, a + 1, cut, y, max, trace'))
            && (x == max[0] ==> RowScanned(w, b, d, y0, max0, trace0, y, max, false, trace'))
  {}

  /** A file of the row that does not meet the request: max_dims is cut, or everything has been found. */
  lemma RowMiss(w: Walk, b: nat, d: nat, y0: nat, max0: Dims, trace0: seq<Step>,
                a: nat, cut: bool, y: nat, max: Dims, trace: seq<Step>)
    requires w.Valid() && RowToScan(w, b, d) && max0[0] == RowEnd(w, b, d)
    requires y0 == Rel(w.s[1], b, w.n[1])
    requires InRow(w, b, d, y0, max0, trace0, a, cut, y, max, trace) && !w.Hit(Looked(w, b, d, a, cut))
    ensures !cut && y < w.n[1]
    ensures Rel(w.s[2], d, w.n[2]) != w.s[2] ==> RowScanned(w, b, d, y0, max0, trace0, y, max, true, trace)
    ensures Rel(w.s[2], d, w.n[2]) == w.s[2] && y == w.s[1] ==>
              RowScanned(w, b, d, y0, max0, trace0, y, max[0 := (Rel(w.s[0], a, w.n[0]) + w.n[0] - 1) % w.n[0]], false, trace)
    ensures Rel(w.s[2], d, w.n[2]) == w.s[2] && y != w.s[1] ==>
              var y' := (y + w.n[1] - 1) % w.n[1];
              && (Rel(w.s[0], a, w.n[0]) != max[0] ==> InRow(w, b, d, y0, max0, trace0, a + 1, true, y', max[1 := y'], trace))
              && (Rel(w.s[0], a, w.n[0]) == max[0] ==> RowScanned(w, b, d, y0, max0, trace0, y', max[1 := y'], false, trace))
  {
    assert w.s[0] < w.n[0] && w.s[1] < w.n[1] && w.s[2] < w.n[2];
    assert 1 <= w.c[0] <= w.n[0] && 1 <= w.c[1] <= w.n[1] && 1 <= w.c[2] <= w.n[2];
    if d == w.c[2] {
      assert Row(0, 0, b, d) == [];
    } else if b < w.c[1] {
      RelBefore(w.s[0], a, w.n[0]);
    } else {
      RelBefore(w.s[1], b, w.n[1]);
      assert Row(0, 0, b, d) == [] && Row(1, 1, w.c[1] - 1, 0) == [];
    }
  }

  /** What the x loop has at hand after a file: x, y, max_dims and whether the last entry was found. */
  datatype Range = Range(x: nat, y: nat, max: Dims, foundLast: bool)

  /**
   * What the x loop does with the answer for the file at x: without a hit the range is cut in the
   * dimension that is being extended, or, outside the first plane, the whole walk is over.
   */
  function CutRange(mpiSize: Dims, start: Dims, x: nat, y: nat, z: nat, max: Dims, hit: bool): Range
    requires x < mpiSize[0] && y < mpiSize[1]
  {
    if hit then Range(x, y, max, false)
    else if z != start[2] then Range(x, y, max, true)
    else if y == start[1] then
      var last := (x + mpiSize[0] - 1) % mpiSize[0];
      Range(last, y, max[0 := last], false)
    else
      var last := (y + mpiSize[1] - 1) % mpiSize[1];
      Range(x, last, max[1 := last], false)
  }

  lemma RangeCut(w: Walk, b: nat, d: nat, rowY: nat, rowMax: Dims, trace0: seq<Step>, a: nat, cut: bool,
                 mpiSize: Dims, start: Dims, x: nat, y: nat, z: nat, max: Dims, hit: bool, trace: seq<Step>, r: Range, trace': seq<Step>)
    requires w.Valid() && RowToScan(w, b, d) && rowMax[0] == RowEnd(w, b, d) && rowY == Rel(w.s[1], b, w.n[1])
    requires InRow(w, b, d, rowY, rowMax, trace0, a, cut, y, max, trace)
    requires mpiSize == w.n && start == w.s && x == Rel(w.s[0], a, w.n[0]) < w.n[0] && y < w.n[1] && z == Rel(w.s[2], d, w.n[2])
    requires hit == w.Hit(Looked(w, b, d, a, cut)) && r == CutRange(mpiSize, start, x, y, z, max, hit)
    requires trace' == if hit then trace + [Looked(w, b, d, a, cut)] else trace
    ensures r.foundLast || r.x == r.max[0] ==> RowScanned(w, b, d, rowY, rowMax, trace0, r.y, r.max, r.foundLast, trace')
    ensures !r.foundLast && r.x != r.max[0] ==> InRow(w, b, d, rowY, rowMax, trace0, a + 1, cut || !hit, r.y, r.max, trace')
  {
    if hit {
      RowHit(w, b, d, rowY, rowMax, trace0, a, cut, y, max, trace);
    } else {
      RowMiss(w, b, d, rowY, rowMax, trace0, a, cut, y, max, trace);
    }
  }

  /** The file looked at is one of the grid's. */
  lemma LookedInGrid(w: Walk, b: nat, d: nat, y0: nat, max0: Dims, trace0: seq<Step>,
                     a: nat, cut: bool, y: nat, max: Dims, trace: seq<Step>)
    requires w.Valid() && RowToScan(w, b, d) && InRow(w, b, d, y0, max0, trace0, a, cut, y, max, trace)
    requires y0 == Rel(w.s[1], b, w.n[1])
    ensures a < w.n[0] && y < w.n[1] && w.InGrid(Looked(w, b, d, a, cut))
    ensures w.Pos(Looked(w, b, d, a, cut)) == [Rel(w.s[0], a, w.n[0]), y, Rel(w.s[2], d, w.n[2])]
  {}

  /** The x loop. */
  method ScanRow<T>(g: FileGrid<T>, c: Container<T>, request: Domain, cls0: DataClass, fill: T,
                    start: Dims, y0: nat, z: nat, max0: Dims, ghost w: Walk, ghost b: nat, ghost d: nat, ghost trace0: seq<Step>)
    returns (error: Option<ReadError>, cls: DataClass, y: nat, max: Dims, foundLast: bool, ghost trace: seq<Step>)
    requires Scene(g, request, w) && start == w.s && RowToScan(w, b, d) && max0[0] == RowEnd(w, b, d)
    requires y0 == Rel(w.s[1], b, w.n[1]) && z == Rel(w.s[2], d, w.n[2])
    requires Holds(c, g, request, w, fill, cls0, trace0)
    modifies c, c.Buffers()
    ensures error.Some? ==> Blames(g, w, error.value)
    ensures error.None? ==> Holds(c, g, request, w, fill, cls, trace)
    ensures error.None? ==> RowScanned(w, b, d, y0, max0, trace0, y, max, foundLast, trace)
    ensures fresh(c.Buffers() - old(c.Buffers()))
  {
    hide Scene, Holds, InRow, RowScanned, CutRange, Blames;
    SceneShape(g, request, w);
    cls, y, max, trace := cls0, y0, max0, trace0;
    var xLin := start[0];
    ghost var a, cut := 0, false;
    RowBegins(w, b, d, y0, max0, trace0);
    while true
      invariant xLin == start[0] + a
      invariant InRow(w, b, d, y0, max0, trace0, a, cut, y, max, trace)
      invariant Holds(c, g, request, w, fill, cls, trace)
      invariant fresh(c.Buffers() - old(c.Buffers()))
      decreases if a < w.n[0] then w.n[0] - a else 0
    {
      LookedInGrid(w, b, d, y0, max0, trace0, a, cut, y, max, trace);
      RelIsModulo(w.s[0], a, w.n[0]);
      var x := xLin % g.mpiSize[0];
      ghost var t := Looked(w, b, d, a, cut);
      var hit;
      error, hit, cls := ReadDomainDataForRank(g, c, request, cls, [x, y, z], fill, w, t, trace);
      if error.Some? {
        foundLast := false;
        return;
      }
      var r := CutRange(g.mpiSize, start, x, y, z, max, hit);
      ghost var trace' := if hit then trace + [t] else trace;
      RangeCut(w, b, d, y0, max0, trace0, a, cut, g.mpiSize, start, x, y, z, max, hit, trace, r, trace');
      y, max, foundLast, trace := r.y, r.max, r.foundLast, trace';
      cut := cut || !hit;
      if foundLast {
        break;
      }
      xLin := xLin + 1;
      a := a + 1;
      if !(r.x != max[0]) {
        break;
      }
    }
  }

  lemma SceneShape<T>(g: FileGrid<T>, request: Domain, w: Walk)
    requires Scene(g, request, w)
    ensures w.Valid() && request.Positive() && g.mpiSize == w.n
    ensures forall i | 0 <= i < AXES :: w.s[i] < w.n[i]
  {}

  lemma RowBegins(w: Walk, b: nat, d: nat, y0: nat, max0: Dims, trace0: seq<Step>)
    requires w.Valid() && RowToScan(w, b, d)
    ensures InRow(w, b, d, y0, max0, trace0, 0, false, y0, max0, trace0)
  {}

  /** The state at the head of the y loop before row b. */
  ghost predicate InPlane(w: Walk, d: nat, max0: Dims, trace0: seq<Step>, b: nat, max: Dims, trace: seq<Step>)
    requires w.Valid()
  {
    && RowToScan(w, b, d)
    && max[0] == RowEnd(w, b, d) && max[1] == max0[1] && max[2] == max0[2]
    && trace == trace0 + Rows(w.c[0], b, d)
  }

  /** The value of max_dims[1]: cut by the first plane. */
  ghost function PlaneEnd(w: Walk, d: nat): nat
    requires w.Valid()
  {
    assert 1 <= w.c[1] <= w.n[1];
    Rel(w.s[1], (if d == 0 then w.n[1] else w.c[1]) - 1, w.n[1])
  }

  ghost predicate PlaneScanned(w: Walk, d: nat, max0: Dims, trace0: seq<Step>, max: Dims, foundLast: bool, trace: seq<Step>)
    requires w.Valid()
  {
    assert 1 <= w.c[0] && 1 <= w.c[1];
    if d == w.c[2] then foundLast && trace == trace0
    else
      && !foundLast && trace == trace0 + Plane(w, d) && max[2] == max0[2]
      && max[0] == Rel(w.s[0], w.c[0] - 1, w.n[0]) && max[1] == Rel(w.s[1], w.c[1] - 1, w.n[1])
  }

  lemma PlaneBegins(w: Walk, d: nat, max0: Dims, trace0: seq<Step>)
    requires w.Valid() && d < w.n[2] && d <= w.c[2] && max0[0] == RowEnd(w, 0, d)
    ensures InPlane(w, d, max0, trace0, 0, max0, trace0)
  {}

  /** After a row the y loop goes on with the next one, or the plane is done. */
  lemma PlaneStep(w: Walk, d: nat, max0: Dims, trace0: seq<Step>, b: nat, y0: nat, max: Dims, trace: seq<Step>,
                  y: nat, max': Dims, foundLast: bool, trace': seq<Step>)
    requires w.Valid() && InPlane(w, d, max0, trace0, b, max, trace) && max0[1] == PlaneEnd(w, d) && y0 == Rel(w.s[1], b, w.n[1])
    requires RowScanned(w, b, d, y0, max, trace, y, max', foundLast, trace')
    ensures foundLast || y == max'[1] ==> PlaneScanned(w, d, max0, trace0, max', foundLast, trace')
    ensures !foundLast && y != max'[1] ==> InPlane(w, d, max0, trace0, b + 1, max', trace')
  {}

  lemma InPlaneShape(w: Walk, d: nat, max0: Dims, trace0: seq<Step>, b: nat, max: Dims, trace: seq<Step>)
    requires w.Valid() && InPlane(w, d, max0, trace0, b, max, trace)
    ensures RowToScan(w, b, d) && b < w.n[1] && max[0] == RowEnd(w, b, d)
  {}

  /** The y loop. */
  method ScanPlane<T>(g: FileGrid<T>, c: Container<T>, request: Domain, cls0: DataClass, fill: T,
                      start: Dims, z: nat, max0: Dims, ghost w: Walk, ghost d: nat, ghost trace0: seq<Step>)
    returns (error: Option<ReadError>, cls: DataClass, max: Dims, foundLast: bool, ghost trace: seq<Step>)
    requires Scene(g, request, w) && start == w.s && d < w.n[2] && d <= w.c[2] && z == Rel(w.s[2], d, w.n[2])
    requires max0[0] == RowEnd(w, 0, d) && max0[1] == PlaneEnd(w, d)
    requires Holds(c, g, request, w, fill, cls0, trace0)
    modifies c, c.Buffers()
    ensures error.Some? ==> Blames(g, w, error.value)
    ensures error.None? ==> Holds(c, g, request, w, fill, cls, trace)
    ensures error.None? ==> PlaneScanned(w, d, max0, trace0, max, foundLast, trace)
    ensures fresh(c.Buffers() - old(c.Buffers()))
  {
    hide Scene, Holds, InPlane, PlaneScanned, RowScanned, Blames, RowEnd, PlaneEnd, RowToScan;
    SceneShape(g, request, w);
    cls, max, trace := cls0, max0, trace0;
    var yLin := start[1];
    ghost var b := 0;
    PlaneBegins(w, d, max0, trace0);
    while true
      invariant yLin == start[1] + b
      invariant InPlane(w, d, max0, trace0, b, max, trace)
      invariant Holds(c, g, request, w, fill, cls, trace)
      invariant fresh(c.Buffers() - old(c.Buffers()))
      decreases if b < w.n[1] then w.n[1] - b else 0
    {
      InPlaneShape(w, d, max0, trace0, b, max, trace);
      RelIsModulo(w.s[1], b, w.n[1]);
      var y := yLin % g.mpiSize[1];
      ghost var y0, max1, trace1 := y, max, trace;
      error, cls, y, max, foundLast, trace := ScanRow(g, c, request, cls, fill, start, y, z, max, w, b, d, trace);
      if error.Some? {
        return;
      }
      PlaneStep(w, d, max0, trace0, b, y0, max1, trace1, y, max, foundLast, trace);
      if foundLast {
        break;
      }
      yLin := yLin + 1;
      b := b + 1;
      if !(y != max[1]) {
        break;
      }
    }
  }

  /** The state at the head of the z loop before plane d. */
  ghost predicate InGridWalk(w: Walk, d: nat, max: Dims, trace: seq<Step>)
    requires w.Valid()
  {
    && d < w.n[2] && d <= w.c[2] && trace == Planes(w, d)
    && max[0] == RowEnd(w, 0, d) && max[1] == PlaneEnd(w, d) && max[2] == Rel(w.s[2], w.n[2] - 1, w.n[2])
  }

  /** After a plane the z loop goes on with the next one, or everything has been loaded. */
  lemma WalkStep(w: Walk, d: nat, z: nat, max: Dims, trace: seq<Step>, max': Dims, foundLast: bool, trace': seq<Step>)
    requires w.Valid() && InGridWalk(w, d, max, trace) && z == Rel(w.s[2], d, w.n[2])
    requires PlaneScanned(w, d, max, trace, max', foundLast, trace')
    ensures foundLast || z == max'[2] ==> trace' == Trace(w)
    ensures !foundLast && z != max'[2] ==> InGridWalk(w, d + 1, max', trace')
  {}

  lemma WalkBegins(w: Walk, max: Dims)
    requires w.Valid() && forall i | 0 <= i < AXES :: max[i] == (w.s[i] + w.n[i] - 1) % w.n[i]
    ensures InGridWalk(w, 0, max, [])
  {
    assert w.s[0] < w.n[0] && w.s[1] < w.n[1] && w.s[2] < w.n[2];
    RelIsModulo(w.s[0], w.n[0] - 1, w.n[0]);
    RelIsModulo(w.s[1], w.n[1] - 1, w.n[1]);
    RelIsModulo(w.s[2], w.n[2] - 1, w.n[2]);
  }

  lemma InGridWalkShape(w: Walk, d: nat, max: Dims, trace: seq<Step>)
    requires w.Valid() && InGridWalk(w, d, max, trace)
    ensures d < w.n[2] && d <= w.c[2] && max[0] == RowEnd(w, 0, d) && max[1] == PlaneEnd(w, d)
  {}

  /** The z loop: everything that meets the request is loaded, in the order of the trace. */
  method ScanFiles<T>(g: FileGrid<T>, c: Container<T>, request: Domain, fill: T, start: Dims, max0: Dims, ghost w: Walk)
    returns (error: Option<ReadError>, cls: DataClass)
    requires Scene(g, request, w) && start == w.s && c.Valid() && c.subdomains == []
    requires forall i | 0 <= i < AXES :: max0[i] == (w.s[i] + w.n[i] - 1) % w.n[i]
    modifies c
    ensures error.Some? ==> Blames(g, w, error.value)
    ensures error.None? ==> Holds(c, g, request, w, fill, cls, Trace(w))
    ensures fresh(c.Buffers())
  {
    hide Scene, Holds, InGridWalk, PlaneScanned, Blames, RowEnd, PlaneEnd, Container.Valid, Trace;
    cls := UndefinedType;
    HoldsNothing(g, c, request, w, fill);
    SceneShape(g, request, w);
    var max := max0;
    ghost var trace, d: nat := [], 0;
    var zLin := start[2];
    WalkBegins(w, max);
    while true
      invariant zLin == start[2] + d
      invariant InGridWalk(w, d, max, trace)
      invariant Holds(c, g, request, w, fill, cls, trace)
      invariant fresh(c.Buffers())
      decreases if d < w.n[2] then w.n[2] - d else 0
    {
      InGridWalkShape(w, d, max, trace);
      RelIsModulo(w.s[2], d, w.n[2]);
      var z := zLin % g.mpiSize[2];
      ghost var max1, trace1 := max, trace;
      var foundLast;
      error, cls, max, foundLast, trace := ScanPlane(g, c, request, cls, fill, start, z, max, w, d, trace);
      if error.Some? {
        return;
      }
      WalkStep(w, d, z, max1, trace1, max, foundLast, trace);
      if foundLast {
        break;
      }
      zLin := zLin + 1;
      d := d + 1;
      if !(z != max[2]) {
        break;
      }
    }
  }
}
