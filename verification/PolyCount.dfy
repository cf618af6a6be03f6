/** How many elements a merged read of Poly data returns, with the files that are loaded twice. */
module PolyCount {
  import opened Geometry
  import opened DataSet
  import opened FileGrid
  import opened DataContainer
  import opened FileRead
  import opened Traversal
  import opened DomainCollector

  /** The walk without the row that is visited again. */
  function PlanesOnce(w: Walk, k: nat): seq<Step> {
    if k == 0 then [] else PlanesOnce(w, k - 1) + Rows(w.c[0], w.c[1], k - 1)
  }

  lemma {:induction false} OnceEach(w: Walk, k: nat, t: Step)
    ensures Times(PlanesOnce(w, k), t) == Count(t.a < w.c[0] && t.b < w.c[1] && t.d < k)
    decreases k
  {
    if k > 0 {
      OnceEach(w, k - 1, t);
      CountRows(w.c[0], w.c[1], k - 1, t);
      TimesAppended(PlanesOnce(w, k - 1), Rows(w.c[0], w.c[1], k - 1), t);
    }
  }

  ghost predicate Readable<T>(g: FileGrid<T>, w: Walk, trace: seq<Step>) {
    forall t | t in trace :: w.Pos(t) in g.files && g.files[w.Pos(t)].data.Ok()
  }

  /** What the files of a trace contribute; a dataset without cells counts as one element. */
  ghost function Elements<T>(g: FileGrid<T>, w: Walk, trace: seq<Step>): nat
    requires Readable(g, w, trace)
    decreases |trace|
  {
    if |trace| == 0 then 0
    else
      var n := |trace| - 1;
      assert trace[n] in trace;
      Elements(g, w, trace[..n]) + ScalarSize(DataSize(g.files[w.Pos(trace[n])].data))
  }

  lemma {:induction false} ElementsAppended<T>(g: FileGrid<T>, w: Walk, x: seq<Step>, y: seq<Step>)
    requires Readable(g, w, x) && Readable(g, w, y)
    ensures Readable(g, w, x + y) && Elements(g, w, x + y) == Elements(g, w, x) + Elements(g, w, y)
    decreases |y|
  {
    if |y| == 0 {
      assert x + y == x;
    } else {
      var m := |y| - 1;
      assert (x + y)[..|x| + m] == x + y[..m];
      ElementsAppended(g, w, x, y[..m]);
    }
  }

  /** Every file contributes something, be it the element of a dataset without cells. */
  lemma SomeElement<T>(g: FileGrid<T>, w: Walk, trace: seq<Step>)
    requires Readable(g, w, trace)
    ensures Elements(g, w, trace) == 0 <==> |trace| == 0
  {
    if |trace| > 0 {
      var f := g.files[w.Pos(trace[|trace| - 1])];
      assert trace[|trace| - 1] in trace;
      if f.data.Simple? {
        WholeFits(f.data);
      }
    }
  }

  lemma {:induction false} RevisitedIsExtra<T>(g: FileGrid<T>, w: Walk, k: nat)
    requires Readable(g, w, Planes(w, k))
    ensures Readable(g, w, PlanesOnce(w, k)) && (k > 0 ==> Readable(g, w, Revisited(w)))
    ensures Elements(g, w, Planes(w, k)) == Elements(g, w, PlanesOnce(w, k)) + if k > 0 then Elements(g, w, Revisited(w)) else 0
    decreases k
  {
    if k > 0 {
      var front, row, again := Planes(w, k - 1), Rows(w.c[0], w.c[1], k - 1), if k == 1 then Revisited(w) else [];
      assert Plane(w, k - 1) == row + again && Planes(w, k) == front + (row + again);
      assert Readable(g, w, front) && Readable(g, w, row) && Readable(g, w, again);
      RevisitedIsExtra(g, w, k - 1);
      ElementsAppended(g, w, row, again);
      ElementsAppended(g, w, front, row + again);
      ElementsAppended(g, w, PlanesOnce(w, k - 1), row);
    }
  }

  lemma RowIsEmpty(lo: nat, hi: nat, b: nat, d: nat)
    ensures Row(lo, hi, b, d) == [] <==> hi <= lo
  {}

  lemma SubdomainElements<T>(g: FileGrid<T>, c: Container<T>, w: Walk, k: nat)
    requires MergedPoly(g, c, w) && k < |Trace(w)|
    ensures |c.subdomains| == |Trace(w)|
    ensures w.Pos(Trace(w)[k]) in g.files && g.files[w.Pos(Trace(w)[k])].data.Ok()
    ensures c.subdomains[k].data.Length == ScalarSize(DataSize(g.files[w.Pos(Trace(w)[k])].data))
  {}

  lemma TraceReadable<T>(g: FileGrid<T>, c: Container<T>, w: Walk)
    requires MergedPoly(g, c, w)
    ensures Readable(g, w, Trace(w)) && |c.subdomains| == |Trace(w)|
  {}

  /** getNumElements may be called on a Poly result. */
  lemma PolyFilled<T>(g: FileGrid<T>, c: Container<T>, w: Walk)
    requires MergedPoly(g, c, w)
    ensures c.Filled()
  {
    forall s | s in c.subdomains ensures s.data.Length == ScalarSize(s.elements) {
      var k :| 0 <= k < |c.subdomains| && c.subdomains[k] == s;
      assert PolyLoaded(c.subdomains[k], g.files[w.Pos(Trace(w)[k])]);
    }
  }

  /** The container of a Poly result has the elements of the trace. */
  lemma {:induction false} ContainerElements<T>(g: FileGrid<T>, c: Container<T>, w: Walk, trace: seq<Step>, k: nat)
    requires Readable(g, w, trace) && |c.subdomains| == |trace| && k <= |trace|
    requires forall i | 0 <= i < |trace| ::
               trace[i] in trace && c.subdomains[i].data.Length == ScalarSize(DataSize(g.files[w.Pos(trace[i])].data))
    ensures Readable(g, w, trace[..k]) && |Flattened(c.subdomains[..k])| == Elements(g, w, trace[..k])
    decreases k
  {
    if k > 0 {
      ContainerElements(g, c, w, trace, k - 1);
      FlattenedStep(c.subdomains, k - 1);
      assert trace[..k][..k - 1] == trace[..k - 1];
    }
  }

  lemma PolyElements<T>(g: FileGrid<T>, c: Container<T>, w: Walk)
    requires MergedPoly(g, c, w)
    ensures Readable(g, w, Trace(w)) && |Flattened(c.subdomains)| == Elements(g, w, Trace(w))
  {
    hide MergedPoly, Trace, Readable;
    TraceReadable(g, c, w);
    forall i | 0 <= i < |Trace(w)|
      ensures Trace(w)[i] in Trace(w) && w.Pos(Trace(w)[i]) in g.files && g.files[w.Pos(Trace(w)[i])].data.Ok()
      ensures c.subdomains[i].data.Length == ScalarSize(DataSize(g.files[w.Pos(Trace(w)[i])].data))
    {
      SubdomainElements(g, c, w, i);
    }
    hide DataSize, ScalarSize;
    ContainerElements(g, c, w, Trace(w), |Trace(w)|);
    assert Trace(w)[..|Trace(w)|] == Trace(w) && c.subdomains[..|c.subdomains|] == c.subdomains;
  }

  /**
   * getNumElements of a Poly result counts every file that meets the request once, and those of the row that
   * is visited again once more; it counts none twice exactly when the y axis is not cut or a row has one
   * file to load.
   */
  lemma CountedOnceOnWalk<T>(g: FileGrid<T>, c: Container<T>, w: Walk)
    requires w.Valid() && MergedPoly(g, c, w)
    ensures Readable(g, w, PlanesOnce(w, w.c[2])) && Readable(g, w, Revisited(w))
    ensures |Flattened(c.subdomains)| == Elements(g, w, PlanesOnce(w, w.c[2])) + Elements(g, w, Revisited(w))
    ensures |Flattened(c.subdomains)| == Elements(g, w, PlanesOnce(w, w.c[2])) <==> w.c[1] == w.n[1] || w.c[0] == 1
    ensures forall t :: Times(PlanesOnce(w, w.c[2]), t) == Count(w.Hit(t))
  {
    hide MergedPoly, Readable, Elements, DataSize;
    PolyElements(g, c, w);
    assert w.c[0] >= 1 && 1 <= w.c[1] <= w.n[1] && w.c[2] >= 1;
    RevisitedIsExtra(g, w, w.c[2]);
    SomeElement(g, w, Revisited(w));
    RowIsEmpty(1, w.c[0], w.c[1] - 1, 0);
    forall t ensures Times(PlanesOnce(w, w.c[2]), t) == Count(w.Hit(t)) {
      OnceEach(w, w.c[2], t);
    }
  }

  // ---- In terms of the cuts and the request -------------------------------------------------------

  /** The request meets every interval of the axis: it begins in the first or before, and reaches into the last. */
  predicate MeetsAll(a: Axis, request: Domain, i: nat)
    requires a.Valid() && i < AXES
  {
    request.offset[i] < a.cuts[1] && a.cuts[a.N() - 1] < request.offset[i] + request.size[i]
  }

  /** No cut of the axis lies inside the request. */
  predicate MeetsOne(a: Axis, request: Domain, i: nat)
    requires a.Valid() && i < AXES
  {
    forall r | 0 < r < a.N() :: a.cuts[r] <= request.offset[i] || request.offset[i] + request.size[i] <= a.cuts[r]
  }

  lemma SpanOfCuts(a: Axis, s: nat, request: Domain, i: nat)
    requires a.Valid() && i < AXES && s < a.N() && a.Owns(s, request.offset[i]) && request.size[i] > 0
    ensures Span(a, a.Rank(s), request.offset[i] + request.size[i]) == a.N() <==> MeetsAll(a, request, i)
    ensures Span(a, a.Rank(s), request.offset[i] + request.size[i]) == 1 <==> MeetsOne(a, request, i)
  {
    var r, end := a.Rank(s), request.offset[i] + request.size[i];
    var n := Span(a, r, end);
    SpanCounts(a, r, end);
    if n == a.N() {
      assert r == 0 && a.cuts[a.N() - 1] < end;
    } else if r > 0 {
      assert a.cuts[1] <= a.cuts[r];
    } else {
      assert a.cuts[n] >= end && a.cuts[n] <= a.cuts[a.N() - 1];
    }
    if n > 1 {
      assert request.offset[i] < a.cuts[r + 1] < end;
    } else {
      forall k | 0 < k < a.N() ensures a.cuts[k] <= request.offset[i] || end <= a.cuts[k] {
        assert k <= r ==> a.cuts[k] <= a.cuts[r];
      }
    }
  }

  /**
   * So for the result of a read no element counts twice exactly when the request meets every interval of the y axis
   * or no cut of the x axis lies inside it.
   */
  lemma CountedOnceExactly<T>(g: FileGrid<T>, ax: seq<Axis>, request: Domain, c: Container<T>, w: Walk)
    requires Regular(g, ax) && request.Positive() && WalksFromStart(g, ax, request, w) && MergedPoly(g, c, w)
    ensures Readable(g, w, PlanesOnce(w, w.c[2])) && Readable(g, w, Revisited(w))
    ensures |Flattened(c.subdomains)| == Elements(g, w, PlanesOnce(w, w.c[2])) + Elements(g, w, Revisited(w))
    ensures |Flattened(c.subdomains)| == Elements(g, w, PlanesOnce(w, w.c[2]))
       <==> MeetsAll(ax[1], request, 1) || MeetsOne(ax[0], request, 0)
  {
    WalkOnCuts(g, ax, request, w);
    hide Regular, WalksFromStart, MergedPoly, Readable, Elements, MeetsAll, MeetsOne;
    CountedOnceOnWalk(g, c, w);
  }

  lemma WalkOnCuts<T>(g: FileGrid<T>, ax: seq<Axis>, request: Domain, w: Walk)
    requires Regular(g, ax) && request.Positive() && WalksFromStart(g, ax, request, w)
    ensures w.Valid()
    ensures w.c[1] == w.n[1] <==> MeetsAll(ax[1], request, 1)
    ensures w.c[0] == 1 <==> MeetsOne(ax[0], request, 0)
  {
    AxesOf(g, ax);
    hide Regular, MeetsAll, MeetsOne, Span;
    forall i | 0 <= i < AXES ensures ax[i].Owns(w.s[i], request.offset[i]) && request.size[i] > 0 {
    }
    WalkAxes(ax, g.mpiSize, w.s, request, Step(0, 0, 0));
    SpanOfCuts(ax[0], w.s[0], request, 0);
    SpanOfCuts(ax[1], w.s[1], request, 1);
  }
}
