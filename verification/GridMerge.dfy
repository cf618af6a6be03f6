/** What the buffer of a merged read shows after all files of the walk have been loaded into it. */
module GridMerge {
  import opened Geometry
  import opened Hdf5
  import opened DataSet
  import opened FileGrid
  import opened FileRead
  import opened Traversal
  import opened FileScan

  /** The walk goes over all files and knows which of them meet the request. */
  ghost predicate Covers<T>(g: FileGrid<T>, request: Domain, w: Walk)
    requires request.Positive()
  {
    && w.Valid() && w.n == g.mpiSize
    && forall t | w.InGrid(t) ::
         && w.Pos(t) in g.files && g.files[w.Pos(t)].FileDomain().Positive()
         && (w.Hit(t) <==> TestIntersection(request, g.files[w.Pos(t)].FileDomain()))
  }

  /** All files are Grid files that are filled by their data. */
  ghost predicate GridFiles<T>(g: FileGrid<T>) {
    forall pos: Dims | g.InRange(pos) :: pos in g.files && GridFile(g.files[pos])
  }

  ghost predicate Apart<T>(f: File<T>, f': File<T>) {
    forall q: Dims :: f.FileDomain().Contains(q) ==> !f'.FileDomain().Contains(q)
  }

  ghost predicate NoOverlap<T>(g: FileGrid<T>) {
    forall p: Dims, p': Dims | g.InRange(p) && g.InRange(p') && p != p' && p in g.files && p' in g.files ::
      Apart(g.files[p], g.files[p'])
  }

  lemma RegularIsApart<T>(g: FileGrid<T>, ax: seq<Axis>)
    requires Regular(g, ax)
    ensures NoOverlap(g)
  {
    forall p: Dims, p': Dims | g.InRange(p) && g.InRange(p') && p != p' ensures Apart(g.files[p], g.files[p']) {
      FileAt(g, ax, p);
      FileAt(g, ax, p');
      forall q: Dims | g.files[p].FileDomain().Contains(q) ensures !g.files[p'].FileDomain().Contains(q) {
        if g.files[p'].FileDomain().Contains(q) {
          TwoOwnersAreOne(ax, p, p', q);
        }
      }
    }
  }

  /** The buffer shows every file's part of the request. */
  ghost predicate AllShown<T>(g: FileGrid<T>, request: Domain, buf: seq<T>)
    requires request.Positive()
  {
    forall pos: Dims | g.InRange(pos) ::
      && pos in g.files && g.files[pos].FileDomain().Positive()
      && (TestIntersection(request, g.files[pos].FileDomain()) ==>
            GridFile(g.files[pos]) && GridLoaded(buf, request, g.files[pos]))
  }

  /** Every file that meets the request lies where the request begins on the axes that its data lacks. */
  ghost predicate NoneOff<T>(g: FileGrid<T>, request: Domain)
    requires request.Positive()
  {
    forall pos: Dims | g.InRange(pos) && pos in g.files && g.files[pos].FileDomain().Positive()
                       && TestIntersection(request, g.files[pos].FileDomain()) ::
      FlatAt(g.files[pos], request)
  }

  // ---- Nothing is lost --------------------------------------------------------------------------

  lemma KeepLoaded<T>(buf: seq<T>, request: Domain, f: File<T>, loaded: File<T>)
    requires GridFile(f) && GridFile(loaded) && FlatAt(loaded, request) && |buf| == Prod(Phys(request.size, AXES))
    requires Apart(f, loaded) && GridLoaded(buf, request, f)
    ensures GridLoaded(LoadFile(buf, request, loaded), request, f)
  {
    forall q: Dims | request.Contains(q) && f.FileDomain().Contains(q)
      ensures Shows(LoadFile(buf, request, loaded), request, f, q)
    {
      assert Shows(buf, request, f, q);
      FlatTargets(loaded, request, q);
      LoadFileAt(buf, request, loaded, q);
    }
  }

  /** The files of the trace lie where the request begins on the axes their data lacks. */
  ghost predicate TraceIsFlat<T>(g: FileGrid<T>, request: Domain, w: Walk, trace: seq<Step>)
    requires AllGrid(g, w, trace)
  {
    forall t | t in trace :: g.InRange(w.Pos(t)) && FlatAt(g.files[w.Pos(t)], request)
  }

  lemma {:induction false} LoadAllShows<T>(g: FileGrid<T>, request: Domain, w: Walk, trace: seq<Step>, fill: T, t: Step)
    requires AllGrid(g, w, trace) && TraceIsFlat(g, request, w, trace) && NoOverlap(g) && t in trace
    ensures GridLoaded(LoadAll(g, request, w, trace, fill), request, g.files[w.Pos(t)])
    decreases |trace|
  {
    var n := |trace| - 1;
    var front, last := trace[..n], trace[n];
    assert last in trace && trace == front + [last];
    assert AllGrid(g, w, front) && TraceIsFlat(g, request, w, front);
    var buf := LoadAll(g, request, w, front, fill);
    hide LoadFile, GridLoaded, GridFile, FlatAt, Apart;
    if w.Pos(t) == w.Pos(last) {
      FlatLoads(buf, request, g.files[w.Pos(last)]);
    } else {
      LoadAllShows(g, request, w, front, fill, t);
      KeepLoaded(buf, request, g.files[w.Pos(t)], g.files[w.Pos(last)]);
    }
  }

  /** If no file is off, the buffer shows all of them. */
  lemma AllFilesShown<T>(g: FileGrid<T>, request: Domain, w: Walk, fill: T)
    requires request.Positive() && Covers(g, request, w) && NoOverlap(g) && AllGrid(g, w, Trace(w)) && NoneOff(g, request)
    ensures AllShown(g, request, LoadAll(g, request, w, Trace(w), fill))
  {
    var buf := LoadAll(g, request, w, Trace(w), fill);
    forall t | t in Trace(w) ensures g.InRange(w.Pos(t)) && FlatAt(g.files[w.Pos(t)], request) {
      LoadedHowOften(w, t);
      PosInRange(g, w, t);
    }
    hide GridFile, GridLoaded, FlatAt, LoadAll, Apart, TestIntersection, NoneOff;
    forall pos: Dims | g.InRange(pos)
      ensures pos in g.files && g.files[pos].FileDomain().Positive()
      ensures TestIntersection(request, g.files[pos].FileDomain()) ==> GridFile(g.files[pos]) && GridLoaded(buf, request, g.files[pos])
    {
      var t := StepOf(w, pos);
      LoadedHowOften(w, t);
      if t in Trace(w) {
        LoadAllShows(g, request, w, Trace(w), fill, t);
      }
    }
  }

  lemma PosInRange<T>(g: FileGrid<T>, w: Walk, t: Step)
    requires w.Valid() && w.n == g.mpiSize && w.InGrid(t)
    ensures g.InRange(w.Pos(t))
  {}

  // ---- For all contents ---------------------------------------------------------------------------

  /** The same files with other contents. */
  ghost predicate SameButContents<T>(g: FileGrid<T>, g': FileGrid<T>)
    requires GridFiles(g)
  {
    && g'.mpiSize == g.mpiSize
    && forall pos: Dims | g.InRange(pos) ::
         && pos in g'.files && g'.files[pos].data.Simple?
         && |g'.files[pos].data.cells| == |g.files[pos].data.cells|
         && g'.files[pos] == WithCells(g.files[pos], g'.files[pos].data.cells)
  }

  lemma SameGeometry<T>(g: FileGrid<T>, g': FileGrid<T>, request: Domain, w: Walk)
    requires request.Positive() && GridFiles(g) && SameButContents(g, g') && Covers(g, request, w)
    ensures GridFiles(g') && Covers(g', request, w) && AllGrid(g', w, Trace(w))
    ensures NoOverlap(g) ==> NoOverlap(g')
    ensures NoneOff(g, request) ==> NoneOff(g', request)
  {
    hide GridFile, TestIntersection;
    forall t | w.InGrid(t) ensures g.InRange(w.Pos(t)) {
      PosInRange(g, w, t);
    }
    forall t | t in Trace(w) ensures w.InGrid(t) && w.Pos(t) in g'.files && GridFile(g'.files[w.Pos(t)]) {
      LoadedHowOften(w, t);
    }
    forall pos: Dims | g.InRange(pos) ensures GridFile(g'.files[pos]) && g'.files[pos].FileDomain() == g.files[pos].FileDomain() {
      assert g'.files[pos] == WithCells(g.files[pos], g'.files[pos].data.cells);
    }
  }

  /** Contents of one file: `fill` everywhere, or everywhere but at cell q. */
  function Plainly<T>(f: File<T>, marked: bool, q: Dims, fill: T, mark: T): File<T>
    requires GridFile(f)
  {
    WithCells(f, if marked then MarkedCells(f, q, fill, mark) else Fills(|f.data.cells|, fill))
  }

  /** Contents that are `fill` everywhere but at one cell of one file. */
  ghost function Marked<T>(g: FileGrid<T>, pos0: Dims, q: Dims, fill: T, mark: T): FileGrid<T>
    requires GridFiles(g)
  {
    FileGrid(g.mpiSize, map pos | pos in g.files && g.InRange(pos) :: Plainly(g.files[pos], pos == pos0, q, fill, mark))
  }

  /** Loading the file leaves cell q of the buffer `fill`. */
  ghost predicate Harmless<T>(f: File<T>, request: Domain, q: Dims, fill: T)
    requires GridFile(f)
  {
    !Targets(f, request, q) || forall k | 0 <= k < |f.data.cells| :: f.data.cells[k] == fill
  }

  lemma HarmlessLoad<T>(buf: seq<T>, request: Domain, f: File<T>, q: Dims, fill: T)
    requires GridFile(f) && |buf| == Prod(Phys(request.size, AXES)) && request.Contains(q) && Harmless(f, request, q, fill)
    requires BufferIndex(q, request) < |buf| && buf[BufferIndex(q, request)] == fill
    ensures LoadFile(buf, request, f)[BufferIndex(q, request)] == fill
  {
    LoadFileAt(buf, request, f, q);
    hide Targets, BufferIndex, CellIndex, LoadFile;
  }

  /** A cell of the buffer that no file but harmless ones loads stays as it was. */
  lemma {:induction false} StaysBlank<T>(g: FileGrid<T>, request: Domain, w: Walk, trace: seq<Step>, fill: T, q: Dims)
    requires AllGrid(g, w, trace) && request.Contains(q)
    requires forall t | t in trace :: Harmless(g.files[w.Pos(t)], request, q, fill)
    ensures BufferIndex(q, request) < |LoadAll(g, request, w, trace, fill)|
    ensures LoadAll(g, request, w, trace, fill)[BufferIndex(q, request)] == fill
    decreases |trace|
  {
    IndexOfCell(q, request);
    hide Targets, GridFile, BufferIndex, LoadFile, Harmless, CellOf;
    if |trace| > 0 {
      var n := |trace| - 1;
      assert trace[n] in trace;
      assert AllGrid(g, w, trace[..n]);
      StaysBlank(g, request, w, trace[..n], fill, q);
      HarmlessLoad(LoadAll(g, request, w, trace[..n], fill), request, g.files[w.Pos(trace[n])], q, fill);
    }
  }

  lemma MarkedSameGeometry<T>(g: FileGrid<T>, pos0: Dims, q: Dims, fill: T, mark: T)
    requires GridFiles(g)
    ensures SameButContents(g, Marked(g, pos0, q, fill, mark))
    ensures forall pos: Dims | g.InRange(pos) ::
              Marked(g, pos0, q, fill, mark).files[pos] == Plainly(g.files[pos], pos == pos0, q, fill, mark)
  {}

  lemma PlainlyHarmless<T>(f: File<T>, marked: bool, request: Domain, q: Dims, fill: T, mark: T)
    requires GridFile(f) && (marked ==> !Targets(f, request, q))
    ensures Harmless(Plainly(f, marked, q, fill, mark), request, q, fill)
  {}

  /** A file that is off has contents that the buffer does not show. */
  lemma MarkIsMissed<T>(g: FileGrid<T>, request: Domain, w: Walk, fill: T, mark: T, pos0: Dims) returns (g': FileGrid<T>)
    requires request.Positive() && GridFiles(g) && Covers(g, request, w) && mark != fill
    requires g.InRange(pos0) && TestIntersection(request, g.files[pos0].FileDomain()) && !FlatAt(g.files[pos0], request)
    ensures SameButContents(g, g') && AllGrid(g', w, Trace(w))
    ensures !AllShown(g', request, LoadAll(g', request, w, Trace(w), fill))
  {
    var f := g.files[pos0];
    var q := MissedCell(f, request);
    g' := Marked(g, pos0, q, fill, mark);
    MarkedSameGeometry(g, pos0, q, fill, mark);
    SameGeometry(g, g', request, w);
    MarkIsAt(f, q, fill, mark);
    var buf := LoadAll(g', request, w, Trace(w), fill);
    hide GridFile, Targets, FlatAt, Harmless, Marked, LoadAll, MarkedCells;
    forall t | t in Trace(w) ensures Harmless(g'.files[w.Pos(t)], request, q, fill) {
      LoadedHowOften(w, t);
      PosInRange(g, w, t);
      PlainlyHarmless(g.files[w.Pos(t)], w.Pos(t) == pos0, request, q, fill, mark);
    }
    StaysBlank(g', request, w, Trace(w), fill, q);
    assert !Shows(buf, request, g'.files[pos0], q);
    assert !GridLoaded(buf, request, g'.files[pos0]);
  }

  /**
   * The buffer shows every requested cell, for all contents of the files, exactly when no file that meets the
   * request is off its first coordinate on an axis that the file's data lacks.
   */
  lemma ShownExactly<T>(g: FileGrid<T>, request: Domain, w: Walk, fill: T, mark: T)
    requires request.Positive() && GridFiles(g) && NoOverlap(g) && Covers(g, request, w) && mark != fill
    ensures (forall g' | SameButContents(g, g') ::
               AllGrid(g', w, Trace(w)) && AllShown(g', request, LoadAll(g', request, w, Trace(w), fill)))
       <==> NoneOff(g, request)
  {
    if NoneOff(g, request) {
      forall g' | SameButContents(g, g')
        ensures AllGrid(g', w, Trace(w)) && AllShown(g', request, LoadAll(g', request, w, Trace(w), fill))
      {
        SameGeometry(g, g', request, w);
        AllFilesShown(g', request, w, fill);
      }
    } else {
      var pos0: Dims :| g.InRange(pos0) && pos0 in g.files && g.files[pos0].FileDomain().Positive()
                        && TestIntersection(request, g.files[pos0].FileDomain()) && !FlatAt(g.files[pos0], request);
      var g' := MarkIsMissed(g, request, w, fill, mark, pos0);
    }
  }
}
