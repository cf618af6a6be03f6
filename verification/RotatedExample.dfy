/**
 * What a moving window leaves behind: the array 10, 11, 12 begins at the global offset 100 and lies on two files, rotated
 * by one, so that position 1 holds the first cell and position 0 the rest.
 */
module RotatedExample {
  import opened Geometry
  import opened Hdf5
  import opened DataSet
  import opened FileGrid
  import opened CornerSearch
  import opened DataContainer
  import opened FileRead
  import opened Traversal
  import opened FileScan
  import opened GridMerge
  import opened DomainCollector

  const HERE: Dims := [0, 0, 0]
  const THERE: Dims := [1, 0, 0]
  const ORIGIN: Dims := [100, 0, 0]

  function First(): File<int> {
    File(ZERO, ONE, ORIGIN, [3, 1, 1], GridType, Simple([1], [10], false))
  }

  function Rest(): File<int> {
    File([1, 0, 0], [2, 1, 1], ORIGIN, [3, 1, 1], GridType, Simple([2], [11, 12], false))
  }

  function Grid(): FileGrid<int> {
    FileGrid([2, 1, 1], map[HERE := Rest(), THERE := First()])
  }

  function Axes(): seq<Axis> {
    [Axis([100, 101, 103], 1), Axis([0, 1], 0), Axis([0, 1], 0)]
  }

  function Request(): Domain {
    Domain(ORIGIN, [3, 1, 1])
  }

  function Walked(): Walk {
    Walk([2, 1, 1], THERE, [2, 1, 1])
  }

  lemma AxesAreValid()
    ensures ValidAxes(Axes())
  {
    var ax := Axes();
    assert ax[0].Valid() && ax[1].Valid() && ax[2].Valid();
  }

  lemma FilesFit()
    ensures ValidAxes(Axes()) && Fits(First(), Axes(), THERE) && Fits(Rest(), Axes(), HERE)
  {
    AxesAreValid();
    hide Axis.Valid;
  }

  lemma FilesAreGrid()
    ensures GridFile(First()) && GridFile(Rest())
  {
    ExtentOfOne([1]);
    ExtentOfOne([2]);
  }

  lemma FileIs(pos: Dims)
    requires Grid().InRange(pos)
    ensures pos in Grid().files
    ensures (pos == HERE && Grid().files[pos] == Rest()) || (pos == THERE && Grid().files[pos] == First())
  {
    assert pos == [pos[0], pos[1], pos[2]];
    assert pos[0] < 2 && pos[1] < 1 && pos[2] < 1;
  }

  lemma FileFits(pos: Dims)
    requires Grid().InRange(pos)
    ensures ValidAxes(Axes()) && pos in Grid().files && Fits(Grid().files[pos], Axes(), pos) && GridFile(Grid().files[pos])
    ensures Grid().files[pos].dataClass == GridType
  {
    FileIs(pos);
    FilesFit();
    FilesAreGrid();
    hide Fits, ValidAxes, GridFile;
  }

  lemma IsConsistent()
    ensures DomainCollector.Stored(Grid()) && Consistent(Grid(), GridType)
  {
    forall pos: Dims | Grid().InRange(pos)
      ensures pos in Grid().files && Grid().files[pos].dataClass == GridType && GridFile(Grid().files[pos])
    {
      FileFits(pos);
    }
    hide DataSize, Domain.Positive;
  }

  /** The example meets everything that ReadDomain asks for, and its files are consistent. */
  lemma Readable()
    ensures Regular(Grid(), Axes()) && DomainCollector.Stored(Grid()) && Consistent(Grid(), GridType)
    ensures Request().Positive() && BeginsInside(Axes(), Request().offset)
  {
    IsConsistent();
    AxesAreValid();
    hide Fits, ValidAxes, DomainCollector.Stored, Consistent;
    forall pos: Dims | Grid().InRange(pos) ensures pos in Grid().files && Fits(Grid().files[pos], Axes(), pos) {
      FileFits(pos);
    }
  }

  lemma SpansAre()
    ensures ValidAxes(Axes()) && WalkOf(Axes(), Grid().mpiSize, THERE, Request()) == Walked()
  {
    AxesAreValid();
    var ax := Axes();
    hide ValidAxes;
    assert Span(ax[0], 1, 103) == 1 && Span(ax[0], 0, 103) == 2 && Span(ax[1], 0, 1) == 1 && Span(ax[2], 0, 1) == 1;
  }

  /** The walk begins at position 1 and goes on, across the end of the axis, at position 0. */
  lemma TraceIs()
    ensures Trace(Walked()) == [Step(0, 0, 0), Step(1, 0, 0)]
    ensures Walked().Pos(Step(0, 0, 0)) == THERE && Walked().Pos(Step(1, 0, 0)) == HERE
  {
    var w := Walked();
    assert Row(0, 1, 0, 0) == [Step(0, 0, 0)] && Row(0, 2, 0, 0) == [Step(0, 0, 0), Step(1, 0, 0)];
    assert Rows(2, 1, 0) == Row(0, 2, 0, 0) && Planes(w, 0) == [] && Planes(w, 1) == Plane(w, 0);
  }

  lemma OnlyWalk(w: Walk)
    requires ValidAxes(Axes()) && WalksFromStart(Grid(), Axes(), Request(), w)
    ensures w == Walked()
  {
    SpansAre();
    assert Owns(Axes(), THERE, Request().offset) by { AxesAreValid(); }
    hide Axes, ValidAxes, Owns, WalkOf;
    TwoOwnersAreOne(Axes(), w.s, THERE, Request().offset);
  }

  lemma OnlyClass(cls: DataClass)
    requires HasClass(Grid(), cls)
    ensures cls == GridType
  {
    var pos: Dims :| Grid().InRange(pos) && pos in Grid().files && Grid().files[pos].dataClass == cls;
    FileIs(pos);
  }

  lemma CellGoes(u: nat)
    requires u < 3
    ensures var q: Dims := [100 + u, 0, 0];
            && Request().Contains(q) && BufferIndex(q, Request()) == u && GridFile(First()) && GridFile(Rest())
            && (Targets(First(), Request(), q) <==> u == 0) && (u == 0 ==> CellIndex(First(), q) == 0)
            && (Targets(Rest(), Request(), q) <==> u > 0) && (u > 0 ==> CellIndex(Rest(), q) == u - 1)
  {
    FilesAreGrid();
  }

  lemma LoadCell(buf: seq<int>, u: nat)
    requires |buf| == Prod(Phys(Request().size, AXES)) && u < 3
    ensures GridFile(First()) && GridFile(Rest()) && u < |buf|
    ensures LoadFile(LoadFile(buf, Request(), First()), Request(), Rest())[u] == 10 + u
  {
    var q: Dims := [100 + u, 0, 0];
    CellGoes(u);
    LoadFileAt(buf, Request(), First(), q);
    LoadFileAt(LoadFile(buf, Request(), First()), Request(), Rest(), q);
    hide LoadFile, GridFile, Targets, BufferIndex, CellIndex, Prod, Phys;
  }

  lemma ThreeCells()
    ensures Prod(Phys(Request().size, AXES)) == 3
  {
    PhysProducts(Request().size);
  }

  lemma Loaded(fill: int)
    ensures GridFile(First()) && GridFile(Rest())
    ensures LoadFile(LoadFile(Blank(Request(), fill), Request(), First()), Request(), Rest()) == [10, 11, 12]
  {
    hide *;
    ThreeCells();
    var buf := Blank(Request(), fill);
    LoadCell(buf, 0);
    LoadCell(buf, 1);
    LoadCell(buf, 2);
  }

  lemma BothLoaded(fill: int)
    ensures AllGrid(Grid(), Walked(), Trace(Walked()))
    ensures LoadAll(Grid(), Request(), Walked(), Trace(Walked()), fill) == [10, 11, 12]
  {
    TraceIs();
    Loaded(fill);
    var w := Walked();
    assert w.InGrid(Step(0, 0, 0)) && w.InGrid(Step(1, 0, 0)) && Grid().files[THERE] == First() && Grid().files[HERE] == Rest();
    hide Grid, Request, Walked, First, Rest, LoadFile, GridFile, Trace, LoadAll, Blank, Prod, Phys;
    LoadTwo(Grid(), Request(), w, Step(0, 0, 0), Step(1, 0, 0), fill);
  }

  /** readDomain returns the array. */
  method Read(fill: int) returns (c: Container<int>)
    ensures fresh(c) && fresh(c.Buffers()) && c.Valid()
    ensures |c.subdomains| == 1 && c.subdomains[0].data[..] == [10, 11, 12]
  {
    Readable();
    var error, container, cls, w := ReadDomain(Grid(), Axes(), Request(), fill);
    c := container;
    OnlyWalk(w);
    OnlyClass(cls);
    BothLoaded(fill);
  }
}
