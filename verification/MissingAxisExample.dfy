/**
 * One-dimensional Grid data on two files along the y axis: the files hold 10, 11 and 20, 21, and a request for
 * both of them gets 20, 21 and a second row that is never written.
 */
module MissingAxisExample {
  import opened Geometry
  import opened Hdf5
  import opened DataSet
  import opened FileGrid
  import opened CornerSearch
  import opened DataContainer
  import opened FileRead
  import opened Traversal
  import opened FileScan
  import opened GridMerge
  import opened DomainCollector

  const LOW: Dims := [0, 0, 0]
  const HIGH: Dims := [0, 1, 0]

  function TwoCells(y: nat, a: int, b: int): File<int> {
    File([0, y, 0], [2, 1, 1], ZERO, [2, 2, 1], GridType, Simple([2], [a, b], false))
  }

  function Grid(): FileGrid<int> {
    FileGrid([1, 2, 1], map[LOW := TwoCells(0, 10, 11), HIGH := TwoCells(1, 20, 21)])
  }

  function Axes(): seq<Axis> {
    [Axis([0, 2], 0), Axis([0, 1, 2], 0), Axis([0, 1], 0)]
  }

  function Request(): Domain {
    Domain(ZERO, [2, 2, 1])
  }

  function Walked(): Walk {
    Walk([1, 2, 1], ZERO, [1, 2, 1])
  }

  lemma FileIs(pos: Dims)
    requires Grid().InRange(pos)
    ensures pos in Grid().files
    ensures (pos == LOW && Grid().files[pos] == TwoCells(0, 10, 11)) || (pos == HIGH && Grid().files[pos] == TwoCells(1, 20, 21))
  {
    assert pos == [pos[0], pos[1], pos[2]];
    assert pos[0] < 1 && pos[1] < 2 && pos[2] < 1;
  }

  lemma RowFile(y: nat, a: int, b: int)
    ensures GridFile(TwoCells(y, a, b)) && DataDims(TwoCells(y, a, b).data) == 1
  {}

  lemma AxesAreValid()
    ensures ValidAxes(Axes())
  {}

  lemma RowFits(y: nat, a: int, b: int)
    requires y < 2
    ensures ValidAxes(Axes()) && Fits(TwoCells(y, a, b), Axes(), [0, y, 0])
  {
    AxesAreValid();
    var f := TwoCells(y, a, b);
    hide Axis.Valid;
    assert f.globalOffset == ZERO && f.offset == [0, y, 0] && f.size == [2, 1, 1];
  }

  lemma FileFits(pos: Dims)
    requires Grid().InRange(pos)
    ensures ValidAxes(Axes()) && pos in Grid().files && Fits(Grid().files[pos], Axes(), pos) && GridFile(Grid().files[pos])
  {
    FileIs(pos);
    RowFits(0, 10, 11);
    RowFits(1, 20, 21);
    RowFile(0, 10, 11);
    RowFile(1, 20, 21);
    hide Fits, ValidAxes, GridFile;
  }

  lemma IsRegular()
    ensures Regular(Grid(), Axes()) && GridFiles(Grid())
  {
    AxesAreValid();
    hide Fits, ValidAxes, GridFile;
    forall pos: Dims | Grid().InRange(pos)
      ensures pos in Grid().files && Fits(Grid().files[pos], Axes(), pos) && GridFile(Grid().files[pos])
    {
      FileFits(pos);
    }
  }

  lemma IsConsistent()
    ensures DomainCollector.Stored(Grid()) && Consistent(Grid(), GridType)
  {
    RowFile(0, 10, 11);
    RowFile(1, 20, 21);
    hide DataSize;
    forall pos: Dims | Grid().InRange(pos)
      ensures pos in Grid().files && Grid().files[pos].dataClass == GridType && Grid().files[pos].data.Ok()
      ensures Grid().files[pos].data.Simple? && DataSize(Grid().files[pos].data) == Grid().files[pos].size
    {
      FileIs(pos);
    }
  }

  /**
   * The grid meets everything that ReadDomain asks for, and its files are consistent; the request covers two
   * coordinates on the axis that the data lacks.
   */
  lemma Readable()
    ensures Regular(Grid(), Axes()) && DomainCollector.Stored(Grid()) && Consistent(Grid(), GridType)
    ensures Request().Positive() && BeginsInside(Axes(), Request().offset) && !OneCoordinate(Axes()[1], Request(), 1)
  {
    IsRegular();
    IsConsistent();
    AxesAreValid();
    hide Regular, DomainCollector.Stored, Consistent, ValidAxes;
  }

  /** Both files meet the request, the low one first. */
  lemma WalkIs()
    ensures ValidAxes(Axes()) && WalkOf(Axes(), Grid().mpiSize, LOW, Request()) == Walked()
    ensures Trace(Walked()) == [Step(0, 0, 0), Step(0, 1, 0)]
  {}

  lemma CellGoes(y: nat, a: int, b: int, u: nat, v: nat)
    requires u < 2 && v < 2
    ensures var q: Dims, f := [u, v, 0], TwoCells(y, a, b);
            && GridFile(f) && Request().Contains(q) && BufferIndex(q, Request()) == u + 2 * v && CellIndex(f, q) == u
            && (Targets(f, Request(), q) <==> v == 0)
  {}

  /** What loading a row does to one cell of the buffer. */
  lemma LoadCell(buf: seq<int>, y: nat, a: int, b: int, u: nat, v: nat)
    requires |buf| == Prod(Phys(Request().size, AXES)) && u < 2 && v < 2
    ensures GridFile(TwoCells(y, a, b)) && u + 2 * v < |buf|
    ensures LoadFile(buf, Request(), TwoCells(y, a, b))[u + 2 * v]
         == if v > 0 then buf[u + 2 * v] else if u == 0 then a else b
  {
    CellGoes(y, a, b, u, v);
    hide LoadFile, GridFile, Targets, BufferIndex, CellIndex, Prod, Phys;
    LoadFileAt(buf, Request(), TwoCells(y, a, b), [u, v, 0]);
  }

  lemma FourCells(s: seq<int>, a: int, b: int, c: int, d: int)
    requires |s| == 4 && s[0] == a && s[1] == b && s[2] == c && s[3] == d
    ensures s == [a, b, c, d]
  {}

  lemma LoadRow(buf: seq<int>, y: nat, a: int, b: int)
    requires |buf| == 4
    ensures Prod(Phys(Request().size, AXES)) == 4 && GridFile(TwoCells(y, a, b))
    ensures LoadFile(buf, Request(), TwoCells(y, a, b)) == [a, b, buf[2], buf[3]]
  {
    PhysProducts(Request().size);
    assert Prod(Phys(Request().size, AXES)) == 4;
    hide LoadFile, GridFile, Prod, Phys, TwoCells, Request;
    LoadCell(buf, y, a, b, 0, 0);
    LoadCell(buf, y, a, b, 1, 0);
    LoadCell(buf, y, a, b, 0, 1);
    LoadCell(buf, y, a, b, 1, 1);
    FourCells(LoadFile(buf, Request(), TwoCells(y, a, b)), a, b, buf[2], buf[3]);
  }

  lemma Loaded(fill: int)
    ensures Prod(Phys(Request().size, AXES)) == 4 && Blank(Request(), fill) == [fill, fill, fill, fill]
    ensures GridFile(TwoCells(0, 10, 11)) && GridFile(TwoCells(1, 20, 21))
    ensures LoadFile(LoadFile(Blank(Request(), fill), Request(), TwoCells(0, 10, 11)), Request(), TwoCells(1, 20, 21))
         == [20, 21, fill, fill]
  {
    PhysProducts(Request().size);
    hide LoadFile, GridFile, Prod, Phys;
    LoadRow(Blank(Request(), fill), 0, 10, 11);
    LoadRow([10, 11, fill, fill], 1, 20, 21);
  }

  lemma FileOf(t: Step)
    requires t == Step(0, 0, 0) || t == Step(0, 1, 0)
    ensures Walked().InGrid(t) && Walked().Pos(t) in Grid().files
    ensures Grid().files[Walked().Pos(t)] == if t.b == 0 then TwoCells(0, 10, 11) else TwoCells(1, 20, 21)
  {}

  /** The second row of the request is never written, and the first file's values are lost. */
  lemma SecondRowIsBlank(fill: int)
    ensures AllGrid(Grid(), Walked(), Trace(Walked()))
    ensures LoadAll(Grid(), Request(), Walked(), Trace(Walked()), fill) == [20, 21, fill, fill]
  {
    WalkIs();
    Loaded(fill);
    FileOf(Step(0, 0, 0));
    FileOf(Step(0, 1, 0));
    hide Grid, Request, Walked, TwoCells, LoadFile, GridFile, Trace, LoadAll, Blank, Prod, Phys;
    LoadTwo(Grid(), Request(), Walked(), Step(0, 0, 0), Step(0, 1, 0), fill);
  }

  /** The walk of the read is the one above. */
  lemma OnlyWalk(w: Walk)
    requires ValidAxes(Axes()) && WalksFromStart(Grid(), Axes(), Request(), w)
    ensures w == Walked()
  {
    WalkIs();
    assert Owns(Axes(), LOW, Request().offset) by { AxesAreValid(); }
    hide Axes, ValidAxes, Owns, WalkOf;
    TwoOwnersAreOne(Axes(), w.s, LOW, Request().offset);
  }

  lemma OnlyClass(cls: DataClass)
    requires HasClass(Grid(), cls)
    ensures cls == GridType
  {
    var pos: Dims :| Grid().InRange(pos) && pos in Grid().files && Grid().files[pos].dataClass == cls;
    FileIs(pos);
  }

  /** So that is what readDomain returns. */
  method Read(fill: int) returns (c: Container<int>)
    ensures fresh(c) && fresh(c.Buffers()) && c.Valid()
    ensures |c.subdomains| == 1 && c.subdomains[0].data[..] == [20, 21, fill, fill]
  {
    Readable();
    var error, container, cls, w := ReadDomain(Grid(), Axes(), Request(), fill);
    c := container;
    OnlyWalk(w);
    OnlyClass(cls);
    SecondRowIsBlank(fill);
  }
}
