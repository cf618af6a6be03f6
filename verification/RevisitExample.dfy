/**
 * Poly data of one element a file on two by two files: a request for the first row of files gets three
 * elements, the second file's twice.
 */
module RevisitExample {
  import opened Geometry
  import opened Hdf5
  import opened DataSet
  import opened FileGrid
  import opened CornerSearch
  import opened DataContainer
  import opened FileRead
  import opened Traversal
  import opened DomainCollector
  import opened PolyCount

  function Element(x: nat, y: nat, value: int): File<int> {
    File([x, y, 0], ONE, ZERO, [2, 2, 1], PolyType, Simple([1], [value], false))
  }

  function Grid(): FileGrid<int> {
    FileGrid([2, 2, 1], map[[0, 0, 0] := Element(0, 0, 10), [1, 0, 0] := Element(1, 0, 11),
                            [0, 1, 0] := Element(0, 1, 12), [1, 1, 0] := Element(1, 1, 13)])
  }

  function Axes(): seq<Axis> {
    [Axis([0, 1, 2], 0), Axis([0, 1, 2], 0), Axis([0, 1], 0)]
  }

  function Request(): Domain {
    Domain(ZERO, [2, 1, 1])
  }

  function Walked(): Walk {
    Walk([2, 2, 1], ZERO, [2, 1, 1])
  }

  lemma AxesAreValid()
    ensures ValidAxes(Axes())
  {}

  lemma AxisIs(i: nat, p: nat)
    requires i < AXES && p < if i == 2 then 1 else 2
    ensures ValidAxes(Axes()) && p < Axes()[i].N() && Axes()[i].Start(p) == p && Axes()[i].End(p) == p + 1 && Axes()[i].cuts[0] == 0
  {}

  lemma ElementIs(x: nat, y: nat, value: int)
    ensures var f := Element(x, y, value);
            f.FileDomain() == Domain([x, y, 0], ONE) && f.globalOffset == ZERO && f.data.Ok()
  {}

  lemma ElementFits(x: nat, y: nat, value: int)
    requires x < 2 && y < 2
    ensures ValidAxes(Axes()) && Fits(Element(x, y, value), Axes(), [x, y, 0])
    ensures Element(x, y, value).data.Ok()
  {
    ElementIs(x, y, value);
    hide Axes, ValidAxes, Element, Prod;
    AxisIs(0, x);
    AxisIs(1, y);
    AxisIs(2, 0);
  }

  lemma FileIs(pos: Dims)
    requires Grid().InRange(pos)
    ensures pos in Grid().files && Grid().files[pos] == Element(pos[0], pos[1], 10 + pos[0] + 2 * pos[1])
  {
    assert pos[0] < 2 && pos[1] < 2 && pos[2] < 1;
    assert pos == [pos[0], pos[1], 0];
  }

  lemma FileFits(pos: Dims)
    requires Grid().InRange(pos)
    ensures ValidAxes(Axes()) && pos in Grid().files && Fits(Grid().files[pos], Axes(), pos)
    ensures Grid().files[pos].data.Ok() && Grid().files[pos].dataClass == PolyType
  {
    FileIs(pos);
    assert pos[0] < 2 && pos[1] < 2 && pos[2] < 1;
    assert pos == [pos[0], pos[1], 0];
    hide Fits, ValidAxes, Grid;
    ElementFits(pos[0], pos[1], 10 + pos[0] + 2 * pos[1]);
  }

  /** The grid meets everything that ReadDomain asks for, and its files are consistent. */
  lemma Readable()
    ensures Regular(Grid(), Axes()) && DomainCollector.Stored(Grid()) && Consistent(Grid(), PolyType)
    ensures Request().Positive() && BeginsInside(Axes(), Request().offset)
  {
    AxesAreValid();
    hide Fits, ValidAxes;
    forall pos: Dims | Grid().InRange(pos)
      ensures pos in Grid().files && Fits(Grid().files[pos], Axes(), pos)
      ensures Grid().files[pos].data.Ok() && Grid().files[pos].dataClass == PolyType
    {
      FileFits(pos);
    }
  }

  /** The walk of the request; its first corner is the file at the origin. */
  lemma SpansAre()
    ensures ValidAxes(Axes()) && WalkOf(Axes(), Grid().mpiSize, ZERO, Request()) == Walked()
  {}

  /** The y axis is cut behind the first row, and the row has a second file to visit again. */
  lemma TraceIs()
    ensures Trace(Walked()) == [Step(0, 0, 0), Step(1, 0, 0), Step(1, 0, 0)]
  {}

  lemma SubdomainIs(c: Container<int>, k: nat)
    requires MergedPoly(Grid(), c, Walked()) && k < 3
    ensures |c.subdomains| == 3 && c.subdomains[k].data[..] == if k == 0 then [10] else [11]
  {
    TraceIs();
    var x := if k == 0 then 0 else 1;
    FileIs([x, 0, 0]);
    assert Walked().Pos(Trace(Walked())[k]) == [x, 0, 0];
    hide Trace, Grid, ExactBox;
    assert c.subdomains[k] in c.subdomains && PolyLoaded(c.subdomains[k], Element(x, 0, 10 + x));
  }

  lemma FlattenedThree<T>(parts: seq<DomainData<T>>)
    requires |parts| == 3
    ensures Flattened(parts) == parts[0].data[..] + parts[1].data[..] + parts[2].data[..]
  {
    FlattenedStep(parts, 0);
    FlattenedStep(parts, 1);
    FlattenedStep(parts, 2);
    assert parts[..3] == parts && parts[..0] == [];
    assert Flattened(parts[..0]) == [];
  }

  lemma SubdomainsAre(c: Container<int>)
    requires MergedPoly(Grid(), c, Walked())
    ensures |c.subdomains| == 3 && c.subdomains[0].data[..] == [10]
    ensures c.subdomains[1].data[..] == [11] && c.subdomains[2].data[..] == [11]
  {
    hide MergedPoly, Grid, Walked;
    SubdomainIs(c, 0);
    SubdomainIs(c, 1);
    SubdomainIs(c, 2);
  }

  /** The container of the result has three elements for two files. */
  lemma SecondFileCountsTwice(c: Container<int>)
    requires MergedPoly(Grid(), c, Walked())
    ensures Flattened(c.subdomains) == [10, 11, 11]
  {
    hide *;
    SubdomainsAre(c);
    FlattenedThree(c.subdomains);
    assert [10] + [11] + [11] == [10, 11, 11];
  }

  lemma OnlyWalk(w: Walk)
    requires ValidAxes(Axes()) && WalksFromStart(Grid(), Axes(), Request(), w)
    ensures w == Walked()
  {
    SpansAre();
    assert Owns(Axes(), ZERO, Request().offset) by { AxesAreValid(); }
    hide Axes, ValidAxes, Owns, WalkOf;
    TwoOwnersAreOne(Axes(), w.s, ZERO, Request().offset);
  }

  lemma OnlyClass(cls: DataClass)
    requires HasClass(Grid(), cls)
    ensures cls == PolyType
  {
    var pos: Dims :| Grid().InRange(pos) && pos in Grid().files && Grid().files[pos].dataClass == cls;
    FileIs(pos);
  }

  /** So that is what readDomain returns, and what getNumElements counts. */
  method Read(fill: int) returns (c: Container<int>, n: nat)
    ensures fresh(c) && fresh(c.Buffers()) && c.Valid()
    ensures Flattened(c.subdomains) == [10, 11, 11] && n == 3
  {
    Readable();
    AxesAreValid();
    var error, container, cls, w := ReadDomain(Grid(), Axes(), Request(), fill);
    c := container;
    OnlyWalk(w);
    OnlyClass(cls);
    hide MergedPoly, Flattened, Grid, Walked, Container.Filled, Container.Valid, Container.Buffers;
    SecondFileCountsTwice(c);
    PolyFilled(Grid(), c, w);
    n := c.GetNumElements();
  }
}
