/** Small datasets written, appended to and read back, with the values that arrive. */
module DatasetExample {
  import opened Geometry
  import opened Hdf5
  import opened DataSet
  import opened Options
  import opened SerialDataCollector

  // ---- A strided selection in two dimensions ------------------------------------------------------

  /** Every other column of a buffer of four by two cells, beginning with the second. */
  const COLUMNS := Select([4, 2, 1], [2, 2, 1], [1, 0, 0], [2, 1, 1])

  function Numbers(): seq<int> {
    [0, 1, 2, 3, 4, 5, 6, 7]
  }

  lemma ProductOfTwo(a: nat, b: nat)
    ensures Prod([a, b]) == a * b
  {
    assert [a, b][..1] == [a];
    ExtentOfOne([a]);
  }

  lemma SizesAre()
    ensures Prod(Phys([4, 2, 1], 2)) == 8 && Prod(Phys([3, 3, 1], 2)) == 9 && Prod(Phys([2, 2, 1], 2)) == 4
  {
    ProductOfTwo(2, 4);
    ProductOfTwo(3, 3);
    ProductOfTwo(2, 2);
    assert Phys([4, 2, 1], 2) == [2, 4] && Phys([3, 3, 1], 2) == [3, 3] && Phys([2, 2, 1], 2) == [2, 2];
  }

  lemma CellArrives(before: seq<int>, after: seq<int>, x: nat, y: nat)
    requires |before| == 9 && x < 3 && y < 3
    requires Moved(before, after, [3, 3, 1], 2, [1, 1, 0], [2, 2, 1], Numbers(), [4, 2, 1], [1, 0, 0], [2, 1, 1])
    ensures |after| == 9
    ensures after[x + 3 * y] == if x >= 1 && y >= 1 then 1 + 2 * (x - 1) + 4 * (y - 1) else before[x + 3 * y]
  {
    var p: Dims := [x, y, 0];
    assert Lin(p, [3, 3, 1], 2) == x + 3 * y;
    assert MovedCell(before, after, [3, 3, 1], 2, [1, 1, 0], [2, 2, 1], Numbers(), [4, 2, 1], [1, 0, 0], [2, 1, 1], p);
  }

  lemma CellsArrive(before: seq<int>, after: seq<int>)
    requires |before| == 9
    requires Moved(before, after, [3, 3, 1], 2, [1, 1, 0], [2, 2, 1], Numbers(), [4, 2, 1], [1, 0, 0], [2, 1, 1])
    ensures after == [before[0], before[1], before[2], before[3], 1, 3, before[6], 5, 7]
  {
    hide Moved, Numbers;
    CellArrives(before, after, 0, 0);
    CellArrives(before, after, 1, 0);
    CellArrives(before, after, 2, 0);
    CellArrives(before, after, 0, 1);
    CellArrives(before, after, 1, 1);
    CellArrives(before, after, 2, 1);
    CellArrives(before, after, 0, 2);
    CellArrives(before, after, 1, 2);
    CellArrives(before, after, 2, 2);
  }

  /** Written and read back behind the first row and column of three by three cells. */
  method Columns(dst: array<int>)
    requires dst.Length == 9
    modifies dst
    ensures var was := old(dst[..]); dst[..] == [was[0], was[1], was[2], was[3], 1, 3, was[6], 5, 7]
  {
    var group := new Group<int>(0);
    SizesAre();
    hide Prod, Phys, Moved;
    group.WriteThenRead("columns", 2, COLUMNS, Numbers(), [3, 3, 1], [1, 1, 0], dst);
    CellsArrive(old(dst[..]), dst[..]);
  }

  lemma WholeCell(before: seq<int>, after: seq<int>, x: nat, y: nat)
    requires |before| == 4 && x < 2 && y < 2
    requires Moved(before, after, [2, 2, 1], 2, ZERO, [2, 2, 1], Numbers(), [4, 2, 1], [1, 0, 0], [2, 1, 1])
    ensures |after| == 4 && after[x + 2 * y] == 1 + 2 * x + 4 * y
  {
    var p: Dims := [x, y, 0];
    assert Lin(p, [2, 2, 1], 2) == x + 2 * y;
    assert MovedCell(before, after, [2, 2, 1], 2, ZERO, [2, 2, 1], Numbers(), [4, 2, 1], [1, 0, 0], [2, 1, 1], p);
  }

  /** Without a buffer size the buffer is as large as what is read. */
  method WholeBuffer(dst: array<int>)
    requires dst.Length == 4
    modifies dst
    ensures dst[..] == [1, 3, 5, 7]
  {
    var group := new Group<int>(0);
    SizesAre();
    hide Prod, Phys, Moved;
    group.WriteThenRead("columns", 2, COLUMNS, Numbers(), ZERO, ZERO, dst);
    WholeCell(old(dst[..]), dst[..], 0, 0);
    WholeCell(old(dst[..]), dst[..], 1, 0);
    WholeCell(old(dst[..]), dst[..], 0, 1);
    WholeCell(old(dst[..]), dst[..], 1, 1);
  }

  // ---- Appending ----------------------------------------------------------------------------------

  lemma SlicesAre()
    ensures AppendCall(2, 0, 1, [1, 2]).Cells() == [1, 2]
    ensures AppendCall(2, 1, 2, [9, 3, 9, 4]).Cells() == [3, 4]
    ensures Fills(1, 0) == [0]
  {
    SliceAt([1, 2], 2, 0, 1, 0);
    SliceAt([1, 2], 2, 0, 1, 1);
    SliceAt([9, 3, 9, 4], 2, 1, 2, 0);
    SliceAt([9, 3, 9, 4], 2, 1, 2, 1);
  }

  /** A strided append behind a plain one, and one without stride, which is refused but leaves fill values. */
  method Appends() returns (group: Group<int>)
    ensures fresh(group) && group.objects == map["list" := Simple([5], [1, 2, 3, 4, 0], true)]
  {
    SlicesAre();
    hide Slice, Fills;
    group := new Group<int>(0);
    var ok := group.AppendDataSet("list", AppendCall(2, 0, 1, [1, 2]));
    assert ok && group.objects["list"] == Simple([2], [1, 2], true);
    ok := group.AppendDataSet("list", AppendCall(2, 1, 2, [9, 3, 9, 4]));
    assert ok && group.objects["list"] == Simple([4], [1, 2, 3, 4], true);
    ok := group.AppendDataSet("list", AppendCall(1, 0, 0, [7]));
    assert !ok && group.objects["list"] == Simple([5], [1, 2, 3, 4, 0], true);
  }

  // ---- An offset that passes for zero -------------------------------------------------------------

  lemma PassesForZero()
    ensures var select := Select([2, 1, 1], [2, 1, 1], [5, 0, 0], ONE);
            !ValidSource(select.size, select.count, select.offset, select.stride, 1) && WriteAccepted(select, ZERO, true, [2, 1, 1], 1)
  {
    var select := Select([2, 1, 1], [2, 1, 1], [5, 0, 0], ONE);
    assert 0 in select.offset && 0 in ZERO;
    AcceptedExactly(select, ZERO, true, [2, 1, 1], 1);
    assert !AxisFits(select.offset[0], select.stride[0], select.count[0], select.size[0]);
  }

  /** Two cells from position 5 of a buffer of two: the write goes through and takes them from position 0. */
  method OutsideBuffer() returns (dataset: DCDataSet<int>)
    ensures fresh(dataset) && dataset.stored == Simple([2], [1, 2], false)
  {
    dataset := new DCDataSet<int>(0);
    var ok := dataset.Create([2, 1, 1], 1, false);
    ExtentOfOne([2]);
    assert Phys([2, 1, 1], 1) == [2] && ScalarSize([2, 1, 1]) == 2;
    PassesForZero();
    var select := Select([2, 1, 1], [2, 1, 1], [5, 0, 0], ONE);
    ghost var blank := dataset.stored;
    hide WriteAccepted, Moved;
    ok := dataset.Write(select, ZERO, Some([1, 2]));
    FromZero(blank.cells, dataset.stored.cells, 0);
    FromZero(blank.cells, dataset.stored.cells, 1);
  }

  lemma FromZero(before: seq<int>, after: seq<int>, x: nat)
    requires |before| == 2 && x < 2
    requires MovedSelection(before, after, [2, 1, 1], 1, Select([2, 1, 1], [2, 1, 1], [5, 0, 0], ONE), ZERO, [1, 2])
    ensures |after| == 2 && after[x] == x + 1
  {
    var p: Dims := [x, 0, 0];
    assert Lin(p, [2, 1, 1], 1) == x;
    assert MovedCell(before, after, [2, 1, 1], 1, ZERO, [2, 1, 1], [1, 2], [2, 1, 1], ZERO, ONE, p);
  }
}
