/**
 * Four ranks on a two by two grid write two-dimensional data. Rank 0 writes 1, 2 and rank 1 behind it on x the value 3,
 * rank 2 behind it on y 4, 5 and rank 3 the value 6. Whatever the order of their puts, the dataset is 1, 2, ..., 6.
 */
module PlaneWritersExample {
  import opened Arithmetic
  import opened Geometry
  import opened Hdf5
  import opened DataSet
  import opened MpiGrid
  import opened ParallelLayout
  import opened ParallelWrite

  const SQUARE: Dims := [2, 2, 1]
  const WHOLE: Dims := [3, 2, 1]

  function Counts(): seq<Dims> {
    [[2, 1, 1], [1, 1, 1], [2, 1, 1], [1, 1, 1]]
  }

  function Selects(): seq<Select> {
    [Select([2, 1, 1], [2, 1, 1], ZERO, ONE), Select([1, 1, 1], [1, 1, 1], ZERO, ONE),
     Select([2, 1, 1], [2, 1, 1], ZERO, ONE), Select([1, 1, 1], [1, 1, 1], ZERO, ONE)]
  }

  function Buffers(): seq<seq<int>> {
    [[1, 2], [3], [4, 5], [6]]
  }

  function Writers(): seq<seq<Put<int>>> {
    [[Put(0, 1), Put(1, 2)], [Put(2, 3)], [Put(3, 4), Put(4, 5)], [Put(5, 6)]]
  }

  /** The positions of the ranks, x first. */
  lemma PositionsAre()
    ensures PosOf(2, SQUARE, 0) == ZERO && PosOf(2, SQUARE, 1) == [1, 0, 0]
    ensures PosOf(2, SQUARE, 2) == [0, 1, 0] && PosOf(2, SQUARE, 3) == [1, 1, 0]
  {
    NextPos(0, SQUARE);
    NextPos(1, SQUARE);
    NextPos(2, SQUARE);
    hide IndexToPos;
  }

  lemma SizesAre()
    ensures AllGathered(Counts(), 2, SQUARE)
    ensures Sizes(Counts(), 2, SQUARE, 0) == [2, 1] && Sizes(Counts(), 2, SQUARE, 1) == [1, 1]
  {}

  lemma SumOfTwo(a: nat, b: nat)
    ensures Sum([a, b][..0]) == 0 && Sum([a, b][..1]) == a && Sum([a, b]) == a + b
  {
    SumStep([a, b], 0);
    SumStep([a, b], 1);
    assert [a, b][..2] == [a, b];
  }

  function Offset(r: nat): Dims {
    if r == 0 then ZERO else if r == 1 then [2, 0, 0] else if r == 2 then [0, 1, 0] else [2, 1, 0]
  }

  lemma LayoutIs()
    ensures AllGathered(Counts(), 2, SQUARE) && GlobalSize(Counts(), 2, SQUARE) == WHOLE
    ensures forall r | 0 <= r < 4 :: OffsetOf(Counts(), 2, SQUARE, r) == Offset(r)
  {
    SizesAre();
    PositionsAre();
    SumOfTwo(2, 1);
    SumOfTwo(1, 1);
    hide Sizes, PosOf, Sum;
  }

  lemma IsTiled()
    ensures Tiled(Counts(), 2, SQUARE)
  {
    SizesAre();
    PositionsAre();
    hide Sizes, PosOf;
  }

  lemma DataOf()
    ensures Prod(Phys(WHOLE, 2)) == 6 && Prod(Phys([2, 1, 1], 2)) == 2 && Prod(Phys([1, 1, 1], 2)) == 1
  {
    ProductOfTwo(2, 3);
    ProductOfTwo(1, 2);
    ProductOfTwo(1, 1);
    assert Phys(WHOLE, 2) == [2, 3] && Phys([2, 1, 1], 2) == [1, 2] && Phys([1, 1, 1], 2) == [1, 1];
  }

  lemma ProductOfTwo(a: nat, b: nat)
    ensures Prod([a, b]) == a * b
  {
    assert [a, b][..1] == [a];
    ExtentOfOne([a]);
  }

  lemma CallsFit()
    ensures Calls(Counts(), 2, Selects(), Buffers())
  {
    DataOf();
    hide Prod, Phys;
  }

  /** The put of a cell of a rank's block. */
  lemma CellPut(r: nat, q: Dims)
    requires r < 4 && InBoxN(q, Offset(r), Counts()[r], 2)
    ensures q[0] - Offset(r)[0] < |Writers()[r]|
    ensures PutsCell(Selects()[r], Offset(r), WHOLE, 2, Buffers()[r], Writers()[r][q[0] - Offset(r)[0]], q)
  {}

  lemma RankWrites(r: nat)
    requires r < 4
    ensures PutsOfWrite(Selects()[r], Offset(r), WHOLE, 2, Buffers()[r], Writers()[r])
  {
    forall k | 0 <= k < |Writers()[r]| ensures PutsSome(Selects()[r], Offset(r), WHOLE, 2, Buffers()[r], Writers()[r][k]) {
      CellPut(r, [Offset(r)[0] + k, Offset(r)[1], 0]);
    }
    hide PutsCell;
    forall q: Dims | InBoxN(q, Offset(r), Counts()[r], 2) ensures IsPut(Selects()[r], Offset(r), WHOLE, 2, Buffers()[r], Writers()[r], q) {
      CellPut(r, q);
    }
  }

  /** The ranks meet everything that the results about parallel writing ask for. */
  lemma Writes()
    ensures Tiled(Counts(), 2, SQUARE) && RankWriters(Counts(), 2, SQUARE, Selects(), Buffers(), Writers())
  {
    IsTiled();
    LayoutIs();
    CallsFit();
    hide Calls, PutsOfWrite, GlobalSize, OffsetOf, SizesFollowAxes, Offset;
    forall r | 0 <= r < 4
      ensures PutsOfWrite(Selects()[r], OffsetOf(Counts(), 2, SQUARE, r), GlobalSize(Counts(), 2, SQUARE), 2, Buffers()[r], Writers()[r])
    {
      RankWrites(r);
    }
  }

  lemma CellIs(blank: seq<int>, schedule: seq<nat>, x: nat, y: nat)
    requires |blank| == 6 && x < 3 && y < 2
    ensures Fits(Writers(), ParallelWrite.Begin(Writers(), blank))
    ensures var t := Play(Writers(), ParallelWrite.Begin(Writers(), blank), schedule);
            |t.data| == 6 && (AllDone(Writers(), t) ==> t.data[x + 3 * y] == 1 + x + 3 * y)
  {
    Writes();
    LayoutIs();
    DataOf();
    hide Tiled, RankWriters, GlobalSize, OffsetOf, Prod, Phys, Play;
    var q: Dims := [x, y, 0];
    var r := DatasetHoldsEveryBlock(Counts(), 2, SQUARE, Selects(), Buffers(), Writers(), blank, schedule, q);
    CellPut(r, q);
  }

  /** Row by row: the ranks of the second row follow behind those of the first. */
  lemma Result(blank: seq<int>, schedule: seq<nat>)
    requires |blank| == 6
    ensures Fits(Writers(), ParallelWrite.Begin(Writers(), blank))
    ensures var t := Play(Writers(), ParallelWrite.Begin(Writers(), blank), schedule);
            AllDone(Writers(), t) ==> t.data == [1, 2, 3, 4, 5, 6]
  {
    hide AllDone, Play, Fits;
    CellIs(blank, schedule, 0, 0);
    CellIs(blank, schedule, 1, 0);
    CellIs(blank, schedule, 2, 0);
    CellIs(blank, schedule, 0, 1);
    CellIs(blank, schedule, 1, 1);
    CellIs(blank, schedule, 2, 1);
  }
}
