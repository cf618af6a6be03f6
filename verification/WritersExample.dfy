/**
 * Two ranks write one-dimensional data: rank 0 every other value of 1, 9, 2 and rank 1 the value 3. Whatever the order
 * of their puts, the dataset is 1, 2, 3.
 */
module WritersExample {
  import opened Geometry
  import opened Hdf5
  import opened DataSet
  import opened MpiGrid
  import opened ParallelLayout
  import opened ParallelWrite

  const TWO: Dims := [2, 1, 1]

  function Counts(): seq<Dims> {
    [[2, 1, 1], [1, 1, 1]]
  }

  function Selects(): seq<Select> {
    [Select([3, 1, 1], [2, 1, 1], ZERO, [2, 1, 1]), Select([1, 1, 1], [1, 1, 1], ZERO, ONE)]
  }

  function Buffers(): seq<seq<int>> {
    [[1, 9, 2], [3]]
  }

  /** Rank 0 happens to put its second cell first. */
  function Writers(): seq<seq<Put<int>>> {
    [[Put(1, 2), Put(0, 1)], [Put(2, 3)]]
  }

  lemma IsTiled()
    ensures Tiled(Counts(), 1, TWO)
  {
    OneDimensionalSizesFollow(Counts(), TWO);
  }

  lemma LayoutIs()
    ensures AllGathered(Counts(), 1, TWO)
    ensures GlobalSize(Counts(), 1, TWO) == [3, 1, 1] && Prod(Phys([3, 1, 1], 1)) == 3
    ensures OffsetOf(Counts(), 1, TWO, 0) == ZERO && OffsetOf(Counts(), 1, TWO, 1) == [2, 0, 0]
  {
    var s := Sizes(Counts(), 1, TWO, 0);
    assert s == [2, 1];
    assert s[..0] == [] && s[..1] == [2] && s[..2] == s;
    SumStep(s, 0);
    SumStep(s, 1);
    ExtentOfOne([3]);
    assert Phys([3, 1, 1], 1) == [3];
  }

  lemma FirstPut(q: Dims)
    requires q[0] < 2
    ensures PutsCell(Selects()[0], ZERO, [3, 1, 1], 1, Buffers()[0], Writers()[0][1 - q[0]], q)
  {}

  lemma SecondPut(q: Dims)
    requires q[0] == 2
    ensures PutsCell(Selects()[1], [2, 0, 0], [3, 1, 1], 1, Buffers()[1], Writers()[1][0], q)
  {}

  lemma FirstWrites()
    ensures PutsOfWrite(Selects()[0], ZERO, [3, 1, 1], 1, Buffers()[0], Writers()[0])
  {
    hide PutsCell;
    FirstPut([1, 0, 0]);
    FirstPut([0, 0, 0]);
    forall q: Dims | InBoxN(q, ZERO, Selects()[0].count, 1)
      ensures IsPut(Selects()[0], ZERO, [3, 1, 1], 1, Buffers()[0], Writers()[0], q)
    {
      FirstPut(q);
    }
  }

  lemma SecondWrites()
    ensures PutsOfWrite(Selects()[1], [2, 0, 0], [3, 1, 1], 1, Buffers()[1], Writers()[1])
  {
    hide PutsCell;
    SecondPut([2, 0, 0]);
    forall q: Dims | InBoxN(q, [2, 0, 0], Selects()[1].count, 1)
      ensures IsPut(Selects()[1], [2, 0, 0], [3, 1, 1], 1, Buffers()[1], Writers()[1], q)
    {
      SecondPut(q);
    }
  }

  lemma CallsFit()
    ensures Calls(Counts(), 1, Selects(), Buffers())
  {
    ExtentOfOne([3]);
    ExtentOfOne([1]);
    assert Phys([3, 1, 1], 1) == [3] && Phys([1, 1, 1], 1) == [1];
  }

  /** The ranks meet everything that the results about parallel writing ask for. */
  lemma Writes()
    ensures Tiled(Counts(), 1, TWO) && RankWriters(Counts(), 1, TWO, Selects(), Buffers(), Writers())
  {
    IsTiled();
    LayoutIs();
    CallsFit();
    FirstWrites();
    SecondWrites();
    hide Calls, PutsOfWrite, GlobalSize, OffsetOf, SizesFollowAxes;
    forall r | 0 <= r < 2
      ensures PutsOfWrite(Selects()[r], OffsetOf(Counts(), 1, TWO, r), GlobalSize(Counts(), 1, TWO), 1, Buffers()[r], Writers()[r])
    {
    }
  }

  lemma CellIs(blank: seq<int>, schedule: seq<nat>, c: nat)
    requires |blank| == 3 && c < 3
    ensures Fits(Writers(), ParallelWrite.Begin(Writers(), blank))
    ensures var t := Play(Writers(), ParallelWrite.Begin(Writers(), blank), schedule);
            |t.data| == 3 && (AllDone(Writers(), t) ==> t.data[c] == c + 1)
  {
    Writes();
    LayoutIs();
    hide Tiled, RankWriters, GlobalSize, OffsetOf, Prod, Phys, Play;
    var q: Dims := [c, 0, 0];
    var r := DatasetHoldsEveryBlock(Counts(), 1, TWO, Selects(), Buffers(), Writers(), blank, schedule, q);
    var offset := OffsetOf(Counts(), 1, TWO, r);
    assert offset[0] <= q[0] < offset[0] + Counts()[r][0];
    assert r == 0 || r == 1;
  }

  lemma Result(blank: seq<int>, schedule: seq<nat>)
    requires |blank| == 3
    ensures Fits(Writers(), ParallelWrite.Begin(Writers(), blank))
    ensures var t := Play(Writers(), ParallelWrite.Begin(Writers(), blank), schedule);
            AllDone(Writers(), t) ==> t.data == [1, 2, 3]
  {
    hide AllDone, Play, Fits;
    CellIs(blank, schedule, 0);
    CellIs(blank, schedule, 1);
    CellIs(blank, schedule, 2);
  }
}
