/** ParallelDataCollector::writeDataSet: all ranks write into one dataset, in no particular order. */
module ParallelWrite {
  import opened Arithmetic
  import opened Geometry
  import opened Hdf5
  import opened DataSet
  import opened MpiGrid
  import opened ParallelLayout

  // ---- Writers in any interleaving ----------------------------------------------------------------

  /** The writing of one cell of the shared dataset. */
  datatype Put<T> = Put(cell: nat, value: T)

  /** The dataset and how many of its puts each writer has done. */
  datatype State<T> = State(data: seq<T>, done: seq<nat>)

  ghost predicate Fits<T>(writers: seq<seq<Put<T>>>, s: State<T>) {
    && |s.done| == |writers|
    && (forall r | 0 <= r < |writers| :: s.done[r] <= |writers[r]|)
    && (forall r, k | 0 <= r < |writers| && 0 <= k < |writers[r]| :: writers[r][k].cell < |s.data|)
  }

  /** Writer r does its next put; one that is through does nothing. */
  function Turn<T>(writers: seq<seq<Put<T>>>, s: State<T>, r: nat): (s': State<T>)
    requires Fits(writers, s)
    ensures Fits(writers, s') && |s'.data| == |s.data|
  {
    if r < |writers| && s.done[r] < |writers[r]| then
      var put := writers[r][s.done[r]];
      State(s.data[put.cell := put.value], s.done[r := s.done[r] + 1])
    else s
  }

  /** A run: the writers take turns as the schedule says. */
  function Play<T>(writers: seq<seq<Put<T>>>, s: State<T>, schedule: seq<nat>): (s': State<T>)
    requires Fits(writers, s)
    ensures Fits(writers, s') && |s'.data| == |s.data|
  {
    if |schedule| == 0 then s
    else Turn(writers, Play(writers, s, schedule[..|schedule| - 1]), schedule[|schedule| - 1])
  }

  function Begin<T>(writers: seq<seq<Put<T>>>, blank: seq<T>): State<T> {
    State(blank, seq(|writers|, _ => 0))
  }

  ghost predicate AllDone<T>(writers: seq<seq<Put<T>>>, s: State<T>) {
    |s.done| == |writers| && forall r | 0 <= r < |writers| :: s.done[r] == |writers[r]|
  }

  /** Puts to the same cell carry the same value. */
  ghost predicate Agreeing<T>(writers: seq<seq<Put<T>>>) {
    forall r, k, r', k' | 0 <= r < |writers| && 0 <= k < |writers[r]| && 0 <= r' < |writers| && 0 <= k' < |writers[r']|
      && writers[r][k].cell == writers[r'][k'].cell :: writers[r][k].value == writers[r'][k'].value
  }

  /** Cells that were put hold what was put there, all others what they held at the beginning. */
  ghost predicate Written<T>(writers: seq<seq<Put<T>>>, blank: seq<T>, s: State<T>)
    requires Fits(writers, s)
  {
    && |s.data| == |blank|
    && (forall r, k | 0 <= r < |writers| && 0 <= k < s.done[r] :: s.data[writers[r][k].cell] == writers[r][k].value)
    && (forall c | 0 <= c < |blank| ::
          s.data[c] == blank[c] || exists r, k :: 0 <= r < |writers| && 0 <= k < s.done[r] && writers[r][k].cell == c)
  }

  lemma TurnKeepsWritten<T>(writers: seq<seq<Put<T>>>, blank: seq<T>, s: State<T>, r: nat)
    requires Fits(writers, s) && Agreeing(writers) && Written(writers, blank, s)
    ensures Written(writers, blank, Turn(writers, s, r))
  {}

  /** At every point of a run the dataset holds what has been put so far, and nothing else has changed. */
  lemma {:induction false} RunKeepsWritten<T>(writers: seq<seq<Put<T>>>, blank: seq<T>, schedule: seq<nat>)
    requires Fits(writers, Begin(writers, blank)) && Agreeing(writers)
    ensures Written(writers, blank, Play(writers, Begin(writers, blank), schedule))
    decreases |schedule|
  {
    if |schedule| > 0 {
      RunKeepsWritten(writers, blank, schedule[..|schedule| - 1]);
      TurnKeepsWritten(writers, blank, Play(writers, Begin(writers, blank), schedule[..|schedule| - 1]), schedule[|schedule| - 1]);
    }
  }

  /** All interleavings that let every writer finish end in the same dataset. */
  lemma EveryInterleavingAgrees<T>(writers: seq<seq<Put<T>>>, blank: seq<T>, one: seq<nat>, other: seq<nat>)
    requires Fits(writers, Begin(writers, blank)) && Agreeing(writers)
    requires AllDone(writers, Play(writers, Begin(writers, blank), one)) && AllDone(writers, Play(writers, Begin(writers, blank), other))
    ensures Play(writers, Begin(writers, blank), one).data == Play(writers, Begin(writers, blank), other).data
  {
    RunKeepsWritten(writers, blank, one);
    RunKeepsWritten(writers, blank, other);
    var s, s' := Play(writers, Begin(writers, blank), one), Play(writers, Begin(writers, blank), other);
    forall c | 0 <= c < |blank| ensures s.data[c] == s'.data[c] {
      PutInBoth(writers, blank, s, s', c);
      PutInBoth(writers, blank, s', s, c);
    }
  }

  lemma PutInBoth<T>(writers: seq<seq<Put<T>>>, blank: seq<T>, s: State<T>, s': State<T>, c: nat)
    requires Fits(writers, s) && Fits(writers, s') && Written(writers, blank, s) && Written(writers, blank, s')
    requires AllDone(writers, s) && AllDone(writers, s') && c < |blank|
    ensures s.data[c] == blank[c] || s.data[c] == s'.data[c]
  {}

  // ---- One rank's write ---------------------------------------------------------------------------

  /** The index of the selected cell of a rank's buffer that goes to cell q of the dataset. */
  function SourceIndex(select: Select, offset: Dims, nd: nat, q: Dims): nat
    requires nd <= AXES && forall i | 0 <= i < nd :: offset[i] <= q[i]
  {
    Lin(SourceCell(q, offset, SourceStart(select), select.stride, nd), select.size, nd)
  }

  ghost predicate PutsCell<T>(select: Select, offset: Dims, size: Dims, nd: nat, buffer: seq<T>, put: Put<T>, q: Dims)
    requires nd <= AXES
  {
    && InBoxN(q, offset, select.count, nd) && put.cell == Lin(q, size, nd)
    && SourceIndex(select, offset, nd, q) < |buffer| && put.value == buffer[SourceIndex(select, offset, nd, q)]
  }

  ghost predicate PutsSome<T>(select: Select, offset: Dims, size: Dims, nd: nat, buffer: seq<T>, put: Put<T>)
    requires nd <= AXES
  {
    exists q: Dims :: PutsCell(select, offset, size, nd, buffer, put, q)
  }

  ghost predicate IsPut<T>(select: Select, offset: Dims, size: Dims, nd: nat, buffer: seq<T>, puts: seq<Put<T>>, q: Dims)
    requires nd <= AXES
  {
    exists k :: 0 <= k < |puts| && PutsCell(select, offset, size, nd, buffer, puts[k], q)
  }

  /**
   * The puts of one call of DCDataSet::write, in any order: the selected cells of the buffer go to the box of the
   * dataset at `offset`. Nothing is put if the count has a zero, also on an axis that the data does not have.
   */
  ghost predicate PutsOfWrite<T>(select: Select, offset: Dims, size: Dims, nd: nat, buffer: seq<T>, puts: seq<Put<T>>)
    requires nd <= AXES
  {
    if ScalarSize(select.count) == 0 then puts == []
    else
      && (forall k | 0 <= k < |puts| :: PutsSome(select, offset, size, nd, buffer, puts[k]))
      && (forall q: Dims | InBoxN(q, offset, select.count, nd) :: IsPut(select, offset, size, nd, buffer, puts, q))
  }

  /** The box is in the dataset and the selection in the buffer, or its hyperslab left out. */
  ghost predicate Writable<T>(select: Select, offset: Dims, size: Dims, nd: nat, buffer: seq<T>) {
    && 1 <= nd <= AXES && ValidSource(size, select.count, offset, ONE, nd)
    && (SkipsSource(select) || ValidSource(select.size, select.count, select.offset, select.stride, nd))
    && |buffer| >= Prod(Phys(select.size, nd))
  }

  /** Different cells of the dataset have different places. */
  lemma CellsApart(q: Dims, q': Dims, size: Dims, nd: nat)
    requires 1 <= nd <= AXES && DataSet.Below(q, size, nd) && DataSet.Below(q', size, nd) && Lin(q, size, nd) == Lin(q', size, nd)
    ensures SameAxes(q, q', nd)
  {
    PhysInside(q, size, nd);
    PhysInside(q', size, nd);
    XFastest(q, size, nd);
    XFastest(q', size, nd);
    CoordFlat(Phys(q, nd), Phys(size, nd));
    CoordFlat(Phys(q', nd), Phys(size, nd));
    forall i | 0 <= i < nd ensures q[i] == q'[i] {
      assert Phys(q, nd)[nd - 1 - i] == Phys(q', nd)[nd - 1 - i];
    }
  }

  lemma BoxInside(q: Dims, offset: Dims, count: Dims, size: Dims, nd: nat)
    requires nd <= AXES && ValidSource(size, count, offset, ONE, nd) && InBoxN(q, offset, count, nd)
    ensures DataSet.Below(q, size, nd)
  {}

  lemma SameSource(select: Select, offset: Dims, nd: nat, q: Dims, q': Dims)
    requires nd <= AXES && SameAxes(q, q', nd) && forall i | 0 <= i < nd :: offset[i] <= q[i]
    ensures SourceIndex(select, offset, nd, q) == SourceIndex(select, offset, nd, q')
  {}

  lemma SameCellSameValue<T>(select: Select, offset: Dims, size: Dims, nd: nat, buffer: seq<T>, put: Put<T>, put': Put<T>, q: Dims, q': Dims)
    requires Writable(select, offset, size, nd, buffer) && put.cell == put'.cell
    requires PutsCell(select, offset, size, nd, buffer, put, q) && PutsCell(select, offset, size, nd, buffer, put', q')
    ensures put.value == put'.value
  {
    BoxInside(q, offset, select.count, size, nd);
    BoxInside(q', offset, select.count, size, nd);
    hide ValidSource, Lin, SourceIndex;
    CellsApart(q, q', size, nd);
    SameSource(select, offset, nd, q, q');
  }

  lemma PutInside<T>(select: Select, offset: Dims, size: Dims, nd: nat, buffer: seq<T>, put: Put<T>)
    requires Writable(select, offset, size, nd, buffer) && PutsSome(select, offset, size, nd, buffer, put)
    ensures put.cell < Prod(Phys(size, nd))
  {
    var q: Dims :| PutsCell(select, offset, size, nd, buffer, put, q);
    BoxInside(q, offset, select.count, size, nd);
    LinBelow(q, size, nd);
  }

  /** Selecting the target box or leaving its hyperslab out is the same for a box that is in the dataset. */
  lemma TargetIsBox(select: Select, offset: Dims, size: Dims, nd: nat)
    requires 1 <= nd <= AXES && ValidSource(size, select.count, offset, ONE, nd) && ScalarSize(select.count) > 0
    ensures SameAxes(TargetStart(select, offset, size), offset, nd)
  {}

  /**
   * A rank that is alone: once its puts are done, in any order, the dataset is what DCDataSet::write makes of it.
   */
  lemma AloneIsWrite<T>(select: Select, offset: Dims, size: Dims, nd: nat, buffer: seq<T>, puts: seq<Put<T>>, cells: seq<T>, schedule: seq<nat>)
    requires Writable(select, offset, size, nd, buffer) && PutsOfWrite(select, offset, size, nd, buffer, puts)
    requires |cells| == Prod(Phys(size, nd)) && ScalarSize(select.count) > 0
    ensures Fits([puts], Begin([puts], cells)) && WriteAccepted(select, offset, true, size, nd)
    ensures AllDone([puts], Play([puts], Begin([puts], cells), schedule)) ==>
              Play([puts], Begin([puts], cells), schedule).data == TransferSelected(cells, size, nd, select, offset, buffer)
  {
    var writers := [puts];
    forall k | 0 <= k < |puts| ensures puts[k].cell < |cells| {
      PutInside(select, offset, size, nd, buffer, puts[k]);
    }
    forall k, k' | 0 <= k < |puts| && 0 <= k' < |puts| && puts[k].cell == puts[k'].cell ensures puts[k].value == puts[k'].value {
      assert PutsSome(select, offset, size, nd, buffer, puts[k]) && PutsSome(select, offset, size, nd, buffer, puts[k']);
      var q: Dims :| PutsCell(select, offset, size, nd, buffer, puts[k], q);
      var q': Dims :| PutsCell(select, offset, size, nd, buffer, puts[k'], q');
      SameCellSameValue(select, offset, size, nd, buffer, puts[k], puts[k'], q, q');
    }
    assert Agreeing(writers);
    RunKeepsWritten(writers, cells, schedule);
    var after := TransferSelected(cells, size, nd, select, offset, buffer);
    var t := Play(writers, Begin(writers, cells), schedule);
    if AllDone(writers, t) {
      hide Writable, PutsOfWrite, TransferSelected, Play, Prod, Phys;
      forall c | 0 <= c < |cells| ensures t.data[c] == after[c] {
        CellAlone(select, offset, size, nd, buffer, puts, cells, t, after, c);
      }
    }
  }

  lemma CellAlone<T>(select: Select, offset: Dims, size: Dims, nd: nat, buffer: seq<T>, puts: seq<Put<T>>, cells: seq<T>,
                     t: State<T>, after: seq<T>, c: nat)
    requires Writable(select, offset, size, nd, buffer) && PutsOfWrite(select, offset, size, nd, buffer, puts)
    requires |cells| == Prod(Phys(size, nd)) && ScalarSize(select.count) > 0 && c < |cells|
    requires Fits([puts], t) && AllDone([puts], t) && Written([puts], cells, t)
    requires MovedSelection(cells, after, size, nd, select, offset, buffer)
    ensures c < |after| && t.data[c] == after[c]
  {
    PosAtIndex(c, size, nd);
    var p := PosAt(c, size, nd);
    TargetIsBox(select, offset, size, nd);
    var to := TargetStart(select, offset, size);
    assert MovedCell(cells, after, size, nd, to, select.count, buffer, select.size, SourceStart(select), select.stride, p);
    assert InBoxN(p, offset, select.count, nd) <==> InBoxN(p, to, select.count, nd);
    if InBoxN(p, offset, select.count, nd) {
      SameTarget(select, offset, to, nd, p);
      assert IsPut(select, offset, size, nd, buffer, puts, p);
      var k :| 0 <= k < |puts| && PutsCell(select, offset, size, nd, buffer, puts[k], p);
      assert [puts][0][k].cell == c;
    } else {
      NotPut(select, offset, size, nd, buffer, puts, p, c);
    }
  }

  lemma SameTarget(select: Select, offset: Dims, to: Dims, nd: nat, p: Dims)
    requires nd <= AXES && SameAxes(to, offset, nd) && forall i | 0 <= i < nd :: offset[i] <= p[i]
    ensures SourceIndex(select, offset, nd, p) == Lin(SourceCell(p, to, SourceStart(select), select.stride, nd), select.size, nd)
  {}

  lemma NotPut<T>(select: Select, offset: Dims, size: Dims, nd: nat, buffer: seq<T>, puts: seq<Put<T>>, p: Dims, c: nat)
    requires Writable(select, offset, size, nd, buffer) && PutsOfWrite(select, offset, size, nd, buffer, puts)
    requires ScalarSize(select.count) > 0 && DataSet.Below(p, size, nd) && Lin(p, size, nd) == c && !InBoxN(p, offset, select.count, nd)
    ensures forall k | 0 <= k < |puts| :: puts[k].cell != c
  {
    forall k | 0 <= k < |puts| ensures puts[k].cell != c {
      assert PutsSome(select, offset, size, nd, buffer, puts[k]);
      var q: Dims :| PutsCell(select, offset, size, nd, buffer, puts[k], q);
      BoxInside(q, offset, select.count, size, nd);
      if puts[k].cell == c {
        CellsApart(p, q, size, nd);
      }
    }
  }

  // ---- All ranks ----------------------------------------------------------------------------------

  lemma IntervalOfRank(sizes: seq<Dims>, nd: nat, topology: Dims, rank: nat, i: nat)
    requires AllGathered(sizes, nd, topology) && SizesFollowAxes(sizes, nd, topology) && rank < |sizes| && i < nd
    ensures var s, p := Sizes(sizes, nd, topology, i), PosOf(nd, topology, rank)[i];
            && p < |s| && sizes[rank][i] == s[p]
            && OffsetOf(sizes, nd, topology, rank)[i] == Sum(s[..p]) && GlobalSize(sizes, nd, topology)[i] == Sum(s)
  {}

  lemma RoomOnAxis(sizes: seq<Dims>, nd: nat, topology: Dims, rank: nat, i: nat)
    requires AllGathered(sizes, nd, topology) && SizesFollowAxes(sizes, nd, topology) && rank < |sizes| && i < nd
    ensures OffsetOf(sizes, nd, topology, rank)[i] + sizes[rank][i] <= GlobalSize(sizes, nd, topology)[i]
  {
    IntervalOfRank(sizes, nd, topology, rank, i);
    var s, p := Sizes(sizes, nd, topology, i), PosOf(nd, topology, rank)[i];
    hide SizesFollowAxes, OffsetOf, GlobalSize, PosOf, Sizes, AllGathered;
    SumStep(s, p);
    SumGrows(s, p + 1, |s|);
    assert s[..|s|] == s;
  }

  /** A rank's write has room at its offset; it is accepted exactly if its buffer holds the selection. */
  lemma AcceptedExactly(sizes: seq<Dims>, nd: nat, topology: Dims, rank: nat, select: Select)
    requires AllGathered(sizes, nd, topology) && SizesFollowAxes(sizes, nd, topology) && rank < |sizes|
    requires select.count == sizes[rank]
    ensures ValidSource(GlobalSize(sizes, nd, topology), select.count, OffsetOf(sizes, nd, topology, rank), ONE, nd)
    ensures WriteAccepted(select, OffsetOf(sizes, nd, topology, rank), true, GlobalSize(sizes, nd, topology), nd)
       <==> SkipsSource(select) || ValidSource(select.size, select.count, select.offset, select.stride, nd)
  {
    hide SizesFollowAxes, OffsetOf, GlobalSize;
    forall i | 0 <= i < nd
      ensures OffsetOf(sizes, nd, topology, rank)[i] + select.count[i] <= GlobalSize(sizes, nd, topology)[i]
    {
      RoomOnAxis(sizes, nd, topology, rank, i);
    }
  }

  /** What the ranks pass to the write: a selection as large as the size they gathered, and a buffer that holds it. */
  ghost predicate Calls<T>(sizes: seq<Dims>, nd: nat, selects: seq<Select>, buffers: seq<seq<T>>) {
    && 1 <= nd <= AXES && |selects| == |buffers| == |sizes|
    && forall r | 0 <= r < |sizes| ::
         && selects[r].count == sizes[r]
         && (SkipsSource(selects[r]) || ValidSource(selects[r].size, selects[r].count, selects[r].offset, selects[r].stride, nd))
         && |buffers[r]| >= Prod(Phys(selects[r].size, nd))
  }

  /** Every rank does the puts of its write. */
  ghost predicate RankWriters<T>(sizes: seq<Dims>, nd: nat, topology: Dims, selects: seq<Select>, buffers: seq<seq<T>>, writers: seq<seq<Put<T>>>)
    requires AllGathered(sizes, nd, topology)
  {
    && Calls(sizes, nd, selects, buffers) && |writers| == |sizes|
    && forall r | 0 <= r < |sizes| ::
         PutsOfWrite(selects[r], OffsetOf(sizes, nd, topology, r), GlobalSize(sizes, nd, topology), nd, buffers[r], writers[r])
  }

  /** The ranks' blocks tile the dataset. */
  ghost predicate Tiled(sizes: seq<Dims>, nd: nat, topology: Dims) {
    AllGathered(sizes, nd, topology) && SizesFollowAxes(sizes, nd, topology) && !Refused(nd, topology)
  }

  lemma RankWritable<T>(sizes: seq<Dims>, nd: nat, topology: Dims, selects: seq<Select>, buffers: seq<seq<T>>, r: nat)
    requires Tiled(sizes, nd, topology) && Calls(sizes, nd, selects, buffers) && r < |sizes|
    ensures Writable(selects[r], OffsetOf(sizes, nd, topology, r), GlobalSize(sizes, nd, topology), nd, buffers[r])
  {
    AcceptedExactly(sizes, nd, topology, r, selects[r]);
  }

  /** A put of a rank is for a cell of its block. */
  lemma PutOfRank<T>(sizes: seq<Dims>, nd: nat, topology: Dims, selects: seq<Select>, buffers: seq<seq<T>>, writers: seq<seq<Put<T>>>,
                     r: nat, k: nat) returns (q: Dims)
    requires Tiled(sizes, nd, topology) && RankWriters(sizes, nd, topology, selects, buffers, writers)
    requires r < |writers| && k < |writers[r]|
    ensures r < |sizes| && InBlock(sizes, nd, topology, r, q) && DataSet.Below(q, GlobalSize(sizes, nd, topology), nd)
    ensures PutsCell(selects[r], OffsetOf(sizes, nd, topology, r), GlobalSize(sizes, nd, topology), nd, buffers[r], writers[r][k], q)
    ensures writers[r][k].cell < Prod(Phys(GlobalSize(sizes, nd, topology), nd))
    ensures ScalarSize(sizes[r]) > 0
  {
    var offset, size := OffsetOf(sizes, nd, topology, r), GlobalSize(sizes, nd, topology);
    assert PutsOfWrite(selects[r], offset, size, nd, buffers[r], writers[r]) && selects[r].count == sizes[r];
    assert PutsSome(selects[r], offset, size, nd, buffers[r], writers[r][k]);
    q :| PutsCell(selects[r], offset, size, nd, buffers[r], writers[r][k], q);
    AcceptedExactly(sizes, nd, topology, r, selects[r]);
    BoxInside(q, offset, sizes[r], size, nd);
    LinBelow(q, size, nd);
  }

  /** Two puts to one cell are of one rank and carry one value. */
  lemma SamePut<T>(sizes: seq<Dims>, nd: nat, topology: Dims, selects: seq<Select>, buffers: seq<seq<T>>, writers: seq<seq<Put<T>>>,
                   r: nat, k: nat, r': nat, k': nat)
    requires Tiled(sizes, nd, topology) && RankWriters(sizes, nd, topology, selects, buffers, writers)
    requires r < |writers| && k < |writers[r]| && r' < |writers| && k' < |writers[r']| && writers[r][k].cell == writers[r'][k'].cell
    ensures r == r' && writers[r][k].value == writers[r'][k'].value
  {
    var q := PutOfRank(sizes, nd, topology, selects, buffers, writers, r, k);
    var q' := PutOfRank(sizes, nd, topology, selects, buffers, writers, r', k');
    var offset, size := OffsetOf(sizes, nd, topology, r), GlobalSize(sizes, nd, topology);
    RankWritable(sizes, nd, topology, selects, buffers, r);
    hide SizesFollowAxes, AllGathered, Writable;
    CellsApart(q, q', size, nd);
    assert InBlock(sizes, nd, topology, r', q);
    BlocksApart(sizes, nd, topology, r, r', q);
    SameCellSameValue(selects[r], offset, size, nd, buffers[r], writers[r][k], writers[r'][k'], q, q');
  }

  /** The ranks never put different values into one cell. */
  lemma RanksAgree<T>(sizes: seq<Dims>, nd: nat, topology: Dims, selects: seq<Select>, buffers: seq<seq<T>>, writers: seq<seq<Put<T>>>, blank: seq<T>)
    requires Tiled(sizes, nd, topology) && RankWriters(sizes, nd, topology, selects, buffers, writers)
    requires |blank| == Prod(Phys(GlobalSize(sizes, nd, topology), nd))
    ensures Agreeing(writers) && Fits(writers, Begin(writers, blank))
  {
    hide Tiled, RankWriters;
    forall r, k, r', k' | 0 <= r < |writers| && 0 <= k < |writers[r]| && 0 <= r' < |writers| && 0 <= k' < |writers[r']|
      && writers[r][k].cell == writers[r'][k'].cell
      ensures writers[r][k].value == writers[r'][k'].value
    {
      SamePut(sizes, nd, topology, selects, buffers, writers, r, k, r', k');
    }
    forall r, k | 0 <= r < |writers| && 0 <= k < |writers[r]| ensures writers[r][k].cell < |blank| {
      var q := PutOfRank(sizes, nd, topology, selects, buffers, writers, r, k);
    }
  }

  /** What the dataset holds at cell q of a rank's block: the cell of the rank's buffer, unless its count has a zero. */
  ghost predicate ShowsBlock<T>(sizes: seq<Dims>, nd: nat, topology: Dims, rank: nat, select: Select, buffer: seq<T>,
                                blank: seq<T>, data: seq<T>, q: Dims)
    requires AllGathered(sizes, nd, topology) && rank < |sizes| && select.count == sizes[rank]
  {
    var c, offset := Lin(q, GlobalSize(sizes, nd, topology), nd), OffsetOf(sizes, nd, topology, rank);
    && InBlock(sizes, nd, topology, rank, q) && c < |data| == |blank|
    && (ScalarSize(sizes[rank]) == 0 ==> data[c] == blank[c])
    && (ScalarSize(sizes[rank]) > 0 ==>
          SourceIndex(select, offset, nd, q) < |buffer| && data[c] == buffer[SourceIndex(select, offset, nd, q)])
  }

  lemma OnlyItsRank<T>(sizes: seq<Dims>, nd: nat, topology: Dims, selects: seq<Select>, buffers: seq<seq<T>>, writers: seq<seq<Put<T>>>,
                       r: nat, q: Dims, r': nat, k': nat)
    requires Tiled(sizes, nd, topology) && RankWriters(sizes, nd, topology, selects, buffers, writers)
    requires r < |sizes| && InBlock(sizes, nd, topology, r, q) && r' < |writers| && k' < |writers[r']|
    requires writers[r'][k'].cell == Lin(q, GlobalSize(sizes, nd, topology), nd)
    ensures ScalarSize(sizes[r]) > 0
  {
    var q' := PutOfRank(sizes, nd, topology, selects, buffers, writers, r', k');
    BlockInside(sizes, nd, topology, r, q);
    hide SizesFollowAxes, AllGathered;
    CellsApart(q, q', GlobalSize(sizes, nd, topology), nd);
    assert InBlock(sizes, nd, topology, r', q);
    BlocksApart(sizes, nd, topology, r, r', q);
  }

  /**
   * However the ranks interleave, once all are through every cell of the dataset holds what its rank selected for it
   * from its buffer.
   */
  lemma DatasetHoldsEveryBlock<T>(sizes: seq<Dims>, nd: nat, topology: Dims, selects: seq<Select>, buffers: seq<seq<T>>,
                                  writers: seq<seq<Put<T>>>, blank: seq<T>, schedule: seq<nat>, q: Dims) returns (r: nat)
    requires Tiled(sizes, nd, topology) && RankWriters(sizes, nd, topology, selects, buffers, writers)
    requires |blank| == Prod(Phys(GlobalSize(sizes, nd, topology), nd)) && DataSet.Below(q, GlobalSize(sizes, nd, topology), nd)
    ensures Fits(writers, Begin(writers, blank)) && r < |sizes| == |selects| == |buffers| && selects[r].count == sizes[r]
    ensures InBlock(sizes, nd, topology, r, q)
    ensures var t := Play(writers, Begin(writers, blank), schedule);
            AllDone(writers, t) ==> ShowsBlock(sizes, nd, topology, r, selects[r], buffers[r], blank, t.data, q)
  {
    RanksAgree(sizes, nd, topology, selects, buffers, writers, blank);
    RunKeepsWritten(writers, blank, schedule);
    r := BlocksCover(sizes, nd, topology, q);
    assert selects[r].count == sizes[r];
    LinBelow(q, GlobalSize(sizes, nd, topology), nd);
    var t := Play(writers, Begin(writers, blank), schedule);
    if AllDone(writers, t) {
      CellOfBlock(sizes, nd, topology, selects, buffers, writers, blank, t, r, q);
    }
  }

  lemma CellOfBlock<T>(sizes: seq<Dims>, nd: nat, topology: Dims, selects: seq<Select>, buffers: seq<seq<T>>,
                       writers: seq<seq<Put<T>>>, blank: seq<T>, t: State<T>, r: nat, q: Dims)
    requires Tiled(sizes, nd, topology) && RankWriters(sizes, nd, topology, selects, buffers, writers)
    requires r < |sizes| && InBlock(sizes, nd, topology, r, q) && Lin(q, GlobalSize(sizes, nd, topology), nd) < |blank|
    requires Fits(writers, t) && Written(writers, blank, t) && AllDone(writers, t)
    ensures selects[r].count == sizes[r] && ShowsBlock(sizes, nd, topology, r, selects[r], buffers[r], blank, t.data, q)
  {
    var offset, size := OffsetOf(sizes, nd, topology, r), GlobalSize(sizes, nd, topology);
    var c := Lin(q, size, nd);
    assert selects[r].count == sizes[r] && PutsOfWrite(selects[r], offset, size, nd, buffers[r], writers[r]);
    if ScalarSize(sizes[r]) > 0 {
      assert InBoxN(q, offset, selects[r].count, nd);
      assert IsPut(selects[r], offset, size, nd, buffers[r], writers[r], q);
      var k :| 0 <= k < |writers[r]| && PutsCell(selects[r], offset, size, nd, buffers[r], writers[r][k], q);
      assert t.data[writers[r][k].cell] == writers[r][k].value;
    } else {
      hide Tiled, RankWriters, PutsOfWrite, Fits;
      forall r', k' | 0 <= r' < |writers| && 0 <= k' < |writers[r']| ensures writers[r'][k'].cell != c {
        if writers[r'][k'].cell == c {
          OnlyItsRank(sizes, nd, topology, selects, buffers, writers, r, q, r', k');
        }
      }
    }
  }

  // ---- As if one after the other ------------------------------------------------------------------

  /** The dataset after rank r's call of DCDataSet::write. */
  function AfterRank<T>(sizes: seq<Dims>, nd: nat, topology: Dims, selects: seq<Select>, buffers: seq<seq<T>>, before: seq<T>, r: nat): (data: seq<T>)
    requires Tiled(sizes, nd, topology) && Calls(sizes, nd, selects, buffers) && r < |sizes|
    requires |before| == Prod(Phys(GlobalSize(sizes, nd, topology), nd))
    ensures |data| == |before|
  {
    if ScalarSize(sizes[r]) == 0 then before
    else
      AcceptedExactly(sizes, nd, topology, r, selects[r]);
      TransferSelected(before, GlobalSize(sizes, nd, topology), nd, selects[r], OffsetOf(sizes, nd, topology, r), buffers[r])
  }

  /** ... and after the first n ranks called it one after the other. */
  function OneByOne<T>(sizes: seq<Dims>, nd: nat, topology: Dims, selects: seq<Select>, buffers: seq<seq<T>>, blank: seq<T>, n: nat): (data: seq<T>)
    requires Tiled(sizes, nd, topology) && Calls(sizes, nd, selects, buffers) && n <= |sizes|
    requires |blank| == Prod(Phys(GlobalSize(sizes, nd, topology), nd))
    ensures |data| == |blank|
    decreases n
  {
    if n == 0 then blank
    else AfterRank(sizes, nd, topology, selects, buffers, OneByOne(sizes, nd, topology, selects, buffers, blank, n - 1), n - 1)
  }

  lemma WriteAt<T>(select: Select, offset: Dims, size: Dims, nd: nat, buffer: seq<T>, cells: seq<T>, q: Dims)
    requires Writable(select, offset, size, nd, buffer) && |cells| == Prod(Phys(size, nd)) && ScalarSize(select.count) > 0
    requires DataSet.Below(q, size, nd)
    ensures WriteAccepted(select, offset, true, size, nd) && Lin(q, size, nd) < |cells|
    ensures var after := TransferSelected(cells, size, nd, select, offset, buffer);
            && (InBoxN(q, offset, select.count, nd) ==>
                  SourceIndex(select, offset, nd, q) < |buffer| && after[Lin(q, size, nd)] == buffer[SourceIndex(select, offset, nd, q)])
            && (!InBoxN(q, offset, select.count, nd) ==> after[Lin(q, size, nd)] == cells[Lin(q, size, nd)])
  {
    TargetIsBox(select, offset, size, nd);
    var to := TargetStart(select, offset, size);
    var after := TransferSelected(cells, size, nd, select, offset, buffer);
    assert MovedCell(cells, after, size, nd, to, select.count, buffer, select.size, SourceStart(select), select.stride, q);
    assert InBoxN(q, offset, select.count, nd) <==> InBoxN(q, to, select.count, nd);
    if InBoxN(q, offset, select.count, nd) {
      SameTarget(select, offset, to, nd, q);
    }
  }

  /** After n ranks have written, cell q of rank r's block is as it was or as the rank wrote it. */
  ghost predicate SoFar<T>(sizes: seq<Dims>, nd: nat, topology: Dims, selects: seq<Select>, buffers: seq<seq<T>>,
                           blank: seq<T>, data: seq<T>, n: nat, r: nat, q: Dims)
    requires Tiled(sizes, nd, topology) && Calls(sizes, nd, selects, buffers) && r < |sizes|
  {
    var c := Lin(q, GlobalSize(sizes, nd, topology), nd);
    && c < |data| == |blank|
    && if r < n then ShowsBlock(sizes, nd, topology, r, selects[r], buffers[r], blank, data, q) else data[c] == blank[c]
  }

  /** Cell q of rank r's block changes by no other rank's write. */
  ghost predicate Turned<T>(sizes: seq<Dims>, nd: nat, topology: Dims, selects: seq<Select>, buffers: seq<seq<T>>,
                            before: seq<T>, data: seq<T>, m: nat, r: nat, q: Dims)
    requires Tiled(sizes, nd, topology) && Calls(sizes, nd, selects, buffers) && r < |sizes|
  {
    var c := Lin(q, GlobalSize(sizes, nd, topology), nd);
    && c < |data| == |before|
    && if m == r then ShowsBlock(sizes, nd, topology, r, selects[r], buffers[r], before, data, q) else data[c] == before[c]
  }

  lemma RankTurns<T>(sizes: seq<Dims>, nd: nat, topology: Dims, selects: seq<Select>, buffers: seq<seq<T>>, before: seq<T>,
                     m: nat, r: nat, q: Dims)
    requires Tiled(sizes, nd, topology) && Calls(sizes, nd, selects, buffers) && m < |sizes| && r < |sizes|
    requires |before| == Prod(Phys(GlobalSize(sizes, nd, topology), nd)) && InBlock(sizes, nd, topology, r, q)
    ensures Turned(sizes, nd, topology, selects, buffers, before, AfterRank(sizes, nd, topology, selects, buffers, before, m), m, r, q)
  {
    BlockInside(sizes, nd, topology, r, q);
    LinBelow(q, GlobalSize(sizes, nd, topology), nd);
    RankWritable(sizes, nd, topology, selects, buffers, m);
    assert selects[m].count == sizes[m] && |buffers[m]| >= Prod(Phys(selects[m].size, nd)) && selects[r].count == sizes[r];
    hide Writable, SizesFollowAxes, AllGathered, TransferSelected, Calls, GlobalSize, OffsetOf, WriteAccepted, SourceIndex;
    if InBlock(sizes, nd, topology, m, q) {
      BlocksApart(sizes, nd, topology, r, m, q);
    }
    if ScalarSize(sizes[m]) > 0 {
      WriteAt(selects[m], OffsetOf(sizes, nd, topology, m), GlobalSize(sizes, nd, topology), nd, buffers[m], before, q);
    }
  }

  lemma StillShown<T>(sizes: seq<Dims>, nd: nat, topology: Dims, selects: seq<Select>, buffers: seq<seq<T>>,
                      blank: seq<T>, before: seq<T>, data: seq<T>, n: nat, r: nat, q: Dims)
    requires Tiled(sizes, nd, topology) && Calls(sizes, nd, selects, buffers) && r < |sizes|
    requires SoFar(sizes, nd, topology, selects, buffers, blank, before, n, r, q)
    requires Turned(sizes, nd, topology, selects, buffers, before, data, n, r, q)
    ensures SoFar(sizes, nd, topology, selects, buffers, blank, data, n + 1, r, q)
  {
    assert selects[r].count == sizes[r];
    hide Calls, SizesFollowAxes, Positive, InBlock, GlobalSize, OffsetOf, SourceIndex, Lin;
  }

  lemma OneRankMore<T>(sizes: seq<Dims>, nd: nat, topology: Dims, selects: seq<Select>, buffers: seq<seq<T>>,
                       blank: seq<T>, before: seq<T>, m: nat, r: nat, q: Dims)
    requires Tiled(sizes, nd, topology) && Calls(sizes, nd, selects, buffers) && m < |sizes| && r < |sizes|
    requires |before| == Prod(Phys(GlobalSize(sizes, nd, topology), nd)) && InBlock(sizes, nd, topology, r, q)
    requires SoFar(sizes, nd, topology, selects, buffers, blank, before, m, r, q)
    ensures SoFar(sizes, nd, topology, selects, buffers, blank, AfterRank(sizes, nd, topology, selects, buffers, before, m), m + 1, r, q)
  {
    hide Tiled, Calls, SizesFollowAxes, AllGathered, AfterRank, InBlock, GlobalSize, Prod, Phys, SoFar, Turned;
    RankTurns(sizes, nd, topology, selects, buffers, before, m, r, q);
    StillShown(sizes, nd, topology, selects, buffers, blank, before,
               AfterRank(sizes, nd, topology, selects, buffers, before, m), m, r, q);
  }

  lemma NoneSoFar<T>(sizes: seq<Dims>, nd: nat, topology: Dims, selects: seq<Select>, buffers: seq<seq<T>>, blank: seq<T>, r: nat, q: Dims)
    requires Tiled(sizes, nd, topology) && Calls(sizes, nd, selects, buffers) && r < |sizes|
    requires |blank| == Prod(Phys(GlobalSize(sizes, nd, topology), nd)) && InBlock(sizes, nd, topology, r, q)
    ensures SoFar(sizes, nd, topology, selects, buffers, blank, blank, 0, r, q)
  {
    BlockInside(sizes, nd, topology, r, q);
    LinBelow(q, GlobalSize(sizes, nd, topology), nd);
  }

  lemma {:induction false} OneByOneAt<T>(sizes: seq<Dims>, nd: nat, topology: Dims, selects: seq<Select>, buffers: seq<seq<T>>, blank: seq<T>,
                                         n: nat, r: nat, q: Dims)
    requires Tiled(sizes, nd, topology) && Calls(sizes, nd, selects, buffers) && n <= |sizes| && r < |sizes|
    requires |blank| == Prod(Phys(GlobalSize(sizes, nd, topology), nd)) && InBlock(sizes, nd, topology, r, q)
    ensures SoFar(sizes, nd, topology, selects, buffers, blank, OneByOne(sizes, nd, topology, selects, buffers, blank, n), n, r, q)
    decreases n
  {
    hide Tiled, AllGathered, Calls, InBlock, GlobalSize, SoFar, AfterRank, Prod, Phys, Positive, ScalarSize;
    if n == 0 {
      NoneSoFar(sizes, nd, topology, selects, buffers, blank, r, q);
    } else {
      OneByOneAt(sizes, nd, topology, selects, buffers, blank, n - 1, r, q);
      OneRankMore(sizes, nd, topology, selects, buffers, blank, OneByOne(sizes, nd, topology, selects, buffers, blank, n - 1), n - 1, r, q);
    }
  }

  /** Every complete interleaving of the ranks' writes ends like the writes one after the other. */
  lemma ParallelIsOneByOne<T>(sizes: seq<Dims>, nd: nat, topology: Dims, selects: seq<Select>, buffers: seq<seq<T>>,
                              writers: seq<seq<Put<T>>>, blank: seq<T>, schedule: seq<nat>)
    requires Tiled(sizes, nd, topology) && RankWriters(sizes, nd, topology, selects, buffers, writers)
    requires |blank| == Prod(Phys(GlobalSize(sizes, nd, topology), nd))
    ensures Fits(writers, Begin(writers, blank))
    ensures var t := Play(writers, Begin(writers, blank), schedule);
            AllDone(writers, t) ==> t.data == OneByOne(sizes, nd, topology, selects, buffers, blank, |sizes|)
  {
    RanksAgree(sizes, nd, topology, selects, buffers, writers, blank);
    var t, serial := Play(writers, Begin(writers, blank), schedule), OneByOne(sizes, nd, topology, selects, buffers, blank, |sizes|);
    var size := GlobalSize(sizes, nd, topology);
    hide RankWriters, SizesFollowAxes, Play, Fits;
    forall c | 0 <= c < |blank| ensures AllDone(writers, t) ==> t.data[c] == serial[c] {
      PosAtIndex(c, size, nd);
      var q := PosAt(c, size, nd);
      var r := DatasetHoldsEveryBlock(sizes, nd, topology, selects, buffers, writers, blank, schedule, q);
      OneByOneAt(sizes, nd, topology, selects, buffers, blank, |sizes|, r, q);
    }
  }
}
