/** ParallelDataCollector: where every rank's block goes in the shared dataset. */
module ParallelLayout {
  import opened Arithmetic
  import opened Geometry
  import opened Options
  import opened Hdf5
  import opened DataSet
  import opened MpiGrid

  lemma {:induction false} SumGrows(s: seq<nat>, j: nat, k: nat)
    requires j <= k <= |s|
    ensures Sum(s[..j]) <= Sum(s[..k])
    decreases k
  {
    if j < k {
      SumGrows(s, j, k - 1);
      assert s[..k][..k - 1] == s[..k - 1];
    }
  }

  lemma SumStep(s: seq<nat>, k: nat)
    requires k < |s|
    ensures Sum(s[..k + 1]) == Sum(s[..k]) + s[k]
  {
    assert s[..k + 1][..k] == s[..k];
  }

  /** The interval of a sequence of sizes laid end to end that holds coordinate q. */
  lemma {:induction false} Locate(s: seq<nat>, q: nat, n: nat) returns (k: nat)
    requires n <= |s| && q < Sum(s[..n])
    ensures k < n && Sum(s[..k]) <= q < Sum(s[..k]) + s[k]
    decreases n
  {
    if n > 0 {
      SumStep(s, n - 1);
    }
    if q >= Sum(s[..n - 1]) {
      k := n - 1;
    } else {
      k := Locate(s, q, n - 1);
    }
  }

  lemma IntervalsApart(s: seq<nat>, j: nat, k: nat, q: nat)
    requires j < |s| && k < |s| && Sum(s[..j]) <= q < Sum(s[..j]) + s[j] && Sum(s[..k]) <= q < Sum(s[..k]) + s[k]
    ensures j == k
  {
    SumStep(s, j);
    SumStep(s, k);
    if j < k {
      SumGrows(s, j + 1, k);
    } else if k < j {
      SumGrows(s, k + 1, j);
    }
  }

  // ---- What the ranks compute ---------------------------------------------------------------------

  /** The process grid as gatherMPIWrites sees it: one row of all ranks for one-dimensional data. */
  function Topology(nd: nat, topology: Dims): Dims {
    if nd == 1 then [ScalarSize(topology), 1, 1] else topology
  }

  function PosOf(nd: nat, topology: Dims, rank: nat): Dims
    requires Positive(topology)
  {
    if nd == 1 then [rank, 0, 0] else IndexToPos(rank, topology)
  }

  /** The rank at coordinate k of axis i and 0 on the others. */
  function AxisRank(t: Dims, i: nat, k: nat): nat {
    if i == 0 then k else if i == 1 then k * t[0] else k * t[0] * t[1]
  }

  /** The write sizes along axis i, taken from the ranks on that axis. */
  function AxisSizes(sizes: seq<Dims>, t: Dims, i: nat): (s: seq<nat>)
    requires i < AXES && forall k | 0 <= k < t[i] :: AxisRank(t, i, k) < |sizes|
    ensures |s| == t[i] && forall k | 0 <= k < t[i] :: s[k] == sizes[AxisRank(t, i, k)][i]
  {
    seq(t[i], k requires 0 <= k < t[i] => sizes[AxisRank(t, i, k)][i])
  }

  /** AxisRank is the index of a position on the axis. */
  lemma AxisRankBelow(t: Dims, i: nat, k: nat)
    requires Positive(t) && i < AXES && k < t[i]
    ensures AxisRank(t, i, k) < ScalarSize(t)
    ensures AxisRank(t, i, k) == IndexOf(if i == 0 then [k, 0, 0] else if i == 1 then [0, k, 0] else [0, 0, k], t)
  {
    var pos: Dims := if i == 0 then [k, 0, 0] else if i == 1 then [0, k, 0] else [0, 0, k];
    PosOfIndex(pos, t);
  }

  ghost predicate AllGathered(sizes: seq<Dims>, nd: nat, topology: Dims) {
    1 <= nd <= AXES && Positive(topology) && |sizes| == ScalarSize(topology)
  }

  lemma TopologyFits(sizes: seq<Dims>, nd: nat, topology: Dims)
    requires AllGathered(sizes, nd, topology)
    ensures Positive(Topology(nd, topology)) && ScalarSize(Topology(nd, topology)) == |sizes|
    ensures forall i, k | 0 <= i < AXES && 0 <= k < Topology(nd, topology)[i] :: AxisRank(Topology(nd, topology), i, k) < |sizes|
  {
    var t := Topology(nd, topology);
    forall i, k | 0 <= i < AXES && 0 <= k < t[i] ensures AxisRank(t, i, k) < |sizes| {
      AxisRankBelow(t, i, k);
    }
  }

  /** The sizes along axis i as every rank sees them after the allgather. */
  function Sizes(sizes: seq<Dims>, nd: nat, topology: Dims, i: nat): (s: seq<nat>)
    requires AllGathered(sizes, nd, topology) && i < AXES
    ensures |s| == Topology(nd, topology)[i]
  {
    TopologyFits(sizes, nd, topology);
    AxisSizes(sizes, Topology(nd, topology), i)
  }

  lemma RankInTopology(nd: nat, topology: Dims, rank: nat)
    requires Positive(topology) && rank < ScalarSize(topology)
    ensures OnGrid(PosOf(nd, topology, rank), Topology(nd, topology))
  {
    if nd != 1 {
      IndexOfPos(rank, topology);
    }
  }

  function GlobalSize(sizes: seq<Dims>, nd: nat, topology: Dims): Dims
    requires AllGathered(sizes, nd, topology)
  {
    [Sum(Sizes(sizes, nd, topology, 0)),
     if nd > 1 then Sum(Sizes(sizes, nd, topology, 1)) else 1,
     if nd > 2 then Sum(Sizes(sizes, nd, topology, 2)) else 1]
  }

  function OffsetOf(sizes: seq<Dims>, nd: nat, topology: Dims, rank: nat): Dims
    requires AllGathered(sizes, nd, topology) && rank < |sizes|
  {
    RankInTopology(nd, topology, rank);
    var p := PosOf(nd, topology, rank);
    [Sum(Sizes(sizes, nd, topology, 0)[..p[0]]),
     if nd > 1 then Sum(Sizes(sizes, nd, topology, 1)[..p[1]]) else 0,
     if nd > 2 then Sum(Sizes(sizes, nd, topology, 2)[..p[2]]) else 0]
  }

  ghost predicate Refused(nd: nat, topology: Dims) {
    nd == 2 && topology[2] > 1
  }

  /**
   * gatherMPIWrites: the global size is the same on every rank, a rank's offset is the sum of the
   * sizes before it on each axis. Two-dimensional data on a three-dimensional grid is refused.
   */
  method GatherMPIWrites(nd: nat, topology: Dims, rank: nat, sizes: seq<Dims>) returns (layout: Option<(Dims, Dims)>)
    requires AllGathered(sizes, nd, topology) && rank < |sizes|
    ensures layout.None? <==> nd == 2 && topology[2] > 1
    ensures layout.Some? ==> layout.value == (GlobalSize(sizes, nd, topology), OffsetOf(sizes, nd, topology, rank))
  {
    hide Quot, Rem, Sum;
    var globalSize, globalOffset := ONE, ZERO;
    var t, pos := topology, IndexToPos(rank, topology);
    if nd == 1 {
      t := [ScalarSize(topology), 1, 1];
      pos := [rank, 0, 0];
    }
    if nd == 2 && t[2] > 1 {
      return None;
    }
    TopologyFits(sizes, nd, topology);
    RankInTopology(nd, topology, rank);
    for i := 0 to nd
      invariant forall j | 0 <= j < i :: globalSize[j] == Sum(Sizes(sizes, nd, topology, j))
      invariant forall j | 0 <= j < i :: globalOffset[j] == Sum(Sizes(sizes, nd, topology, j)[..pos[j]])
      invariant forall j | i <= j < AXES :: globalSize[j] == 1 && globalOffset[j] == 0
    {
      var total, before := AddUp(sizes, t, pos[i], i);
      globalSize := globalSize[i := total];
      globalOffset := globalOffset[i := before];
    }
    assert globalSize == [globalSize[0], globalSize[1], globalSize[2]];
    assert globalOffset == [globalOffset[0], globalOffset[1], globalOffset[2]];
    return Some((globalSize, globalOffset));
  }

  /** The inner loop over the ranks of one axis. */
  method AddUp(sizes: seq<Dims>, t: Dims, pos: nat, i: nat) returns (total: nat, before: nat)
    requires i < AXES && (forall k | 0 <= k < t[i] :: AxisRank(t, i, k) < |sizes|) && pos < t[i]
    ensures total == Sum(AxisSizes(sizes, t, i)) && before == Sum(AxisSizes(sizes, t, i)[..pos])
  {
    ghost var s := AxisSizes(sizes, t, i);
    total, before := 0, 0;
    for dim := 0 to t[i]
      invariant total == Sum(s[..dim]) && before == Sum(s[..Min(dim, pos)])
    {
      SumStep(s, dim);
      var index := if i == 0 then dim else if i == 1 then dim * t[0] else dim * t[0] * t[1];
      total := total + sizes[index][i];
      if dim < pos {
        before := before + sizes[index][i];
      }
    }
    assert s[..t[i]] == s;
  }

  // ---- The blocks tile the dataset ----------------------------------------------------------------

  /** The write size of a rank on an axis depends only on its position on that axis. */
  ghost predicate SizesFollowAxes(sizes: seq<Dims>, nd: nat, topology: Dims)
    requires AllGathered(sizes, nd, topology)
  {
    forall rank, i | 0 <= rank < |sizes| && 0 <= i < nd ::
      var p := PosOf(nd, topology, rank)[i];
      p < |Sizes(sizes, nd, topology, i)| && sizes[rank][i] == Sizes(sizes, nd, topology, i)[p]
  }

  /** For one-dimensional data any sizes do. */
  lemma OneDimensionalSizesFollow(sizes: seq<Dims>, topology: Dims)
    requires AllGathered(sizes, 1, topology)
    ensures SizesFollowAxes(sizes, 1, topology)
  {}

  ghost predicate InBlock(sizes: seq<Dims>, nd: nat, topology: Dims, rank: nat, q: Dims)
    requires AllGathered(sizes, nd, topology) && rank < |sizes|
  {
    InBoxN(q, OffsetOf(sizes, nd, topology, rank), sizes[rank], nd)
  }

  /** A cell belongs to a rank's block when on every axis it lies in the interval of the rank's position. */
  lemma BlockPerAxis(sizes: seq<Dims>, nd: nat, topology: Dims, rank: nat, q: Dims)
    requires AllGathered(sizes, nd, topology) && SizesFollowAxes(sizes, nd, topology) && rank < |sizes|
    ensures OnGrid(PosOf(nd, topology, rank), Topology(nd, topology))
    ensures InBlock(sizes, nd, topology, rank, q) <==>
              forall i | 0 <= i < nd ::
                var s, p := Sizes(sizes, nd, topology, i), PosOf(nd, topology, rank)[i];
                p < |s| && Sum(s[..p]) <= q[i] < Sum(s[..p]) + s[p]
  {
    RankInTopology(nd, topology, rank);
    var off := OffsetOf(sizes, nd, topology, rank);
    forall i | 0 <= i < nd
      ensures var s, p := Sizes(sizes, nd, topology, i), PosOf(nd, topology, rank)[i];
              p < |s| && off[i] == Sum(s[..p]) && sizes[rank][i] == s[p]
    {
    }
  }

  /** Ranks at the same position on every axis that counts are the same rank. */
  lemma SamePosition(nd: nat, topology: Dims, r: nat, r': nat)
    requires 1 <= nd <= AXES && Positive(topology) && r < ScalarSize(topology) && r' < ScalarSize(topology) && !Refused(nd, topology)
    requires forall i | 0 <= i < nd :: PosOf(nd, topology, r)[i] == PosOf(nd, topology, r')[i]
    ensures r == r'
  {
    hide Quot, Rem;
    var p, p' := PosOf(nd, topology, r), PosOf(nd, topology, r');
    assert p[0] == p'[0];
    if nd > 1 {
      IndexOfPos(r, topology);
      IndexOfPos(r', topology);
      assert p[1] == p'[1];
      assert p[2] == p'[2];
      assert p == p';
    }
  }

  /** The blocks of different ranks do not overlap. */
  lemma BlocksApart(sizes: seq<Dims>, nd: nat, topology: Dims, r: nat, r': nat, q: Dims)
    requires AllGathered(sizes, nd, topology) && SizesFollowAxes(sizes, nd, topology) && !Refused(nd, topology)
    requires r < |sizes| && r' < |sizes| && InBlock(sizes, nd, topology, r, q) && InBlock(sizes, nd, topology, r', q)
    ensures r == r'
  {
    BlockPerAxis(sizes, nd, topology, r, q);
    BlockPerAxis(sizes, nd, topology, r', q);
    forall i | 0 <= i < nd ensures PosOf(nd, topology, r)[i] == PosOf(nd, topology, r')[i] {
      IntervalsApart(Sizes(sizes, nd, topology, i), PosOf(nd, topology, r)[i], PosOf(nd, topology, r')[i], q[i]);
    }
    SamePosition(nd, topology, r, r');
  }

  /** Every cell of the dataset lies in some rank's block. */
  lemma BlocksCover(sizes: seq<Dims>, nd: nat, topology: Dims, q: Dims) returns (r: nat)
    requires AllGathered(sizes, nd, topology) && SizesFollowAxes(sizes, nd, topology) && !Refused(nd, topology)
    requires Below(q, GlobalSize(sizes, nd, topology), nd)
    ensures r < |sizes| && InBlock(sizes, nd, topology, r, q)
  {
    hide Quot, Rem, IndexOf, InBlock, SizesFollowAxes;
    TopologyFits(sizes, nd, topology);
    var x := LocateOn(sizes, nd, topology, q, 0);
    var y, z := 0, 0;
    if nd > 1 {
      y := LocateOn(sizes, nd, topology, q, 1);
    }
    if nd > 2 {
      z := LocateOn(sizes, nd, topology, q, 2);
    }
    var pos: Dims := [x, y, z];
    assert OnGrid(pos, Topology(nd, topology));
    r := x;
    if nd > 1 {
      PosOfIndex(pos, topology);
      r := IndexOf(pos, topology);
    }
    assert PosOf(nd, topology, r) == pos;
    BlockPerAxis(sizes, nd, topology, r, q);
    forall i | 0 <= i < nd
      ensures var s, p := Sizes(sizes, nd, topology, i), pos[i];
              p < |s| && Sum(s[..p]) <= q[i] < Sum(s[..p]) + s[p]
    {}
  }

  lemma LocateOn(sizes: seq<Dims>, nd: nat, topology: Dims, q: Dims, i: nat) returns (k: nat)
    requires AllGathered(sizes, nd, topology) && i < nd && q[i] < GlobalSize(sizes, nd, topology)[i]
    ensures var s := Sizes(sizes, nd, topology, i); k < |s| && Sum(s[..k]) <= q[i] < Sum(s[..k]) + s[k]
  {
    var s := Sizes(sizes, nd, topology, i);
    assert s[..|s|] == s;
    assert q[i] < Sum(s);
    k := Locate(s, q[i], |s|);
  }

  /** No block reaches beyond the dataset. */
  lemma BlockInside(sizes: seq<Dims>, nd: nat, topology: Dims, r: nat, q: Dims)
    requires AllGathered(sizes, nd, topology) && SizesFollowAxes(sizes, nd, topology) && r < |sizes|
    requires InBlock(sizes, nd, topology, r, q)
    ensures Below(q, GlobalSize(sizes, nd, topology), nd)
  {
    BlockPerAxis(sizes, nd, topology, r, q);
    forall i | 0 <= i < nd ensures q[i] < GlobalSize(sizes, nd, topology)[i] {
      var s, p := Sizes(sizes, nd, topology, i), PosOf(nd, topology, r)[i];
      SumStep(s, p);
      SumGrows(s, p + 1, |s|);
      assert s[..|s|] == s;
    }
  }

  // ---- Which block is whose -----------------------------------------------------------------------

  /** Rank 0 begins at the origin of the dataset. */
  lemma FirstRank(sizes: seq<Dims>, nd: nat, topology: Dims)
    requires AllGathered(sizes, nd, topology)
    ensures |sizes| > 0 && OffsetOf(sizes, nd, topology, 0) == ZERO
  {
    PosOfIndex(ZERO, topology);
    assert IndexOf(ZERO, topology) == 0;
    assert PosOf(nd, topology, 0) == ZERO;
    hide Quot, Rem, IndexOf, PosOf;
  }

  /** How many ranks further the neighbour along an axis is: ranks count x first, then y, then z. */
  function Stride(topology: Dims, i: nat): nat
    requires i < AXES
  {
    if i == 0 then 1 else if i == 1 then topology[0] else topology[0] * topology[1]
  }

  /** The rank has a neighbour behind it along the axis. */
  predicate HasNext(nd: nat, topology: Dims, rank: nat, i: nat)
    requires i < AXES && topology[0] > 0 && topology[1] > 0
  {
    && rank + Stride(topology, i) < ScalarSize(topology)
    && (nd > 1 && i == 0 ==> rank % topology[0] + 1 < topology[0])
    && (nd > 1 && i == 1 ==> rank / topology[0] % topology[1] + 1 < topology[1])
  }

  /** A rank in the terms of its row and plane. */
  lemma RowAndPlane(rank: nat, topology: Dims)
    requires Positive(topology) && rank < ScalarSize(topology)
    ensures var p := IndexToPos(rank, topology);
            OnGrid(p, topology) && IndexOf(p, topology) == rank && p[0] == rank % topology[0] && p[1] == rank / topology[0] % topology[1]
  {
    IndexOfPos(rank, topology);
    var p := IndexToPos(rank, topology);
    Grouped(p[0], p[1], p[2], topology[0], topology[1]);
    QuotRem(p[1] + p[2] * topology[1], topology[0], p[0]);
    QuotRem(p[2], topology[1], p[1]);
    assert Quot(rank, topology[0]) == rank / topology[0] && Rem(rank, topology[0]) == rank % topology[0];
    var q := rank / topology[0];
    assert Rem(q, topology[1]) == q % topology[1];
  }

  lemma NextIndexAlong(p: Dims, topology: Dims, i: nat)
    requires i < AXES
    ensures IndexOf(p[i := p[i] + 1], topology) == IndexOf(p, topology) + Stride(topology, i)
  {
    hide IndexOf;
    NextIndex(p, topology);
    assert p[0 := p[0] + 1] == [p[0] + 1, p[1], p[2]] && p[1 := p[1] + 1] == [p[0], p[1] + 1, p[2]] && p[2 := p[2] + 1] == [p[0], p[1], p[2] + 1];
  }

  /** Below the number of ranks there is a plane behind. */
  lemma PlaneBehind(p: Dims, topology: Dims)
    requires OnGrid(p, topology) && IndexOf(p, topology) + Stride(topology, 2) < ScalarSize(topology)
    ensures p[2] + 1 < topology[2]
  {
    var plane := topology[0] * topology[1];
    Grouped(p[0], p[1], p[2], topology[0], topology[1]);
    MulSuccessor(p[2], plane);
    MulMonotone(topology[2], p[2] + 1, plane);
    if p[2] + 1 >= topology[2] {
      assert topology[2] == p[2] + 1;
      Commute(plane, topology[2]);
    }
  }

  lemma NextPosition(nd: nat, topology: Dims, rank: nat, i: nat)
    requires 1 <= nd <= AXES && Positive(topology) && i < nd && HasNext(nd, topology, rank, i)
    ensures forall j | 0 <= j < AXES ::
              PosOf(nd, topology, rank + Stride(topology, i))[j] == PosOf(nd, topology, rank)[j] + (if i == j then 1 else 0)
  {
    if nd > 1 {
      var p := IndexToPos(rank, topology);
      RowAndPlane(rank, topology);
      NextIndexAlong(p, topology, i);
      if i == 2 {
        PlaneBehind(p, topology);
      }
      hide IndexToPos, IndexOf;
      PosOfIndex(p[i := p[i] + 1], topology);
    }
  }

  /** A rank one further along axis i begins behind the rank's size on that axis. */
  lemma NextOnAxis(sizes: seq<Dims>, nd: nat, topology: Dims, rank: nat, next: nat, i: nat, j: nat)
    requires AllGathered(sizes, nd, topology) && SizesFollowAxes(sizes, nd, topology) && rank < |sizes| && next < |sizes| && i < nd && j < AXES
    requires PosOf(nd, topology, next)[j] == PosOf(nd, topology, rank)[j] + (if i == j then 1 else 0)
    ensures OffsetOf(sizes, nd, topology, next)[j] == OffsetOf(sizes, nd, topology, rank)[j] + (if i == j then sizes[rank][i] else 0)
  {
    RankInTopology(nd, topology, rank);
    RankInTopology(nd, topology, next);
    if i == j {
      var s, p := Sizes(sizes, nd, topology, i), PosOf(nd, topology, rank);
      assert sizes[rank][i] == s[p[i]];
      SumStep(s, p[i]);
    }
  }

  lemma NextIsRank(nd: nat, topology: Dims, sizes: seq<Dims>, rank: nat, i: nat)
    requires AllGathered(sizes, nd, topology) && i < nd && HasNext(nd, topology, rank, i)
    ensures rank + Stride(topology, i) < |sizes| && i < AXES
  {}

  /**
   * The block of the neighbour along an axis begins where the rank's block ends on that axis, and where it begins on
   * the others.
   */
  lemma NextBlock(sizes: seq<Dims>, nd: nat, topology: Dims, rank: nat, i: nat)
    requires AllGathered(sizes, nd, topology) && SizesFollowAxes(sizes, nd, topology)
    requires i < nd && HasNext(nd, topology, rank, i)
    ensures rank + Stride(topology, i) < |sizes|
    ensures forall j | 0 <= j < AXES ::
              OffsetOf(sizes, nd, topology, rank + Stride(topology, i))[j]
              == OffsetOf(sizes, nd, topology, rank)[j] + (if i == j then sizes[rank][i] else 0)
  {
    NextIsRank(nd, topology, sizes, rank, i);
    NextPosition(nd, topology, rank, i);
    var next := rank + Stride(topology, i);
    hide OffsetOf, SizesFollowAxes, PosOf, Stride, HasNext, AllGathered;
    forall j | 0 <= j < AXES
      ensures OffsetOf(sizes, nd, topology, next)[j] == OffsetOf(sizes, nd, topology, rank)[j] + (if i == j then sizes[rank][i] else 0)
    {
      NextOnAxis(sizes, nd, topology, rank, next, i, j);
    }
  }
}
