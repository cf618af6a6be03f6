/** DomainCollector::readDomain, first half: where the global domain begins, and where the request begins. */
module CornerSearch {
  import opened Geometry
  import opened FileGrid
  import opened Options

  /** ceil(((double) hi - (double) lo) / 2.0) for hi >= lo. */
  function HalfUp(d: nat): nat {
    (d + 1) / 2
  }

  /** DomainCollector::readDomainInfoForRank: a request of size (0,0,0) meets nothing. */
  method ReadDomainInfoForRank<T>(g: FileGrid<T>, pos: Dims, request: Domain) returns (hit: bool, fileDomain: Domain)
    requires pos in g.files && g.files[pos].FileDomain().Positive()
    requires request.size == ZERO || request.Positive()
    ensures fileDomain == g.files[pos].FileDomain()
    ensures forall i | 0 <= i < AXES ::
              && fileDomain.offset[i] == g.files[pos].globalOffset[i] + g.files[pos].offset[i]
              && fileDomain.size[i] == g.files[pos].size[i]
    ensures hit <==> exists q: Dims :: request.Contains(q) && fileDomain.Contains(q)
  {
    var file := g.files[pos];
    fileDomain := Domain(Add(file.offset, file.globalOffset), file.size);
    if request.size == ZERO {
      assert forall q: Dims :: !request.Contains(q) by {
        forall q: Dims ensures !request.Contains(q) {
          assert request.size[0] == 0;
        }
      }
      return false, fileDomain;
    }
    hit := TestIntersection(request, fileDomain);
    IntersectionMeansSharedCell(request, fileDomain);
  }

  // ---- The rotation point -----------------------------------------------------------------------

  datatype ZeroState = ZeroState(below: nat, above: nat, delta: nat)

  /**
   * The three states an axis can be in while the position k of the lowest file is looked for: k lies
   * between below (excluded) and above; below is k; or the last jump went past k and undoing it by
   * delta puts k back between the two ends.
   */
  ghost predicate ZeroInvariant(s: ZeroState, k: nat, n: nat) {
    && s.below <= s.above < n
    && (|| s.below < k <= s.above
        || s.below == k
        || (s.below > k && s.delta <= s.below && s.below - s.delta < k <= s.above - s.delta))
  }

  /** The for loop body for one axis as a function of the two offsets that were read. */
  function ZeroStep(minOff: nat, maxOff: nat, globalOff: nat, s: ZeroState): (r: ZeroState)
    requires s.below <= s.above
    requires minOff <= maxOff && minOff != globalOff ==> s.delta <= s.below
  {
    if minOff > maxOff then
      var d := HalfUp(s.above - s.below);
      ZeroState(s.below + d, s.above, d)
    else if minOff == globalOff then
      s.(delta := 0)
    else
      ZeroState(s.below - s.delta, s.above - s.delta, s.delta)
  }

  ghost function ZeroMeasure(s: ZeroState, k: nat): nat
    requires s.below <= s.above
  {
    if s.below == k then (if s.delta == 0 then 0 else 1)
    else 2 * (s.above - s.below) + (if s.below < k then 0 else 1)
  }

  /** The offsets read by one pass at the two ends of an axis. */
  ghost predicate ZeroReads(a: Axis, s: ZeroState, minOff: nat, maxOff: nat, globalOff: nat)
    requires a.Valid()
  {
    && s.below < a.N() && s.above < a.N()
    && minOff == a.Start(s.below) && maxOff == a.Start(s.above)
    && (a.N() == 1 || globalOff == a.cuts[0])
  }

  /** What one pass does to one axis: the target is kept, and an axis that is not done made progress. */
  ghost predicate ZeroAdvanced(a: Axis, s: ZeroState, r: ZeroState)
    requires a.Valid()
  {
    && s.below <= s.above
    && ZeroInvariant(r, a.shift, a.N())
    && (a.N() == 1 ==> r.delta == 0)
    && (r.delta == 0 ==> r.below == a.shift)
    && ZeroMeasure(r, a.shift) <= ZeroMeasure(s, a.shift)
    && (r.delta != 0 ==> ZeroMeasure(r, a.shift) < ZeroMeasure(s, a.shift))
  }

  /**
   * One pass never loses the rotation point: it halves the interval on a jump, keeps its length when
   * it steps back, and stands still once it is there. delta is 0 afterwards exactly when the pass
   * began on the rotation point.
   */
  lemma ZeroStepKeepsTarget(a: Axis, s: ZeroState, minOff: nat, maxOff: nat, globalOff: nat)
    requires a.Valid() && ZeroInvariant(s, a.shift, a.N()) && ZeroReads(a, s, minOff, maxOff, globalOff)
    requires a.N() == 1 ==> s.delta == 0
    ensures minOff <= maxOff && minOff != globalOff ==> s.delta <= s.below
    ensures var r := ZeroStep(minOff, maxOff, globalOff, s);
            && ZeroAdvanced(a, s, r)
            && (r.delta == 0 <==> s.below == a.shift)
            && (s.below == a.shift ==> r.below == a.shift && r.above == s.above)
            && (s.below < a.shift ==> r.above == s.above && r.above - r.below == (s.above - s.below) / 2)
            && (s.below > a.shift ==> r.below < a.shift && r.above - r.below == s.above - s.below)
  {}

  ghost function At(below: Dims, above: Dims, delta: Dims, i: nat): ZeroState
    requires i < AXES
  {
    ZeroState(below[i], above[i], delta[i])
  }

  ghost predicate ZeroInvariants(ax: seq<Axis>, below: Dims, above: Dims, delta: Dims)
    requires ValidAxes(ax)
  {
    forall i | 0 <= i < AXES ::
      && ZeroInvariant(At(below, above, delta, i), ax[i].shift, ax[i].N())
      && (ax[i].N() == 1 ==> delta[i] == 0)
  }

  ghost function ZeroTotal(ax: seq<Axis>, below: Dims, above: Dims, delta: Dims): nat
    requires ValidAxes(ax) && ZeroInvariants(ax, below, above, delta)
  {
    ZeroMeasure(At(below, above, delta, 0), ax[0].shift)
    + ZeroMeasure(At(below, above, delta, 1), ax[1].shift)
    + ZeroMeasure(At(below, above, delta, 2), ax[2].shift)
  }

  /** The pass read the offsets at both ends of every axis. */
  ghost predicate ZeroReadsAll(ax: seq<Axis>, below: Dims, above: Dims, delta: Dims,
                               minOff: Dims, maxOff: Dims, globalOff: Dims)
    requires ValidAxes(ax)
  {
    forall i | 0 <= i < AXES :: ZeroReads(ax[i], At(below, above, delta, i), minOff[i], maxOff[i], globalOff[i])
  }

  method ZeroAxis(ghost a: Axis, s: ZeroState, minOff: nat, maxOff: nat, globalOff: nat) returns (r: ZeroState)
    requires a.Valid() && ZeroInvariant(s, a.shift, a.N()) && ZeroReads(a, s, minOff, maxOff, globalOff)
    requires a.N() == 1 ==> s.delta == 0
    ensures ZeroAdvanced(a, s, r)
  {
    ZeroStepKeepsTarget(a, s, minOff, maxOff, globalOff);
    r := s;
    if minOff > maxOff {
      r := r.(delta := HalfUp(r.above - r.below));
      r := r.(below := r.below + r.delta);
    } else if minOff == globalOff {
      r := r.(delta := 0);
    } else {
      r := r.(below := r.below - r.delta, above := r.above - r.delta);
    }
  }

  /** The for loop over the axes inside the search. */
  method ZeroPass(ghost ax: seq<Axis>, below0: Dims, above0: Dims, delta0: Dims,
                  minOff: Dims, maxOff: Dims, globalOff: Dims)
    returns (below: Dims, above: Dims, delta: Dims)
    requires ValidAxes(ax) && ZeroInvariants(ax, below0, above0, delta0)
    requires ZeroReadsAll(ax, below0, above0, delta0, minOff, maxOff, globalOff)
    ensures ZeroInvariants(ax, below, above, delta)
    ensures delta == ZERO ==> forall i | 0 <= i < AXES :: below[i] == ax[i].shift
    ensures delta != ZERO ==> ZeroTotal(ax, below, above, delta) < ZeroTotal(ax, below0, above0, delta0)
  {
    below, above, delta := below0, above0, delta0;
    for i := 0 to AXES
      invariant forall j | i <= j < AXES :: At(below, above, delta, j) == At(below0, above0, delta0, j)
      invariant forall j | 0 <= j < i :: ZeroAdvanced(ax[j], At(below0, above0, delta0, j), At(below, above, delta, j))
    {
      ghost var s := At(below0, above0, delta0, i);
      ghost var was := (below, above, delta);
      assert s == At(below, above, delta, i);
      var r := ZeroAxis(ax[i], ZeroState(below[i], above[i], delta[i]), minOff[i], maxOff[i], globalOff[i]);
      below, above, delta := below[i := r.below], above[i := r.above], delta[i := r.delta];
      assert At(below, above, delta, i) == r;
      assert forall j | 0 <= j < AXES && j != i :: At(below, above, delta, j) == At(was.0, was.1, was.2, j);
    }
    ZeroPassDone(ax, below0, above0, delta0, below, above, delta);
  }

  lemma ZeroPassDone(ax: seq<Axis>, below0: Dims, above0: Dims, delta0: Dims, below: Dims, above: Dims, delta: Dims)
    requires ValidAxes(ax) && ZeroInvariants(ax, below0, above0, delta0)
    requires forall i | 0 <= i < AXES :: ZeroAdvanced(ax[i], At(below0, above0, delta0, i), At(below, above, delta, i))
    ensures ZeroInvariants(ax, below, above, delta)
    ensures delta == ZERO ==> forall i | 0 <= i < AXES :: below[i] == ax[i].shift
    ensures delta != ZERO ==> ZeroTotal(ax, below, above, delta) < ZeroTotal(ax, below0, above0, delta0)
  {}

  /** Searches all three axes at once for the position whose file starts at the global offset. */
  method FindZero<T>(g: FileGrid<T>, ghost ax: seq<Axis>) returns (belowZero: Dims)
    requires Regular(g, ax)
    ensures forall i | 0 <= i < AXES :: belowZero[i] == ax[i].shift
  {
    var last: Dims := [g.mpiSize[0] - 1, g.mpiSize[1] - 1, g.mpiSize[2] - 1];
    assert g.InRange(last);
    var globalOffset := g.files[last].globalOffset;
    var delta := ZERO;
    belowZero := ZERO;
    var aboveZero := last;
    while true
      invariant ZeroInvariants(ax, belowZero, aboveZero, delta)
      decreases ZeroTotal(ax, belowZero, aboveZero, delta)
    {
      InRangeFromInvariants(g, ax, belowZero, aboveZero, delta);
      FileAt(g, ax, belowZero);
      FileAt(g, ax, aboveZero);
      var _, minDom := ReadDomainInfoForRank(g, belowZero, Domain(ZERO, ZERO));
      var _, maxDom := ReadDomainInfoForRank(g, aboveZero, Domain(ZERO, ZERO));
      ReadsFromFiles(g, ax, belowZero, aboveZero, delta, last);
      belowZero, aboveZero, delta := ZeroPass(ax, belowZero, aboveZero, delta, minDom.offset, maxDom.offset, globalOffset);
      if !(delta != ZERO) {
        break;
      }
    }
  }

  lemma InRangeFromInvariants<T>(g: FileGrid<T>, ax: seq<Axis>, below: Dims, above: Dims, delta: Dims)
    requires Regular(g, ax) && ZeroInvariants(ax, below, above, delta)
    ensures g.InRange(below) && g.InRange(above)
  {}

  lemma ReadsFromFiles<T>(g: FileGrid<T>, ax: seq<Axis>, below: Dims, above: Dims, delta: Dims, last: Dims)
    requires Regular(g, ax) && g.InRange(below) && g.InRange(above) && g.InRange(last)
    ensures ZeroReadsAll(ax, below, above, delta, g.files[below].FileDomain().offset,
                         g.files[above].FileDomain().offset, g.files[last].globalOffset)
  {
    DomainAt(g, ax, below);
    DomainAt(g, ax, above);
    DomainAt(g, ax, last);
    hide Regular, Axis.Valid;
  }

  // ---- The start corner of the request -----------------------------------------------------------

  /**
   * The positions lo..hi of an axis lie on one side of the rotation point, so their files are in
   * ascending order; the request does not start before them, nor after them while data is left.
   */
  ghost predicate StartRange(a: Axis, lo: nat, hi: nat, req: nat) {
    && a.Valid() && lo <= hi < a.N()
    && (a.shift <= lo || hi < a.shift)
    && a.Start(lo) <= req
    && (req < a.cuts[a.N()] ==> req < a.End(hi))
  }

  ghost predicate StartRanges(ax: seq<Axis>, lo: Dims, hi: Dims, req: Dims)
    requires ValidAxes(ax)
  {
    forall i | 0 <= i < AXES :: StartRange(ax[i], lo[i], hi[i], req[i])
  }

  /** The half of every axis that can hold the request's first cell. */
  method SelectHalf<T>(g: FileGrid<T>, ghost ax: seq<Axis>, belowZero: Dims, req: Dims) returns (lo: Dims, hi: Dims)
    requires Regular(g, ax) && forall i | 0 <= i < AXES :: belowZero[i] == ax[i].shift && ax[i].cuts[0] <= req[i]
    ensures StartRanges(ax, lo, hi, req)
  {
    var last: Dims := [g.mpiSize[0] - 1, g.mpiSize[1] - 1, g.mpiSize[2] - 1];
    FileAt(g, ax, last);
    var _, lastDom := ReadDomainInfoForRank(g, last, Domain(ZERO, ZERO));
    LastEnd(g, ax, last);
    lo, hi := HalfPerAxis(ax, g.mpiSize, belowZero, lastDom.Back(), req);
  }

  method HalfPerAxis(ghost ax: seq<Axis>, mpiSize: Dims, belowZero: Dims, lastBack: Dims, req: Dims)
    returns (lo: Dims, hi: Dims)
    requires ValidAxes(ax)
    requires forall i | 0 <= i < AXES :: belowZero[i] == ax[i].shift && ax[i].cuts[0] <= req[i]
    requires forall i | 0 <= i < AXES :: mpiSize[i] == ax[i].N() && lastBack[i] + 1 == ax[i].End(ax[i].N() - 1)
    ensures StartRanges(ax, lo, hi, req)
  {
    lo, hi := ZERO, ZERO;
    for i := 0 to AXES
      invariant forall j | 0 <= j < i :: StartRange(ax[j], lo[j], hi[j], req[j])
    {
      ghost var lo0, hi0 := lo, hi;
      HalfHoldsStart(ax[i], req[i]);
      if req[i] <= lastBack[i] {
        lo := lo[i := belowZero[i]];
        hi := hi[i := mpiSize[i] - 1];
      } else {
        lo := lo[i := 0];
        hi := hi[i := if belowZero[i] > 1 then belowZero[i] - 1 else 0];
      }
      assert StartRange(ax[i], lo[i], hi[i], req[i]);
      assert forall j | 0 <= j < i :: lo[j] == lo0[j] && hi[j] == hi0[j];
    }
  }

  lemma LastEnd<T>(g: FileGrid<T>, ax: seq<Axis>, last: Dims)
    requires Regular(g, ax) && forall i | 0 <= i < AXES :: last[i] == ax[i].N() - 1
    ensures last in g.files && g.files[last].FileDomain().Positive()
    ensures forall i | 0 <= i < AXES :: g.files[last].FileDomain().Back()[i] + 1 == ax[i].End(ax[i].N() - 1)
  {}

  /** The half of an axis that the test against the last file chooses can hold the request's first cell if any can. */
  lemma HalfHoldsStart(a: Axis, req: nat)
    requires a.Valid() && a.cuts[0] <= req
    ensures req < a.End(a.N() - 1) ==> StartRange(a, a.shift, a.N() - 1, req)
    ensures req >= a.End(a.N() - 1) ==> StartRange(a, 0, if a.shift > 1 then a.shift - 1 else 0, req)
  {}

  /** Links the position tested last on an axis to the range left by that test. */
  ghost predicate StartLink(lo: nat, hi: nat, current: nat) {
    current == lo || current == hi + 1
  }

  ghost function StartMeasure(lo: nat, hi: nat, current: nat): nat
    requires lo <= hi
  {
    2 * (hi - lo) + (if current == lo then 0 else 1)
  }

  ghost predicate StartNarrowed(a: Axis, lo0: nat, hi0: nat, req: nat, last: nat, lo: nat, hi: nat, current: nat) {
    && lo0 <= hi0 && StartRange(a, lo, hi, req) && StartLink(lo, hi, current)
    && StartMeasure(lo, hi, current) <= StartMeasure(lo0, hi0, last)
    && (last != current ==> StartMeasure(lo, hi, current) < StartMeasure(lo0, hi0, last))
  }

  /**
   * One narrowing of an axis at its centre: the range keeps the request's start, and either the
   * centre was the position tested before and the axis has converged on it, or progress was made.
   */
  lemma StartStep(a: Axis, lo: nat, hi: nat, req: nat, last: nat, current: nat)
    requires StartRange(a, lo, hi, req) && StartLink(lo, hi, last) && current == lo + HalfUp(hi - lo)
    ensures req >= a.Start(current) ==> StartNarrowed(a, lo, hi, req, last, current, hi, current)
    ensures req < a.Start(current) ==> current > 0 && StartNarrowed(a, lo, hi, req, last, lo, current - 1, current)
    ensures current == last ==> lo == hi == current
  {}

  ghost predicate StartLinks(lo: Dims, hi: Dims, current: Dims) {
    forall i | 0 <= i < AXES :: StartLink(lo[i], hi[i], current[i])
  }

  ghost function StartTotal(ax: seq<Axis>, lo: Dims, hi: Dims, req: Dims, current: Dims): nat
    requires ValidAxes(ax) && StartRanges(ax, lo, hi, req)
  {
    StartMeasure(lo[0], hi[0], current[0]) + StartMeasure(lo[1], hi[1], current[1]) + StartMeasure(lo[2], hi[2], current[2])
  }

  ghost predicate IsCentre(lo: Dims, hi: Dims, current: Dims) {
    forall i | 0 <= i < AXES :: lo[i] <= hi[i] && current[i] == lo[i] + HalfUp(hi[i] - lo[i])
  }

  /** The centres of the three ranges. */
  method Centre(ghost ax: seq<Axis>, lo: Dims, hi: Dims, req: Dims) returns (current: Dims)
    requires ValidAxes(ax) && StartRanges(ax, lo, hi, req)
    ensures IsCentre(lo, hi, current)
  {
    assert forall i | 0 <= i < AXES :: StartRange(ax[i], lo[i], hi[i], req[i]);
    current := ZERO;
    for i := 0 to AXES
      invariant forall j | 0 <= j < i :: lo[j] <= hi[j] && current[j] == lo[j] + HalfUp(hi[j] - lo[j])
    {
      current := current[i := lo[i] + HalfUp(hi[i] - lo[i])];
    }
  }

  /** The for loop that narrows the three ranges around the tested position. */
  method Narrow(ghost ax: seq<Axis>, lo0: Dims, hi0: Dims, req: Dims, ghost last: Dims, current: Dims, fileOffset: Dims)
    returns (lo: Dims, hi: Dims)
    requires ValidAxes(ax) && StartRanges(ax, lo0, hi0, req) && StartLinks(lo0, hi0, last)
    requires IsCentre(lo0, hi0, current)
    requires forall i | 0 <= i < AXES :: current[i] < ax[i].N() && fileOffset[i] == ax[i].Start(current[i])
    ensures StartRanges(ax, lo, hi, req) && StartLinks(lo, hi, current)
    ensures last != current ==> StartTotal(ax, lo, hi, req, current) < StartTotal(ax, lo0, hi0, req, last)
  {
    lo, hi := lo0, hi0;
    for i := 0 to AXES
      invariant forall j | i <= j < AXES :: lo[j] == lo0[j] && hi[j] == hi0[j]
      invariant forall j | 0 <= j < i :: StartNarrowed(ax[j], lo0[j], hi0[j], req[j], last[j], lo[j], hi[j], current[j])
    {
      ghost var lo1, hi1 := lo, hi;
      StartStep(ax[i], lo0[i], hi0[i], req[i], last[i], current[i]);
      if req[i] >= fileOffset[i] {
        lo := lo[i := current[i]];
      }
      if req[i] < fileOffset[i] {
        hi := hi[i := current[i] - 1];
      }
      assert StartNarrowed(ax[i], lo0[i], hi0[i], req[i], last[i], lo[i], hi[i], current[i]);
      assert forall j | 0 <= j < AXES && j != i :: lo[j] == lo1[j] && hi[j] == hi1[j];
    }
    NarrowDone(ax, lo0, hi0, req, last, lo, hi, current);
  }

  lemma NarrowDone(ax: seq<Axis>, lo0: Dims, hi0: Dims, req: Dims, last: Dims, lo: Dims, hi: Dims, current: Dims)
    requires ValidAxes(ax) && StartRanges(ax, lo0, hi0, req)
    requires forall i | 0 <= i < AXES :: StartNarrowed(ax[i], lo0[i], hi0[i], req[i], last[i], lo[i], hi[i], current[i])
    ensures StartRanges(ax, lo, hi, req) && StartLinks(lo, hi, current)
    ensures last != current ==> StartTotal(ax, lo, hi, req, current) < StartTotal(ax, lo0, hi0, req, last)
  {}

  /** The request begins before the end of the global domain on every axis. */
  ghost predicate BeginsInside(ax: seq<Axis>, req: Dims)
    requires ValidAxes(ax)
  {
    forall i | 0 <= i < AXES :: req[i] < ax[i].cuts[ax[i].N()]
  }

  /** Testing the file in the middle of the ranges. */
  method TestCentre<T>(g: FileGrid<T>, ghost ax: seq<Axis>, lo: Dims, hi: Dims, req: Dims)
    returns (current: Dims, hit: bool, fileOffset: Dims)
    requires Regular(g, ax) && StartRanges(ax, lo, hi, req)
    ensures IsCentre(lo, hi, current) && g.InRange(current)
    ensures forall i | 0 <= i < AXES :: current[i] < ax[i].N() && fileOffset[i] == ax[i].Start(current[i])
    ensures hit ==> Owns(ax, current, req) && BeginsInside(ax, req)
    ensures !hit ==> current in g.files && !exists q: Dims :: Domain(req, ONE).Contains(q) && g.files[current].FileDomain().Contains(q)
  {
    current := Centre(ax, lo, hi, req);
    CentreInRange(g, ax, lo, hi, req, current);
    FileAt(g, ax, current);
    DomainAt(g, ax, current);
    hide Regular, StartRanges, Owns;
    var point := Domain(req, ONE);
    var fileDomain;
    hit, fileDomain := ReadDomainInfoForRank(g, current, point);
    fileOffset := fileDomain.offset;
    if hit {
      PointHit(g, ax, current, req, fileDomain);
    }
  }

  /**
   * Binary search on the three axes at once for the file that holds the request's first cell. It is
   * found whenever there is one, which for a request that does not start before the global domain
   * means that it does not start behind it on any axis.
   */
  method FindStart<T>(g: FileGrid<T>, ghost ax: seq<Axis>, lo0: Dims, hi0: Dims, req: Dims) returns (start: Option<Dims>)
    requires Regular(g, ax) && StartRanges(ax, lo0, hi0, req)
    ensures start.Some? <==> BeginsInside(ax, req)
    ensures start.Some? ==> g.InRange(start.value) && Owns(ax, start.value, req)
  {
    var lo, hi, current := lo0, hi0, lo0;
    BeginsLinked(ax, lo0, hi0, req);
    assert ValidAxes(ax);
    hide Regular, ValidAxes, StartRanges, StartLinks, StartTotal, IsCentre, Owns, BeginsInside;
    while true
      invariant StartRanges(ax, lo, hi, req) && StartLinks(lo, hi, current)
      decreases StartTotal(ax, lo, hi, req, current)
    {
      var last := current;
      ghost var lo1, hi1 := lo, hi;
      var hit, fileOffset;
      current, hit, fileOffset := TestCentre(g, ax, lo, hi, req);
      if hit {
        return Some(current);
      }
      lo, hi := Narrow(ax, lo, hi, req, last, current, fileOffset);
      if !(last != current) {
        NothingThere(g, ax, lo1, hi1, req, current);
        return None;
      }
    }
  }

  lemma BeginsLinked(ax: seq<Axis>, lo: Dims, hi: Dims, req: Dims)
    requires ValidAxes(ax) && StartRanges(ax, lo, hi, req)
    ensures StartLinks(lo, hi, lo)
  {}

  lemma CentreInRange<T>(g: FileGrid<T>, ax: seq<Axis>, lo: Dims, hi: Dims, req: Dims, current: Dims)
    requires Regular(g, ax) && StartRanges(ax, lo, hi, req)
    requires IsCentre(lo, hi, current)
    ensures g.InRange(current)
  {}

  lemma PointHit<T>(g: FileGrid<T>, ax: seq<Axis>, pos: Dims, req: Dims, fileDomain: Domain)
    requires Regular(g, ax) && g.InRange(pos) && fileDomain == g.files[pos].FileDomain()
    requires exists q: Dims :: Domain(req, ONE).Contains(q) && fileDomain.Contains(q)
    ensures Owns(ax, pos, req) && BeginsInside(ax, req)
  {
    var q: Dims :| Domain(req, ONE).Contains(q) && fileDomain.Contains(q);
    assert forall i | 0 <= i < AXES :: q[i] == req[i];
    assert q == req;
    FileAt(g, ax, pos);
    hide Regular;
    OwnedIsInside(ax, pos, req);
  }

  lemma OwnedIsInside(ax: seq<Axis>, pos: Dims, req: Dims)
    requires ValidAxes(ax) && Owns(ax, pos, req)
    ensures BeginsInside(ax, req)
  {
    OwnedIsGlobal(ax, pos, req);
    hide Owns;
    assert forall i | 0 <= i < AXES :: ax[i].InGlobal(req[i]);
  }

  /**
   * An unchanged position means that every axis has converged, so if its file does not hold the
   * request's first cell, that cell lies behind the global domain on some axis.
   */
  lemma NothingThere<T>(g: FileGrid<T>, ax: seq<Axis>, lo: Dims, hi: Dims, req: Dims, current: Dims)
    requires Regular(g, ax) && g.InRange(current) && StartRanges(ax, lo, hi, req) && StartLinks(lo, hi, current)
    requires IsCentre(lo, hi, current)
    requires !exists q: Dims :: Domain(req, ONE).Contains(q) && g.files[current].FileDomain().Contains(q)
    ensures !BeginsInside(ax, req)
  {
    if BeginsInside(ax, req) {
      Converged(ax, lo, hi, req, current);
      FileAt(g, ax, current);
    }
  }

  lemma Converged(ax: seq<Axis>, lo: Dims, hi: Dims, req: Dims, current: Dims)
    requires ValidAxes(ax) && StartRanges(ax, lo, hi, req) && StartLinks(lo, hi, current)
    requires IsCentre(lo, hi, current)
    requires BeginsInside(ax, req)
    ensures Owns(ax, current, req) && Domain(req, ONE).Contains(req)
  {}
}
