/** Dimensions and Domain: three-axis sizes, positions and boxes (Dimensions.hpp, Domain.hpp). */
module Geometry {

  const AXES := 3

  /** The source's `hsize_t s[3]`. */
  type Dims = s: seq<nat> | |s| == 3 witness [1, 1, 1]

  const ZERO: Dims := [0, 0, 0]
  const ONE: Dims := [1, 1, 1]

  function Add(a: Dims, b: Dims): Dims {
    [a[0] + b[0], a[1] + b[1], a[2] + b[2]]
  }

  /** Cell q relative to an origin below it. */
  function Local(q: Dims, origin: Dims): Dims {
    [if q[0] >= origin[0] then q[0] - origin[0] else 0,
     if q[1] >= origin[1] then q[1] - origin[1] else 0,
     if q[2] >= origin[2] then q[2] - origin[2] else 0]
  }

  function ScalarSize(d: Dims): nat {
    d[0] * d[1] * d[2]
  }

  /** A box of cells: `offset` is its first cell. */
  datatype Domain = Domain(offset: Dims, size: Dims) {

    predicate Positive() {
      forall i | 0 <= i < AXES :: size[i] > 0
    }

    /** The last cell inside the box; the source subtracts after adding, so a positive size is what keeps it in range. */
    function Back(): Dims
      requires Positive()
    {
      [offset[0] + size[0] - 1, offset[1] + size[1] - 1, offset[2] + size[2] - 1]
    }

    predicate Contains(q: Dims) {
      forall i | 0 <= i < AXES :: offset[i] <= q[i] < offset[i] + size[i]
    }
  }

  /** Domain::testIntersection, with both of its (equivalent) disjuncts. */
  predicate TestIntersection(d1: Domain, d2: Domain)
    requires d1.Positive() && d2.Positive()
  {
    var b1, b2 := d1.Back(), d2.Back();
    || (&& d1.offset[0] <= b2[0] && b1[0] >= d2.offset[0]
        && d1.offset[1] <= b2[1] && b1[1] >= d2.offset[1]
        && d1.offset[2] <= b2[2] && b1[2] >= d2.offset[2])
    || (&& d2.offset[0] <= b1[0] && b2[0] >= d1.offset[0]
        && d2.offset[1] <= b1[1] && b2[1] >= d1.offset[1]
        && d2.offset[2] <= b1[2] && b2[2] >= d1.offset[2])
  }

  /** Two boxes intersect exactly when they share a cell. */
  lemma IntersectionMeansSharedCell(d1: Domain, d2: Domain)
    requires d1.Positive() && d2.Positive()
    ensures TestIntersection(d1, d2) <==> exists q: Dims :: d1.Contains(q) && d2.Contains(q)
  {
    if TestIntersection(d1, d2) {
      var q: Dims := [Max(d1.offset[0], d2.offset[0]), Max(d1.offset[1], d2.offset[1]), Max(d1.offset[2], d2.offset[2])];
      assert d1.Contains(q) && d2.Contains(q);
    }
  }

  function Max(a: nat, b: nat): nat {
    if a >= b then a else b
  }

  function Min(a: nat, b: nat): nat {
    if a <= b then a else b
  }
}
