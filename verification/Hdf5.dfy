/**
 * The part of HDF5 the library relies on: a dataset is a row-major array with an extent, and a
 * transfer moves the cells of a strided slab of one array to a box of another. Two selections with
 * the same count vector are paired in row-major order, that is, cell by cell of that count vector.
 */
module Hdf5 {
  import opened Arithmetic

  /** Number of cells of an extent. */
  function Prod(d: seq<nat>): nat {
    if |d| == 0 then 1 else Prod(d[..|d| - 1]) * d[|d| - 1]
  }

  predicate Inside(c: seq<nat>, d: seq<nat>) {
    |c| == |d| && forall i | 0 <= i < |d| :: c[i] < d[i]
  }

  /** Row-major index: the last axis is the fastest. */
  function Flat(c: seq<nat>, d: seq<nat>): nat
    requires |c| == |d|
  {
    if |d| == 0 then 0 else Flat(c[..|d| - 1], d[..|d| - 1]) * d[|d| - 1] + c[|d| - 1]
  }

  lemma ProdPositive(d: seq<nat>)
    ensures Prod(d) > 0 <==> forall i | 0 <= i < |d| :: d[i] > 0
  {}

  /** The cell with row-major index k. */
  function Coord(k: nat, d: seq<nat>): (c: seq<nat>)
    requires k < Prod(d)
    ensures |c| == |d|
    decreases |d|
  {
    if |d| == 0 then [] else
    var n := d[|d| - 1];
    LastPositive(d);
    QuotientBelow(k, Prod(d[..|d| - 1]), n);
    Coord(k / n, d[..|d| - 1]) + [k % n]
  }

  lemma LastPositive(d: seq<nat>)
    requires |d| > 0 && Prod(d) > 0
    ensures d[|d| - 1] > 0
  {}

  lemma {:induction false} CoordInside(k: nat, d: seq<nat>)
    requires k < Prod(d)
    ensures Inside(Coord(k, d), d) && Flat(Coord(k, d), d) == k
    decreases |d|
  {
    if |d| > 0 {
      var m := |d| - 1;
      LastPositive(d);
      QuotientBelow(k, Prod(d[..m]), d[m]);
      var h := Coord(k / d[m], d[..m]);
      CoordInside(k / d[m], d[..m]);
      assert Coord(k, d)[..m] == h && Coord(k, d)[m] == k % d[m];
      assert k == (k / d[m]) * d[m] + k % d[m];
      forall i | 0 <= i < |d| ensures Coord(k, d)[i] < d[i] {
        if i < m {
          assert h[i] < d[..m][i];
        }
      }
    }
  }

  lemma QuotientBelow(k: nat, m: nat, n: nat)
    requires n > 0 && k < m * n
    ensures k / n < m
  {}

  lemma MulSucc(a: int, n: nat)
    ensures (a + 1) * n == a * n + n
  {}

  lemma {:induction false} FlatBelow(c: seq<nat>, d: seq<nat>)
    requires Inside(c, d)
    ensures Flat(c, d) < Prod(d)
  {
    if |d| > 0 {
      var n := d[|d| - 1];
      FlatBelow(c[..|d| - 1], d[..|d| - 1]);
      MulMonotone(Prod(d[..|d| - 1]), Flat(c[..|d| - 1], d[..|d| - 1]) + 1, n);
      MulSucc(Flat(c[..|d| - 1], d[..|d| - 1]), n);
    }
  }

  /** No two cells of an extent share an index. */
  lemma {:induction false} CoordFlat(c: seq<nat>, d: seq<nat>)
    requires Inside(c, d)
    ensures Flat(c, d) < Prod(d) && Coord(Flat(c, d), d) == c
  {
    FlatBelow(c, d);
    if |d| > 0 {
      var m := |d| - 1;
      CoordFlat(c[..m], d[..m]);
      var f := Flat(c[..m], d[..m]);
      DivModOf(f, d[m], c[m]);
      assert c == c[..m] + [c[m]];
    }
  }

  lemma DivModOf(f: nat, n: nat, r: nat)
    requires r < n
    ensures (f * n + r) / n == f && (f * n + r) % n == r
  {
    var x := f * n + r;
    assert x == (x / n) * n + x % n;
    var k := x / n - f;
    assert k * n == r - x % n;
    MulMonotone(k, 1, n);
    MulMonotone(-1, k, n);
  }

  /** A selection of a dataspace. */
  datatype Selection = All | Nothing | Slab(start: seq<nat>, stride: seq<nat>, count: seq<nat>)

  /** A dataspace without a hyperslab is selected whole. */
  function StartOf(s: Selection, extent: seq<nat>): seq<nat>
    requires s != Nothing
  {
    if s.Slab? then s.start else seq(|extent|, _ => 0)
  }

  function StrideOf(s: Selection, extent: seq<nat>): seq<nat>
    requires s != Nothing
  {
    if s.Slab? then s.stride else seq(|extent|, _ => 1)
  }

  function CountOf(s: Selection, extent: seq<nat>): seq<nat>
    requires s != Nothing
  {
    if s.Slab? then s.count else extent
  }

  /** The coordinate of the j-th selected cell along one axis. */
  function Strided(start: nat, stride: nat, j: nat): nat {
    start + j * stride
  }

  /** Along one axis: the stride is positive and the last selected cell, if any, is inside the extent. */
  predicate AxisFits(start: nat, stride: nat, count: nat, extent: nat) {
    stride > 0 && (count > 0 ==> Strided(start, stride, count - 1) < extent)
  }

  /** H5Sselect_hyperslab followed by H5Sselect_valid. */
  predicate ValidSlab(start: seq<nat>, stride: seq<nat>, count: seq<nat>, extent: seq<nat>) {
    && |start| == |stride| == |count| == |extent|
    && forall i | 0 <= i < |extent| :: AxisFits(start[i], stride[i], count[i], extent[i])
  }

  predicate InBox(c: seq<nat>, start: seq<nat>, count: seq<nat>) {
    |c| == |start| == |count| && forall i | 0 <= i < |c| :: start[i] <= c[i] < start[i] + count[i]
  }

  /** The source cell that is paired with cell c of the target box. */
  function Partner(c: seq<nat>, start: seq<nat>, srcStart: seq<nat>, srcStride: seq<nat>): (s: seq<nat>)
    requires |c| == |start| == |srcStart| == |srcStride| && forall i | 0 <= i < |c| :: start[i] <= c[i]
    ensures |s| == |c| && forall i | 0 <= i < |c| :: s[i] == Strided(srcStart[i], srcStride[i], c[i] - start[i])
  {
    seq(|c|, i requires 0 <= i < |c| => Strided(srcStart[i], srcStride[i], c[i] - start[i]))
  }

  lemma PartnerInside(c: seq<nat>, start: seq<nat>, count: seq<nat>, srcStart: seq<nat>, srcStride: seq<nat>, srcExtent: seq<nat>)
    requires InBox(c, start, count) && ValidSlab(srcStart, srcStride, count, srcExtent)
    ensures Inside(Partner(c, start, srcStart, srcStride), srcExtent)
    ensures Flat(Partner(c, start, srcStart, srcStride), srcExtent) < Prod(srcExtent)
  {
    forall i | 0 <= i < |c| ensures Strided(srcStart[i], srcStride[i], c[i] - start[i]) < srcExtent[i] {
      assert AxisFits(srcStart[i], srcStride[i], count[i], srcExtent[i]);
      MulMonotone(count[i] - 1, c[i] - start[i], srcStride[i]);
    }
    FlatBelow(Partner(c, start, srcStart, srcStride), srcExtent);
  }

  /** The box fits into the target and the slab into the source, and both arrays hold their extents. */
  predicate Transferable<T>(dst: seq<T>, dstExtent: seq<nat>, start: seq<nat>, count: seq<nat>,
                            src: seq<T>, srcExtent: seq<nat>, srcStart: seq<nat>, srcStride: seq<nat>) {
    && |dst| >= Prod(dstExtent) && |src| >= Prod(srcExtent) && |dstExtent| == |srcExtent|
    && ValidSlab(start, seq(|start|, _ => 1), count, dstExtent)
    && ValidSlab(srcStart, srcStride, count, srcExtent)
  }

  /** H5Dread and H5Dwrite: the target array after the transfer. */
  function Transfer<T>(dst: seq<T>, dstExtent: seq<nat>, start: seq<nat>, count: seq<nat>,
                       src: seq<T>, srcExtent: seq<nat>, srcStart: seq<nat>, srcStride: seq<nat>): (r: seq<T>)
    requires Transferable(dst, dstExtent, start, count, src, srcExtent, srcStart, srcStride)
    ensures |r| == |dst|
  {
    seq(|dst|, k requires 0 <= k < |dst| =>
      if k < Prod(dstExtent) && InBox(Coord(k, dstExtent), start, count) then
        (PartnerInside(Coord(k, dstExtent), start, count, srcStart, srcStride, srcExtent);
         src[Flat(Partner(Coord(k, dstExtent), start, srcStart, srcStride), srcExtent)])
      else dst[k])
  }

  /** The selections fit their dataspaces and have the same number of cells on every axis. */
  predicate Paired<T>(dst: seq<T>, dstExtent: seq<nat>, to: Selection, src: seq<T>, srcExtent: seq<nat>, from: Selection) {
    && to != Nothing && from != Nothing && CountOf(to, dstExtent) == CountOf(from, srcExtent)
    && StrideOf(to, dstExtent) == seq(|dstExtent|, _ => 1)
    && Transferable(dst, dstExtent, StartOf(to, dstExtent), CountOf(to, dstExtent),
                    src, srcExtent, StartOf(from, srcExtent), StrideOf(from, srcExtent))
  }

  /** The transfer between two selections. */
  function TransferBetween<T>(dst: seq<T>, dstExtent: seq<nat>, to: Selection, src: seq<T>, srcExtent: seq<nat>, from: Selection): (r: seq<T>)
    requires Paired(dst, dstExtent, to, src, srcExtent, from)
    ensures |r| == |dst|
  {
    Transfer(dst, dstExtent, StartOf(to, dstExtent), CountOf(to, dstExtent),
             src, srcExtent, StartOf(from, srcExtent), StrideOf(from, srcExtent))
  }

  /** What a transfer does, cell by cell. */
  lemma TransferAt<T>(dst: seq<T>, dstExtent: seq<nat>, start: seq<nat>, count: seq<nat>,
                      src: seq<T>, srcExtent: seq<nat>, srcStart: seq<nat>, srcStride: seq<nat>, c: seq<nat>)
    requires Transferable(dst, dstExtent, start, count, src, srcExtent, srcStart, srcStride) && Inside(c, dstExtent)
    ensures Flat(c, dstExtent) < |dst|
    ensures InBox(c, start, count) ==> Flat(Partner(c, start, srcStart, srcStride), srcExtent) < |src|
    ensures Transfer(dst, dstExtent, start, count, src, srcExtent, srcStart, srcStride)[Flat(c, dstExtent)]
         == if InBox(c, start, count) then src[Flat(Partner(c, start, srcStart, srcStride), srcExtent)]
            else dst[Flat(c, dstExtent)]
  {
    CoordFlat(c, dstExtent);
    if InBox(c, start, count) {
      PartnerInside(c, start, count, srcStart, srcStride, srcExtent);
    }
  }
}
