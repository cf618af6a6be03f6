/** Ranks and positions of an x-fastest process grid (ParallelDataCollector::indexToPos, HandleMgr). */
module MpiGrid {
  import opened Arithmetic
  import opened Geometry

  ghost predicate Positive(size: Dims) {
    size[0] > 0 && size[1] > 0 && size[2] > 0
  }

  predicate OnGrid(pos: Dims, size: Dims) {
    pos[0] < size[0] && pos[1] < size[1] && pos[2] < size[2]
  }

  /** HandleMgr::indexFromPos, before it is cut to 32 bits. */
  function IndexOf(pos: Dims, size: Dims): nat {
    pos[0] + pos[1] * size[0] + pos[2] * size[0] * size[1]
  }

  function Quot(a: nat, n: nat): nat
    requires n > 0
  {
    a / n
  }

  function Rem(a: nat, n: nat): nat
    requires n > 0
  {
    a % n
  }

  /** ParallelDataCollector::indexToPos. */
  function IndexToPos(index: nat, size: Dims): Dims
    requires Positive(size)
  {
    PositiveArea(size);
    [Rem(index, size[0]), Quot(Rem(index, size[0] * size[1]), size[0]), Quot(index, size[0] * size[1])]
  }

  lemma PositiveArea(size: Dims)
    requires Positive(size)
    ensures size[0] * size[1] > 0
  {}

  /** Division with remainder: the only way to write a number as r + q * n with r below n. */
  lemma QuotRem(q: nat, n: nat, r: nat)
    requires r < n
    ensures Quot(r + q * n, n) == q && Rem(r + q * n, n) == r
  {
    var x := r + q * n;
    assert x == (x / n) * n + x % n;
    var k := x / n - q;
    assert k * n == r - x % n;
    MulMonotone(k, 1, n);
    MulMonotone(-1, k, n);
  }

  lemma Decompose(a: nat, n: nat)
    requires n > 0
    ensures a == Rem(a, n) + Quot(a, n) * n && Rem(a, n) < n
  {}

  lemma QuotBelow(a: nat, m: nat, n: nat)
    requires n > 0 && a < m * n
    ensures Quot(a, n) < m
  {}

  lemma PlaneIndex(x: nat, y: nat, sx: nat, sy: nat)
    requires x < sx && y < sy
    ensures x + y * sx < sy * sx
  {
    MulMonotone(sy, y + 1, sx);
    assert (y + 1) * sx == y * sx + sx;
  }

  /** The two ways to group an index: by planes and by rows. */
  lemma Grouped(x: nat, y: nat, z: nat, sx: nat, sy: nat)
    ensures x + y * sx + z * sx * sy == (x + y * sx) + z * (sx * sy)
    ensures x + y * sx + z * sx * sy == x + (y + z * sy) * sx
  {}

  lemma Commute(a: nat, b: nat)
    ensures a * b == b * a
  {}

  /** The position of an index gives the index back. */
  lemma PosOfIndex(pos: Dims, size: Dims)
    requires Positive(size) && OnGrid(pos, size)
    ensures IndexToPos(IndexOf(pos, size), size) == pos
    ensures IndexOf(pos, size) < ScalarSize(size)
  {
    hide Quot, Rem;
    var x, y, z, sx, sy := pos[0], pos[1], pos[2], size[0], size[1];
    PositiveArea(size);
    Grouped(x, y, z, sx, sy);
    PlaneIndex(x, y, sx, sy);
    Commute(sx, sy);
    QuotRem(z, sx * sy, x + y * sx);
    QuotRem(y, sx, x);
    QuotRem(y + z * sy, sx, x);
    PlaneIndex(x + y * sx, z, sx * sy, size[2]);
    Commute(sx * sy, size[2]);
  }

  /** Every index below the number of positions has a position, and the index of that is the index again. */
  lemma IndexOfPos(index: nat, size: Dims)
    requires Positive(size) && index < ScalarSize(size)
    ensures OnGrid(IndexToPos(index, size), size)
    ensures IndexOf(IndexToPos(index, size), size) == index
  {
    hide Quot, Rem;
    var sx, sy := size[0], size[1];
    PositiveArea(size);
    var rest, z := Rem(index, sx * sy), Quot(index, sx * sy);
    Decompose(index, sx * sy);
    Decompose(rest, sx);
    Commute(sx, sy);
    Commute(sx * sy, size[2]);
    QuotBelow(index, size[2], sx * sy);
    QuotBelow(rest, sy, sx);
    var y, x := Quot(rest, sx), Rem(rest, sx);
    Grouped(x, y, z, sx, sy);
    QuotRem(y + z * sy, sx, x);
  }

  lemma MulSuccessor(a: nat, n: nat)
    ensures (a + 1) * n == a * n + n
  {}

  /** Neighbours along x have neighbouring indices, those along y are a row apart, those along z a plane. */
  lemma NextIndex(p: Dims, size: Dims)
    ensures IndexOf(ZERO, size) == 0
    ensures IndexOf([p[0] + 1, p[1], p[2]], size) == IndexOf(p, size) + 1
    ensures IndexOf([p[0], p[1] + 1, p[2]], size) == IndexOf(p, size) + size[0]
    ensures IndexOf([p[0], p[1], p[2] + 1], size) == IndexOf(p, size) + size[0] * size[1]
  {
    MulSuccessor(p[1], size[0]);
    Grouped(p[0], p[1], p[2], size[0], size[1]);
    Grouped(p[0], p[1], p[2] + 1, size[0], size[1]);
    MulSuccessor(p[2], size[0] * size[1]);
  }

  /** The position behind another one: x runs first, then y, then z. */
  lemma NextOnGrid(p: Dims, size: Dims, next: Dims)
    requires OnGrid(p, size) && IndexOf(p, size) + 1 < ScalarSize(size)
    requires next == if p[0] + 1 < size[0] then [p[0] + 1, p[1], p[2]] else if p[1] + 1 < size[1] then [0, p[1] + 1, p[2]] else [0, 0, p[2] + 1]
    ensures OnGrid(next, size) && IndexOf(next, size) == IndexOf(p, size) + 1
  {
    var sx, sy := size[0], size[1];
    MulSuccessor(p[1], sx);
    Grouped(p[0], p[1], p[2], sx, sy);
    Grouped(0, 0, p[2] + 1, sx, sy);
    MulSuccessor(p[2], sx * sy);
    if p[0] + 1 == sx && p[1] + 1 == sy {
      Commute(sx, sy);
      assert IndexOf(p, size) + 1 == (p[2] + 1) * (sx * sy);
      if p[2] + 1 >= size[2] {
        Commute(sx * sy, size[2]);
      }
    }
  }

  /** indexToPos counts along x first, then y, then z. */
  lemma NextPos(index: nat, size: Dims)
    requires Positive(size) && index + 1 < ScalarSize(size)
    ensures IndexToPos(0, size) == ZERO
    ensures var p := IndexToPos(index, size);
            IndexToPos(index + 1, size) ==
              if p[0] + 1 < size[0] then [p[0] + 1, p[1], p[2]] else if p[1] + 1 < size[1] then [0, p[1] + 1, p[2]] else [0, 0, p[2] + 1]
  {
    var p := IndexToPos(index, size);
    IndexOfPos(index, size);
    NextIndex(p, size);
    var next: Dims := if p[0] + 1 < size[0] then [p[0] + 1, p[1], p[2]] else if p[1] + 1 < size[1] then [0, p[1] + 1, p[2]] else [0, 0, p[2] + 1];
    hide IndexToPos, IndexOf;
    NextOnGrid(p, size, next);
    PosOfIndex(next, size);
    PosOfIndex(ZERO, size);
  }
}
