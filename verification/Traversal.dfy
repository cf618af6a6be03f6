/**
 * The order in which DomainCollector::readDomain visits the files, as pure functions: positions
 * relative to the start corner in the periodic file grid, and the list of files that are loaded.
 */
module Traversal {
  import opened Geometry

  /** The position that is a steps behind s on a periodic axis of n positions. */
  function Rel(s: nat, a: nat, n: nat): nat {
    if s + a < n then s + a else s + a - n
  }

  /** ... which the source computes by a modulo. */
  lemma RelIsModulo(s: nat, a: nat, n: nat)
    requires s < n && a < n
    ensures (s + a) % n == Rel(s, a, n) < n
  {}

  /** Stepping back from a relative position, the way max_dims is cut. */
  lemma RelBefore(s: nat, a: nat, n: nat)
    requires s < n && 1 <= a < n
    ensures (Rel(s, a, n) + n - 1) % n == Rel(s, a - 1, n)
  {}

  /** A file, named by its distance from the start corner on each axis. */
  datatype Step = Step(a: nat, b: nat, d: nat)

  /**
   * A periodic grid of `n` files per axis seen from the start corner `s`: the files that meet the
   * request are those less than `c` steps behind the corner on every axis.
   */
  datatype Walk = Walk(n: Dims, s: Dims, c: Dims) {
    ghost predicate Valid() {
      forall i | 0 <= i < AXES :: s[i] < n[i] && 1 <= c[i] <= n[i]
    }

    predicate InGrid(t: Step) {
      t.a < n[0] && t.b < n[1] && t.d < n[2]
    }

    predicate Hit(t: Step) {
      t.a < c[0] && t.b < c[1] && t.d < c[2]
    }

    function Pos(t: Step): Dims {
      [Rel(s[0], t.a, n[0]), Rel(s[1], t.b, n[1]), Rel(s[2], t.d, n[2])]
    }
  }

  /** Every position of the grid is reached by exactly one step. */
  lemma StepOf(w: Walk, p: Dims) returns (t: Step)
    requires w.Valid() && forall i | 0 <= i < AXES :: p[i] < w.n[i]
    ensures w.InGrid(t) && w.Pos(t) == p
  {
    t := Step(if p[0] >= w.s[0] then p[0] - w.s[0] else p[0] + w.n[0] - w.s[0],
              if p[1] >= w.s[1] then p[1] - w.s[1] else p[1] + w.n[1] - w.s[1],
              if p[2] >= w.s[2] then p[2] - w.s[2] else p[2] + w.n[2] - w.s[2]);
  }

  /** ... and by no other step. */
  lemma PosInjective(w: Walk, t: Step, t': Step)
    requires w.Valid() && w.InGrid(t) && w.InGrid(t') && w.Pos(t) == w.Pos(t')
    ensures t == t'
  {}

  // ---- What is loaded, in order -------------------------------------------------------------------

  /** Files lo to hi-1 of row b of plane d. */
  function Row(lo: nat, hi: nat, b: nat, d: nat): seq<Step> {
    if hi <= lo then [] else Row(lo, hi - 1, b, d) + [Step(hi - 1, b, d)]
  }

  /** The first k rows of plane d, each of the given length. */
  function Rows(length: nat, k: nat, d: nat): seq<Step> {
    if k == 0 then [] else Rows(length, k - 1, d) + Row(0, length, k - 1, d)
  }

  /**
   * After the row behind the last one has been found empty, the x loop goes on with the last row:
   * all its files but the first are loaded a second time.
   */
  function Revisited(w: Walk): seq<Step> {
    if 1 <= w.c[1] < w.n[1] then Row(1, w.c[0], w.c[1] - 1, 0) else []
  }

  function Plane(w: Walk, d: nat): seq<Step> {
    Rows(w.c[0], w.c[1], d) + (if d == 0 then Revisited(w) else [])
  }

  /** The first k planes. */
  function Planes(w: Walk, k: nat): seq<Step> {
    if k == 0 then [] else Planes(w, k - 1) + Plane(w, k - 1)
  }

  /** Everything that is loaded. */
  function Trace(w: Walk): seq<Step> {
    Planes(w, w.c[2])
  }

  // ---- How often a file is loaded -----------------------------------------------------------------

  function Count(b: bool): nat {
    if b then 1 else 0
  }

  /** How often t occurs in r. */
  function Times(r: seq<Step>, t: Step): nat {
    if |r| == 0 then 0 else Times(r[..|r| - 1], t) + Count(r[|r| - 1] == t)
  }

  lemma {:induction false} TimesAppended(x: seq<Step>, y: seq<Step>, t: Step)
    ensures Times(x + y, t) == Times(x, t) + Times(y, t)
    decreases |y|
  {
    if |y| == 0 {
      assert x + y == x;
    } else {
      var m := |y| - 1;
      TimesAppended(x, y[..m], t);
      assert (x + y)[..|x + y| - 1] == x + y[..m];
    }
  }

  lemma {:induction false} TimesIsMultiplicity(r: seq<Step>, t: Step)
    ensures Times(r, t) == multiset(r)[t]
  {
    if |r| > 0 {
      TimesIsMultiplicity(r[..|r| - 1], t);
      assert r == r[..|r| - 1] + [r[|r| - 1]];
    }
  }

  lemma {:induction false} CountRow(lo: nat, hi: nat, b: nat, d: nat, t: Step)
    ensures Times(Row(lo, hi, b, d), t) == Count(lo <= t.a < hi && t.b == b && t.d == d)
    decreases hi
  {
    if lo < hi {
      CountRow(lo, hi - 1, b, d, t);
      TimesAppended(Row(lo, hi - 1, b, d), [Step(hi - 1, b, d)], t);
    }
  }

  lemma {:induction false} CountRows(length: nat, k: nat, d: nat, t: Step)
    ensures Times(Rows(length, k, d), t) == Count(t.a < length && t.b < k && t.d == d)
    decreases k
  {
    if k > 0 {
      CountRows(length, k - 1, d, t);
      CountRow(0, length, k - 1, d, t);
      TimesAppended(Rows(length, k - 1, d), Row(0, length, k - 1, d), t);
    }
  }

  /** The files of the row that is visited again. */
  predicate VisitedAgain(w: Walk, t: Step) {
    1 <= w.c[1] < w.n[1] && 1 <= t.a < w.c[0] && t.b == w.c[1] - 1 && t.d == 0
  }

  lemma CountPlane(w: Walk, d: nat, t: Step)
    ensures Times(Plane(w, d), t) == Count(t.a < w.c[0] && t.b < w.c[1] && t.d == d) + Count(d == 0 && VisitedAgain(w, t))
  {
    CountRows(w.c[0], w.c[1], d, t);
    TimesAppended(Rows(w.c[0], w.c[1], d), if d == 0 then Revisited(w) else [], t);
    if 1 <= w.c[1] {
      CountRow(1, w.c[0], w.c[1] - 1, 0, t);
    }
  }

  lemma {:induction false} CountPlanes(w: Walk, k: nat, t: Step)
    ensures Times(Planes(w, k), t)
         == Count(t.a < w.c[0] && t.b < w.c[1] && t.d < k) + Count(k > 0 && VisitedAgain(w, t))
    decreases k
  {
    if k > 0 {
      CountPlanes(w, k - 1, t);
      CountPlane(w, k - 1, t);
      TimesAppended(Planes(w, k - 1), Plane(w, k - 1), t);
    }
  }

  /**
   * Exactly the files that meet the request are loaded: each once, except that when the request ends
   * before the grid does on the y axis, the last row of the first plane is loaded twice but for its
   * first file.
   */
  lemma LoadedHowOften(w: Walk, t: Step)
    requires w.Valid()
    ensures multiset(Trace(w))[t] == Count(w.Hit(t)) + Count(VisitedAgain(w, t))
    ensures t in Trace(w) <==> w.Hit(t)
  {
    CountPlanes(w, w.c[2], t);
    TimesIsMultiplicity(Trace(w), t);
    assert w.c[2] >= 1 && w.c[1] >= 1;
    assert t in Trace(w) <==> multiset(Trace(w))[t] > 0;
  }

  /** No file is loaded twice exactly when the y axis is not cut or a row has one file only. */
  lemma LoadedOnceExactly(w: Walk)
    requires w.Valid()
    ensures (forall t :: multiset(Trace(w))[t] <= 1) <==> w.c[1] == w.n[1] || w.c[0] == 1
  {
    forall t ensures multiset(Trace(w))[t] == Count(w.Hit(t)) + Count(VisitedAgain(w, t)) {
      LoadedHowOften(w, t);
    }
    assert w.c[0] >= 1 && 1 <= w.c[1] <= w.n[1] && w.c[2] >= 1;
    if w.c[1] < w.n[1] && w.c[0] > 1 {
      assert VisitedAgain(w, Step(1, w.c[1] - 1, 0)) && w.Hit(Step(1, w.c[1] - 1, 0));
    }
  }

  // ---- In which order -----------------------------------------------------------------------------

  lemma {:induction false} RowAt(lo: nat, hi: nat, b: nat, d: nat, k: nat)
    requires lo + k < hi
    ensures |Row(lo, hi, b, d)| == hi - lo && Row(lo, hi, b, d)[k] == Step(lo + k, b, d)
    decreases hi
  {
    if lo + k < hi - 1 {
      RowAt(lo, hi - 1, b, d, k);
    } else if lo < hi - 1 {
      RowAt(lo, hi - 1, b, d, 0);
    }
  }

  /** Within a plane the files come row by row, each row along x. */
  lemma {:induction false} RowsAt(length: nat, k: nat, d: nat, a: nat, b: nat)
    requires a < length && b < k
    ensures |Rows(length, k, d)| == k * length
    ensures b * length + a < k * length && Rows(length, k, d)[b * length + a] == Step(a, b, d)
    decreases k
  {
    RowAt(0, length, k - 1, d, a);
    assert k * length == (k - 1) * length + length;
    if b < k - 1 {
      RowsAt(length, k - 1, d, a, b);
    } else if k > 1 {
      RowsAt(length, k - 1, d, a, 0);
    }
  }

  lemma PlaneAt(w: Walk, t: Step)
    requires w.Valid() && t.a < w.c[0] && t.b < w.c[1]
    ensures |Plane(w, t.d)| == w.c[1] * w.c[0] + (if t.d == 0 && w.c[1] < w.n[1] then w.c[0] - 1 else 0)
    ensures t.b * w.c[0] + t.a < |Plane(w, t.d)| && Plane(w, t.d)[t.b * w.c[0] + t.a] == t
    ensures t.d == 0 && w.c[1] < w.n[1] && t.a + 1 < w.c[0] ==> Plane(w, 0)[w.c[1] * w.c[0] + t.a] == Step(t.a + 1, w.c[1] - 1, 0)
  {
    RowsAt(w.c[0], w.c[1], t.d, t.a, t.b);
    if w.c[0] > 1 {
      RowAt(1, w.c[0], w.c[1] - 1, 0, if t.a + 1 < w.c[0] then t.a else 0);
    }
  }

  lemma {:induction false} PlanesPrefix(w: Walk, d: nat, k: nat)
    requires d <= k
    ensures Planes(w, d) <= Planes(w, k)
    decreases k
  {
    if d < k {
      PlanesPrefix(w, d, k - 1);
    }
  }

  /**
   * The order of loading: plane after plane, in a plane row after row, in a row file after file. Behind the first
   * plane the row visited again follows, without its first file.
   */
  lemma InOrder(w: Walk, t: Step)
    requires w.Valid() && w.Hit(t)
    ensures |Planes(w, 0)| == 0
    ensures |Planes(w, t.d + 1)| == |Planes(w, t.d)| + w.c[1] * w.c[0] + (if t.d == 0 && w.c[1] < w.n[1] then w.c[0] - 1 else 0)
    ensures var i := |Planes(w, t.d)| + t.b * w.c[0] + t.a; i < |Trace(w)| && Trace(w)[i] == t
    ensures t.d == 0 && w.c[1] < w.n[1] && t.a + 1 < w.c[0] ==>
              var i := w.c[1] * w.c[0] + t.a; i < |Trace(w)| && Trace(w)[i] == Step(t.a + 1, w.c[1] - 1, 0)
  {
    PlaneAt(w, t);
    PlanesPrefix(w, t.d + 1, w.c[2]);
    assert Planes(w, t.d + 1) == Planes(w, t.d) + Plane(w, t.d);
    hide Plane;
  }

  /** The start corner comes first. */
  lemma {:induction false} StartsAtCorner(w: Walk, k: nat)
    requires w.Valid() && 1 <= k
    ensures |Planes(w, k)| > 0 && Planes(w, k)[0] == Step(0, 0, 0)
    decreases k
  {
    if k == 1 {
      assert w.c[0] >= 1 && w.c[1] >= 1;
      RowsStartAtCorner(w.c[0], w.c[1]);
      assert Planes(w, 0) == [];
      assert Planes(w, 1) == Plane(w, 0);
    } else {
      StartsAtCorner(w, k - 1);
    }
  }

  lemma {:induction false} RowsStartAtCorner(length: nat, k: nat)
    requires 1 <= length && 1 <= k
    ensures |Rows(length, k, 0)| > 0 && Rows(length, k, 0)[0] == Step(0, 0, 0)
    decreases k
  {
    if k == 1 {
      assert Rows(length, 0, 0) == [];
      RowStartsAtCorner(length);
      assert Rows(length, 1, 0) == Row(0, length, 0, 0);
    } else {
      RowsStartAtCorner(length, k - 1);
    }
  }

  lemma {:induction false} RowStartsAtCorner(length: nat)
    requires 1 <= length
    ensures |Row(0, length, 0, 0)| == length && Row(0, length, 0, 0)[0] == Step(0, 0, 0)
  {
    if length == 1 {
      assert Row(0, 0, 0, 0) == [];
    } else {
      RowStartsAtCorner(length - 1);
    }
  }
}
