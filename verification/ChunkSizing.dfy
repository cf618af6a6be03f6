/** DCHelper::getOptimalChunkDims: chunk extents that double round-robin towards a target size. */
module ChunkSizing {
  import opened Arithmetic
  import opened Hdf5

  const KB64 := 65536

  function Pow2(k: nat): nat {
    if k == 0 then 1 else 2 * Pow2(k - 1)
  }

  lemma {:induction false} Pow2Add(a: nat, b: nat)
    ensures Pow2(a + b) == Pow2(a) * Pow2(b)
    decreases b
  {
    if b > 0 {
      Pow2Add(a, b - 1);
      assert Pow2(a) * (2 * Pow2(b - 1)) == 2 * (Pow2(a) * Pow2(b - 1));
    }
  }

  lemma {:induction false} Pow2Grows(a: nat, b: nat)
    ensures Pow2(a) >= 1
    ensures a < b ==> 2 * Pow2(a) <= Pow2(b)
    decreases a + b
  {
    if a < b {
      Pow2Grows(a, b - 1);
    } else if a > 0 {
      Pow2Grows(a - 1, 0);
    }
  }

  lemma MulKeepsOrder(a: nat, b: nat, n: nat)
    requires a <= b
    ensures a * n <= b * n && n * a <= n * b
  {}

  ghost predicate IsPow2(x: nat) {
    exists k: nat :: x == Pow2(k)
  }

  lemma {:induction false} SumUpdate(e: seq<nat>, i: nat, v: nat)
    requires i < |e|
    ensures Sum(e[i := v]) == Sum(e) - e[i] + v
    decreases |e|
  {
    var m := |e| - 1;
    if i < m {
      SumUpdate(e[..m], i, v);
      assert e[i := v][..m] == e[..m][i := v];
    } else {
      assert e[i := v][..m] == e[..m];
    }
  }

  lemma {:induction false} SumMonotone(e: seq<nat>, f: seq<nat>)
    requires |e| == |f| && forall i | 0 <= i < |e| :: e[i] <= f[i]
    ensures Sum(e) <= Sum(f)
    decreases |e|
  {
    if |e| > 0 {
      SumMonotone(e[..|e| - 1], f[..|f| - 1]);
    }
  }

  lemma {:induction false} ProductOfPowers(d: seq<nat>, e: seq<nat>)
    requires |d| == |e| && forall i | 0 <= i < |d| :: d[i] == Pow2(e[i])
    ensures Prod(d) == Pow2(Sum(e))
    decreases |d|
  {
    if |d| > 0 {
      var m := |d| - 1;
      ProductOfPowers(d[..m], e[..m]);
      Pow2Add(Sum(e[..m]), e[m]);
    }
  }

  // ---- The target size ----------------------------------------------------------------------------

  /** Half of each extent, but at least one: there should be two chunks per axis. */
  function Halves(dims: seq<nat>): (h: seq<nat>)
    ensures |h| == |dims| && forall i | 0 <= i < |h| :: h[i] == (if dims[i] / 2 > 0 then dims[i] / 2 else 1)
  {
    seq(|dims|, i requires 0 <= i < |dims| => if dims[i] / 2 > 0 then dims[i] / 2 else 1)
  }

  /** Bytes of a chunk of half the extent on every axis. */
  function HalfBytes(dims: seq<nat>, typeSize: nat): nat {
    typeSize * Prod(Halves(dims))
  }

  /** The largest of 4 MB, 2 MB, ..., 64 KB that is not above the limit, or 64 KB. */
  ghost predicate IsTarget(target: nat, limit: nat) {
    exists j: nat :: TargetStep(target, limit, j)
  }

  ghost predicate TargetStep(target: nat, limit: nat, j: nat) {
    j <= 6 && target == KB64 * Pow2(j) && (target <= limit || j == 0) && (limit < 2 * target || j == 6)
  }

  /** The target size: the largest of the seven that does not exceed the limit, or else the smallest. */
  method ChooseTarget(limit: nat) returns (target: nat)
    ensures IsTarget(target, limit)
  {
    var sizes := [4096, 2048, 1024, 512, 256, 128, 64];
    target := 0;
    var i := 0;
    while i < 7
      invariant 0 <= i <= 7
      invariant i > 0 ==> target == sizes[i - 1] * 1024 && target > limit
    {
      target := sizes[i] * 1024;
      if target <= limit {
        break;
      }
      i := i + 1;
    }
    PowersToSix();
    assert TargetStep(target, limit, if i == 7 then 0 else 6 - i);
  }

  lemma PowersToSix()
    ensures Pow2(0) == 1 && Pow2(1) == 2 && Pow2(2) == 4 && Pow2(3) == 8 && Pow2(4) == 16 && Pow2(5) == 32 && Pow2(6) == 64
  {}

  lemma AddMultiple(y: nat, k: nat, n: nat)
    requires n > 0
    ensures (y + k * n) % n == y % n
  {
    var q, r := y / n, y % n;
    assert y == q * n + r;
    assert y + k * n == (q + k) * n + r;
    DivModOf(q + k, n, r);
  }

  /** Wrapping around before a multiplication changes nothing behind it. */
  lemma WrapBefore(a: nat, b: nat, n: nat)
    requires n > 0
    ensures ((a % n) * b) % n == (a * b) % n
  {
    var q, r := a / n, a % n;
    assert a == q * n + r;
    assert (q * n + r) * b == r * b + (q * b) * n;
    AddMultiple(r * b, q * b, n);
  }

  /** The product of the halves in size_t arithmetic, which wraps around. */
  method HalfSize(dims: seq<nat>, typeSize: nat) returns (size: nat)
    requires typeSize < WRAP
    ensures size == HalfBytes(dims, typeSize) % WRAP
  {
    hide HalfBytes, Halves;
    NoHalves(typeSize);
    size := typeSize;
    for i := 0 to |dims|
      invariant size == HalfBytes(dims[..i], typeSize) % WRAP
    {
      HalfBytesStep(dims, typeSize, i);
      var half := dims[i] / 2;
      WrapBefore(HalfBytes(dims[..i], typeSize), if half > 0 then half else 1, WRAP);
      size := (size * (if half > 0 then half else 1)) % WRAP;
    }
    assert dims[..|dims|] == dims;
  }

  lemma NoHalves(typeSize: nat)
    ensures HalfBytes([], typeSize) == typeSize
  {}

  lemma HalfBytesStep(dims: seq<nat>, typeSize: nat, i: nat)
    requires i < |dims|
    ensures HalfBytes(dims[..i + 1], typeSize) == HalfBytes(dims[..i], typeSize) * Halves(dims)[i]
    ensures HalfBytes(dims[..i], typeSize) <= HalfBytes(dims[..i + 1], typeSize)
  {
    var h := Halves(dims[..i + 1]);
    assert h[..i] == Halves(dims[..i]) && h[i] == Halves(dims)[i];
    assert Prod(h) == Prod(h[..i]) * h[i];
    assert typeSize * (Prod(h[..i]) * h[i]) == (typeSize * Prod(h[..i])) * h[i];
    MulKeepsOrder(1, h[i], typeSize * Prod(h[..i]));
  }

  // ---- The order of the axes ----------------------------------------------------------------------

  predicate AxisNumbers(order: seq<nat>, n: nat) {
    forall j | 0 <= j < |order| :: order[j] < n
  }

  /** Insertion into the multimap: behind every axis that is not larger. */
  function Insert(order: seq<nat>, dims: seq<nat>, i: nat): (r: seq<nat>)
    requires i < |dims| && AxisNumbers(order, |dims|)
    ensures forall a :: a in r <==> a in order || a == i
    ensures |r| == |order| + 1
  {
    if |order| == 0 || dims[i] < dims[order[0]] then [i] + order
    else [order[0]] + Insert(order[1..], dims, i)
  }

  /** The smaller axis comes first, of axes of equal extent the one with the smaller number. */
  ghost predicate Precedes(dims: seq<nat>, a: nat, b: nat)
    requires a < |dims| && b < |dims|
  {
    dims[a] < dims[b] || (dims[a] == dims[b] && a < b)
  }

  ghost predicate Ascending(order: seq<nat>, dims: seq<nat>) {
    && AxisNumbers(order, |dims|)
    && (forall j, k | 0 <= j < k < |order| :: Precedes(dims, order[j], order[k]))
  }

  lemma {:induction false} InsertKeepsOrder(order: seq<nat>, dims: seq<nat>, i: nat)
    requires Ascending(order, dims) && i < |dims| && forall a | a in order :: a < i
    ensures Ascending(Insert(order, dims, i), dims)
    decreases |order|
  {
    if |order| > 0 && dims[order[0]] <= dims[i] {
      assert order[0] in order && forall a | a in order[1..] :: a in order;
      InsertKeepsOrder(order[1..], dims, i);
      HeadIsLeast(order, dims);
      var rest := Insert(order[1..], dims, i);
      hide Insert, Ascending;
      forall k | 0 <= k < |rest| ensures Precedes(dims, order[0], rest[k]) {
        assert rest[k] in rest;
      }
      PutInFront(order[0], rest, dims);
      assert [order[0]] + rest == Insert(order, dims, i) by { InsertBehind(order, dims, i); }
    } else {
      PutInFront(i, order, dims);
    }
  }

  lemma InsertBehind(order: seq<nat>, dims: seq<nat>, i: nat)
    requires i < |dims| && AxisNumbers(order, |dims|) && |order| > 0 && dims[order[0]] <= dims[i]
    ensures Insert(order, dims, i) == [order[0]] + Insert(order[1..], dims, i)
  {}

  lemma HeadIsLeast(order: seq<nat>, dims: seq<nat>)
    requires Ascending(order, dims) && |order| > 0
    ensures forall a | a in order[1..] :: a < |dims| && Precedes(dims, order[0], a)
  {}

  lemma PutInFront(a: nat, rest: seq<nat>, dims: seq<nat>)
    requires Ascending(rest, dims) && a < |dims| && forall k | 0 <= k < |rest| :: Precedes(dims, a, rest[k])
    ensures Ascending([a] + rest, dims)
  {}

  /** Axes by ascending extent, equal ones by ascending number: every axis once. */
  method OrderAxes(dims: seq<nat>) returns (order: seq<nat>)
    ensures Ascending(order, dims) && |order| == |dims| && forall i | 0 <= i < |dims| :: i in order
    ensures forall j, k | 0 <= j < k < |order| ::
              dims[order[j]] < dims[order[k]] || (dims[order[j]] == dims[order[k]] && order[j] < order[k])
  {
    order := [];
    for i := 0 to |dims|
      invariant Ascending(order, dims) && |order| == i && forall a :: a in order <==> 0 <= a < i
    {
      InsertKeepsOrder(order, dims, i);
      order := Insert(order, dims, i);
    }
  }

  // ---- The doubling loop --------------------------------------------------------------------------

  /** Extents are powers of two within the dataset; `e` holds the exponents. */
  ghost predicate Powers(dims: seq<nat>, chunk: seq<nat>, e: seq<nat>) {
    && |chunk| == |dims| == |e|
    && forall i | 0 <= i < |dims| :: chunk[i] == Pow2(e[i]) && 1 <= chunk[i] <= dims[i]
  }

  predicate CanDouble(dims: seq<nat>, chunk: seq<nat>, i: nat)
    requires i < |dims| == |chunk|
  {
    chunk[i] * 2 <= dims[i]
  }

  function Bytes(e: seq<nat>, typeSize: nat): nat {
    typeSize * Pow2(Sum(e))
  }

  /**
   * No extent is more than twice that of an axis that can still be doubled, and none is larger than that of such an
   * axis before it.
   */
  ghost predicate Balanced(dims: seq<nat>, chunk: seq<nat>)
    requires |dims| == |chunk|
  {
    forall i, k | 0 <= i < |dims| && 0 <= k < |dims| && CanDouble(dims, chunk, k) :: InTurn(dims, chunk, i, k)
  }

  ghost predicate InTurn(dims: seq<nat>, chunk: seq<nat>, i: nat, k: nat)
    requires |dims| == |chunk| && i < |dims| && k < |dims|
  {
    chunk[i] <= 2 * chunk[k] && (Precedes(dims, k, i) ==> chunk[i] <= chunk[k])
  }

  /** The number of steps from position p0 to j on a cycle of n. */
  function Ahead(p0: nat, j: nat, n: nat): nat
    requires p0 < n && j < n
  {
    if j >= p0 then j - p0 else j + n - p0
  }

  /**
   * The round robin: an axis that can still be doubled has been doubled r times, or r + 1 times if the
   * iterator has passed it in the current round; any other axis not more often.
   */
  ghost predicate InRound(dims: seq<nat>, chunk: seq<nat>, e: seq<nat>, order: seq<nat>, at: nat, r: nat)
    requires |dims| == |chunk| == |e| == |order| && AxisNumbers(order, |dims|)
  {
    forall j | 0 <= j < |order| ::
      var level := r + (if j < at then 1 else 0);
      e[order[j]] <= level && (CanDouble(dims, chunk, order[j]) ==> e[order[j]] == level)
  }

  /** Within a round the extents stay balanced. */
  lemma RoundIsBalanced(dims: seq<nat>, chunk: seq<nat>, e: seq<nat>, order: seq<nat>, at: nat, r: nat)
    requires Powers(dims, chunk, e) && |order| == |dims| && Ascending(order, dims) && forall i | 0 <= i < |dims| :: i in order
    requires InRound(dims, chunk, e, order, at, r)
    ensures Balanced(dims, chunk)
    ensures forall i, k | 0 <= i < |dims| && 0 <= k < |dims| && CanDouble(dims, chunk, k) ::
              chunk[i] <= 2 * chunk[k] && (Precedes(dims, k, i) ==> chunk[i] <= chunk[k])
  {
    forall i, k | 0 <= i < |dims| && 0 <= k < |dims| && CanDouble(dims, chunk, k)
      ensures chunk[i] <= 2 * chunk[k] && (Precedes(dims, k, i) ==> chunk[i] <= chunk[k])
    {
      assert i in order && k in order;
      var ji :| 0 <= ji < |order| && order[ji] == i;
      var jk :| 0 <= jk < |order| && order[jk] == k;
      assert e[i] <= e[k] + 1;
      Pow2Order(e[i], e[k] + 1);
      if Precedes(dims, k, i) {
        assert jk < ji;
        Pow2Order(e[i], e[k]);
      }
    }
  }

  /** The iterator behind position `at`: it starts over at the end. */
  function Next(at: nat, n: nat): nat {
    if at + 1 == n then 0 else at + 1
  }

  /** Where the iterator is after d steps of a round that began at at0. */
  ghost function Later(at0: nat, d: nat, n: nat): nat {
    if at0 + d < n then at0 + d else at0 + d - n
  }

  lemma OneLater(at0: nat, d: nat, n: nat)
    requires at0 < n && d < n
    ensures Later(at0, 0, n) == at0 && Later(at0, d, n) < n
    ensures d + 1 < n ==> Next(Later(at0, d, n), n) == Later(at0, d + 1, n)
    ensures Next(Later(at0, d, n), n) < n
  {}

  ghost function NextRound(at: nat, n: nat, r: nat): nat {
    if at + 1 == n then r + 1 else r
  }

  /** Passing an axis: it is doubled if it can be, and counts as passed in this round either way. */
  lemma PassAxis(dims: seq<nat>, chunk: seq<nat>, e: seq<nat>, order: seq<nat>, at: nat, r: nat)
    requires Powers(dims, chunk, e) && |order| == |dims| && Ascending(order, dims) && at < |order|
    requires InRound(dims, chunk, e, order, at, r)
    ensures var i := order[at];
            var n := |order|;
            if CanDouble(dims, chunk, i) then
              && InRound(dims, chunk[i := chunk[i] * 2], e[i := e[i] + 1], order, Next(at, n), NextRound(at, n, r))
              && Powers(dims, chunk[i := chunk[i] * 2], e[i := e[i] + 1])
              && forall t: nat :: Bytes(e[i := e[i] + 1], t) == 2 * Bytes(e, t)
            else InRound(dims, chunk, e, order, Next(at, n), NextRound(at, n, r))
  {
    var i := order[at];
    if CanDouble(dims, chunk, i) {
      SumUpdate(e, i, e[i] + 1);
      forall t: nat ensures Bytes(e[i := e[i] + 1], t) == 2 * Bytes(e, t) {
        assert t * (2 * Pow2(Sum(e))) == 2 * (t * Pow2(Sum(e)));
      }
    }
  }

  /** What the chunk extents promise. */
  ghost predicate Chunked(dims: seq<nat>, typeSize: nat, target: nat, chunk: seq<nat>, e: seq<nat>) {
    && Powers(dims, chunk, e)
    && (Bytes(e, typeSize) <= target || Sum(e) == 0)
    && (2 * Bytes(e, typeSize) > target || forall i | 0 <= i < |dims| :: !CanDouble(dims, chunk, i))
    && Balanced(dims, chunk)
  }

  /** One pass of the inner loop: the axis is doubled if it can be. */
  method PassNext(dims: seq<nat>, order: seq<nat>, at: nat, chunkDims: array<nat>, ghost e0: seq<nat>, ghost r: nat)
    returns (increased: bool, ghost e: seq<nat>)
    requires Powers(dims, chunkDims[..], e0) && |order| == |dims| && Ascending(order, dims) && at < |order|
    requires InRound(dims, chunkDims[..], e0, order, at, r)
    modifies chunkDims
    ensures |e| == |dims| && Powers(dims, chunkDims[..], e)
    ensures InRound(dims, chunkDims[..], e, order, Next(at, |order|), NextRound(at, |order|, r))
    ensures increased <==> CanDouble(dims, old(chunkDims[..]), order[at])
    ensures increased ==> forall t: nat :: Bytes(e, t) == 2 * Bytes(e0, t)
    ensures !increased ==> e == e0 && chunkDims[..] == old(chunkDims[..])
  {
    ghost var chunk := chunkDims[..];
    assert chunkDims.Length == |dims| == |e0| && AxisNumbers(order, |dims|);
    PassAxis(dims, chunk, e0, order, at, r);
    hide InRound, Powers, Bytes, Ascending;
    increased, e := false, e0;
    var i := order[at];
    if chunkDims[i] * 2 <= dims[i] {
      chunkDims[i] := chunkDims[i] * 2;
      e := e[i := e[i] + 1];
      increased := true;
      assert chunkDims[..] == chunk[i := chunk[i] * 2];
    }
  }

  /** The inner loop: the next axis in cyclic order that can be doubled is doubled; every axis is looked at before giving up. */
  method DoubleNext(dims: seq<nat>, order: seq<nat>, at0: nat, chunkDims: array<nat>, ghost e0: seq<nat>, ghost r0: nat)
    returns (increased: bool, at: nat, ghost e: seq<nat>, ghost r: nat)
    requires Powers(dims, chunkDims[..], e0) && |order| == |dims| && Ascending(order, dims) && forall i | 0 <= i < |dims| :: i in order
    requires |dims| > 0 ==> at0 < |order|
    requires InRound(dims, chunkDims[..], e0, order, at0, r0)
    modifies chunkDims
    ensures |e| == |dims| && Powers(dims, chunkDims[..], e) && (|dims| > 0 ==> at < |order|) && InRound(dims, chunkDims[..], e, order, at, r)
    ensures increased ==> forall t: nat :: Bytes(e, t) == 2 * Bytes(e0, t)
    ensures !increased ==> e == e0 && chunkDims[..] == old(chunkDims[..])
    ensures increased <==> exists i :: 0 <= i < |dims| && CanDouble(dims, old(chunkDims[..]), i)
  {
    assert chunkDims.Length == |dims| == |e0| && AxisNumbers(order, |dims|);
    ghost var chunk := chunkDims[..];
    NonePassedYet(dims, chunk, order, at0);
    hide InRound, Powers, Bytes, Ascending, NextRound, NonePassed, Next, Later;
    if |dims| > 0 {
      OneLater(at0, 0, |dims|);
    }
    increased, at, e, r := false, at0, e0, r0;
    for d := 0 to |dims|
      invariant (|dims| > 0 ==> at < |order|) && !increased && chunkDims[..] == chunk && e == e0
      invariant InRound(dims, chunk, e, order, at, r) && NonePassed(dims, chunk, order, at0, d)
      invariant d < |dims| ==> at == Later(at0, d, |dims|)
    {
      OneLater(at0, d, |dims|);
      increased, e := PassNext(dims, order, at, chunkDims, e, r);
      if !increased {
        PassedOneMore(dims, chunk, order, at0, d, at);
      }
      r := NextRound(at, |order|, r);
      at := Next(at, |order|);
      if increased {
        return;
      }
    }
    AllLookedAt(dims, chunk, order, at0);
  }

  /** None of the d positions from at0 on can be doubled. */
  ghost predicate NonePassed(dims: seq<nat>, chunk: seq<nat>, order: seq<nat>, at0: nat, d: nat)
    requires |dims| == |chunk| == |order| && AxisNumbers(order, |dims|) && (|dims| > 0 ==> at0 < |dims|)
  {
    forall j | 0 <= j < |dims| && Ahead(at0, j, |dims|) < d :: !CanDouble(dims, chunk, order[j])
  }

  lemma NonePassedYet(dims: seq<nat>, chunk: seq<nat>, order: seq<nat>, at0: nat)
    requires |dims| == |chunk| == |order| && AxisNumbers(order, |dims|) && (|dims| > 0 ==> at0 < |dims|)
    ensures NonePassed(dims, chunk, order, at0, 0)
  {}

  lemma PassedOneMore(dims: seq<nat>, chunk: seq<nat>, order: seq<nat>, at0: nat, d: nat, at: nat)
    requires |dims| == |chunk| == |order| && AxisNumbers(order, |dims|) && d < |dims| && at0 < |dims|
    requires at == Later(at0, d, |dims|)
    requires NonePassed(dims, chunk, order, at0, d) && !CanDouble(dims, chunk, order[at])
    ensures NonePassed(dims, chunk, order, at0, d + 1)
  {}

  lemma AllLookedAt(dims: seq<nat>, chunk: seq<nat>, order: seq<nat>, at0: nat)
    requires |dims| == |chunk| == |order| && AxisNumbers(order, |dims|) && (|dims| > 0 ==> at0 < |dims|)
    requires forall i | 0 <= i < |dims| :: i in order
    requires NonePassed(dims, chunk, order, at0, |dims|)
    ensures forall i | 0 <= i < |dims| :: !CanDouble(dims, chunk, i)
  {
    forall i | 0 <= i < |dims| ensures !CanDouble(dims, chunk, i) {
      assert i in order;
      var j :| 0 <= j < |order| && order[j] == i;
      assert Ahead(at0, j, |dims|) < |dims|;
    }
  }

  /** DCHelper::getOptimalChunkDims, writing to the caller's buffer. */
  method GetOptimalChunkDims(dims: seq<nat>, typeSize: nat, chunkDims: array<nat>) returns (ghost target: nat, ghost e: seq<nat>)
    requires chunkDims.Length == |dims| && 0 < typeSize < WRAP && forall i | 0 <= i < |dims| :: 1 <= dims[i]
    modifies chunkDims
    ensures Chunked(dims, typeSize, target, chunkDims[..], e)
    ensures IsTarget(target, HalfBytes(dims, typeSize) % WRAP)
    ensures forall i, k | 0 <= i < |dims| && 0 <= k < |dims| && chunkDims[i] * 2 <= dims[i] && chunkDims[k] * 2 <= dims[k] ::
              dims[i] < dims[k] || (dims[i] == dims[k] && i < k) ==> chunkDims[i] >= chunkDims[k]
  {
    var order := OrderAxes(dims);
    for i := 0 to |dims|
      invariant forall j | 0 <= j < i :: chunkDims[j] == 1
    {
      chunkDims[i] := 1;
    }
    var maxChunkSize := HalfSize(dims, typeSize);
    var targetSize := ChooseTarget(maxChunkSize);
    target := targetSize;
    TargetIsModest(target, maxChunkSize);
    e := seq(|dims|, _ => 0);
    StartOfDoubling(dims, chunkDims[..], e, order, typeSize);
    e := DoubleUp(dims, order, typeSize, targetSize, chunkDims, e);
    FirstIsLarger(dims, chunkDims[..]);
  }

  /** Of two axes that can both still be doubled, the one before the other has no smaller extent. */
  lemma FirstIsLarger(dims: seq<nat>, chunk: seq<nat>)
    requires |dims| == |chunk| && Balanced(dims, chunk)
    ensures forall i, k | 0 <= i < |dims| && 0 <= k < |dims| && chunk[i] * 2 <= dims[i] && chunk[k] * 2 <= dims[k] ::
              dims[i] < dims[k] || (dims[i] == dims[k] && i < k) ==> chunk[i] >= chunk[k]
  {
    forall i, k | 0 <= i < |dims| && 0 <= k < |dims| && chunk[i] * 2 <= dims[i] && chunk[k] * 2 <= dims[k]
      ensures dims[i] < dims[k] || (dims[i] == dims[k] && i < k) ==> chunk[i] >= chunk[k]
    {
      assert CanDouble(dims, chunk, i) && InTurn(dims, chunk, k, i);
    }
  }

  /** The outer loop: as long as doubling brings the size closer to the target, some axis is doubled. */
  method DoubleUp(dims: seq<nat>, order: seq<nat>, typeSize: nat, target: nat, chunkDims: array<nat>, ghost e0: seq<nat>)
    returns (ghost e: seq<nat>)
    requires chunkDims.Length == |dims| && 0 < typeSize && KB64 <= target <= 64 * KB64
    requires |e0| == |dims| == |order| && Ascending(order, dims) && forall i | 0 <= i < |dims| :: i in order
    requires Powers(dims, chunkDims[..], e0) && InRound(dims, chunkDims[..], e0, order, 0, 0)
    requires Sum(e0) == 0 && Bytes(e0, typeSize) == typeSize
    modifies chunkDims
    ensures Chunked(dims, typeSize, target, chunkDims[..], e)
  {
    hide Powers, InRound, Ascending, Bytes, Balanced, Chunked, CanDouble, Sum;
    assert AxisNumbers(order, |dims|) by { BelowOf(order, dims); }
    var current, lastDiff := typeSize, target;
    var at: nat := 0;
    e := e0;
    ghost var r: nat := 0;
    while current < target
      invariant |e| == |dims| && (|dims| > 0 ==> at < |order|)
      invariant Powers(dims, chunkDims[..], e) && InRound(dims, chunkDims[..], e, order, at, r)
      invariant current == Bytes(e, typeSize) && 1 <= current
      invariant current <= target || Sum(e) == 0
      invariant current < target ==> target - current <= lastDiff <= target
      decreases if current <= target then target - current else 0
    {
      // unsigned subtraction: past the target the difference wraps around to a huge value
      var diff := Minus(target, current * 2);
      DiffWraps(target, current * 2);
      if diff >= lastDiff {
        break;
      }
      var increased;
      increased, at, e, r := DoubleNext(dims, order, at, chunkDims, e, r);
      if !increased {
        break;
      }
      current := current * 2;
      lastDiff := diff;
    }
    DoublingDone(dims, typeSize, target, chunkDims[..], e, order, at, r);
  }

  lemma BelowOf(order: seq<nat>, dims: seq<nat>)
    requires Ascending(order, dims)
    ensures AxisNumbers(order, |dims|)
  {}

  lemma TargetIsModest(target: nat, limit: nat)
    requires IsTarget(target, limit)
    ensures KB64 <= target <= 64 * KB64
  {
    PowersToSix();
    var j: nat :| TargetStep(target, limit, j);
    assert j == 0 || j == 1 || j == 2 || j == 3 || j == 4 || j == 5 || j == 6;
  }

  /** The loop stops by unsigned wrap-around: a difference past the target is larger than the target. */
  lemma DiffWraps(target: nat, twice: nat)
    requires target <= 64 * KB64 && twice < 2 * target
    ensures twice <= target ==> Minus(target, twice) == target - twice
    ensures twice > target ==> Minus(target, twice) > target
  {}

  lemma StartOfDoubling(dims: seq<nat>, chunk: seq<nat>, e: seq<nat>, order: seq<nat>, typeSize: nat)
    requires |dims| == |chunk| == |e| == |order| && AxisNumbers(order, |dims|)
    requires forall i | 0 <= i < |dims| :: chunk[i] == 1 && e[i] == 0 && dims[i] >= 1
    ensures Powers(dims, chunk, e) && InRound(dims, chunk, e, order, 0, 0) && Sum(e) == 0 && Bytes(e, typeSize) == typeSize
  {
    SumOfZeros(e);
  }

  lemma {:induction false} SumOfZeros(e: seq<nat>)
    requires forall i | 0 <= i < |e| :: e[i] == 0
    ensures Sum(e) == 0
    decreases |e|
  {
    if |e| > 0 {
      SumOfZeros(e[..|e| - 1]);
    }
  }

  lemma DoublingDone(dims: seq<nat>, typeSize: nat, target: nat, chunk: seq<nat>, e: seq<nat>, order: seq<nat>, at: nat, r: nat)
    requires Powers(dims, chunk, e) && |order| == |dims| && Ascending(order, dims) && forall i | 0 <= i < |dims| :: i in order
    requires InRound(dims, chunk, e, order, at, r)
    requires Bytes(e, typeSize) <= target || Sum(e) == 0
    requires 2 * Bytes(e, typeSize) > target || forall i | 0 <= i < |dims| :: !CanDouble(dims, chunk, i)
    ensures Chunked(dims, typeSize, target, chunk, e)
  {
    RoundIsBalanced(dims, chunk, e, order, at, r);
  }

  // ---- What the result is worth -------------------------------------------------------------------

  lemma Pow2Order(a: nat, b: nat)
    ensures Pow2(a) < 2 * Pow2(b) ==> a <= b
    ensures a <= b ==> Pow2(a) <= Pow2(b)
  {}

  lemma BytesOrder(f: seq<nat>, e: seq<nat>, typeSize: nat)
    requires Bytes(f, typeSize) < 2 * Bytes(e, typeSize)
    ensures Bytes(f, typeSize) <= Bytes(e, typeSize)
  {
    var p, q := Pow2(Sum(f)), Pow2(Sum(e));
    assert typeSize * (2 * q) == 2 * (typeSize * q);
    if p >= 2 * q {
      MulKeepsOrder(2 * q, p, typeSize);
    }
    Pow2Order(Sum(f), Sum(e));
    MulKeepsOrder(p, q, typeSize);
  }

  /** No other choice of powers of two within the dataset comes closer to the target without passing it. */
  lemma NoBetterChunks(dims: seq<nat>, typeSize: nat, target: nat, chunk: seq<nat>, e: seq<nat>, f: seq<nat>)
    requires Chunked(dims, typeSize, target, chunk, e)
    requires |f| == |dims| && (forall i | 0 <= i < |dims| :: Pow2(f[i]) <= dims[i]) && Bytes(f, typeSize) <= target
    ensures Bytes(f, typeSize) <= Bytes(e, typeSize)
  {
    if 2 * Bytes(e, typeSize) > target {
      BytesOrder(f, e, typeSize);
    } else {
      forall i | 0 <= i < |dims| ensures f[i] <= e[i] {
        assert !CanDouble(dims, chunk, i);
        Pow2Order(f[i], e[i]);
      }
      SumMonotone(f, e);
      Pow2Order(Sum(f), Sum(e));
      MulKeepsOrder(Pow2(Sum(f)), Pow2(Sum(e)), typeSize);
    }
  }

  lemma SomeoneLess(e: seq<nat>, f: seq<nat>, i: nat) returns (k: nat)
    requires |e| == |f| && Sum(e) == Sum(f) && i < |e| && e[i] > f[i]
    ensures k < |e| && e[k] < f[k]
  {
    if forall k | 0 <= k < |e| :: f[k] <= e[k] {
      SumMonotone(f, e[i := e[i] - 1]);
      SumUpdate(e, i, e[i] - 1);
      assert false;
    }
    k :| 0 <= k < |e| && e[k] < f[k];
  }

  /** Choices that share a size and are both doubled in turn are the same. */
  lemma TurnsAgree(dims: seq<nat>, chunk: seq<nat>, e: seq<nat>, chunk': seq<nat>, e': seq<nat>, i: nat)
    requires Powers(dims, chunk, e) && Powers(dims, chunk', e') && Balanced(dims, chunk) && Balanced(dims, chunk')
    requires Sum(e) == Sum(e') && i < |dims|
    ensures e[i] <= e'[i]
  {
    if e[i] > e'[i] {
      var k := SomeoneLess(e, e', i);
      InTurnBy(dims, chunk, e, i, k, e'[k]);
      InTurnBy(dims, chunk', e', k, i, e[i]);
    }
  }

  /** The same in exponents: an axis that could have `larger` doublings is at most one behind, or none. */
  lemma InTurnBy(dims: seq<nat>, chunk: seq<nat>, e: seq<nat>, i: nat, k: nat, larger: nat)
    requires Powers(dims, chunk, e) && Balanced(dims, chunk) && i < |dims| && k < |dims|
    requires e[k] < larger && Pow2(larger) <= dims[k]
    ensures e[i] <= e[k] + 1 && (Precedes(dims, k, i) ==> e[i] <= e[k])
  {
    Pow2Order(e[k] + 1, larger);
    assert CanDouble(dims, chunk, k) && InTurn(dims, chunk, i, k);
    Pow2Order(e[i], e[k] + 1);
    Pow2Order(e[i], e[k]);
    Pow2Grows(e[i], 0);
    Pow2Grows(e[k], 0);
  }

  /** What the chunk extents promise determines them: no other extents have it. */
  lemma OnlyChunks(dims: seq<nat>, typeSize: nat, target: nat, chunk: seq<nat>, e: seq<nat>, chunk': seq<nat>, e': seq<nat>)
    requires typeSize > 0 && Chunked(dims, typeSize, target, chunk, e) && Chunked(dims, typeSize, target, chunk', e')
    ensures chunk == chunk'
  {
    SizesAgree(dims, typeSize, target, chunk, e, chunk', e');
    forall i | 0 <= i < |dims| ensures chunk[i] == chunk'[i] {
      TurnsAgree(dims, chunk, e, chunk', e', i);
      TurnsAgree(dims, chunk', e', chunk, e, i);
    }
  }

  lemma SizesAgree(dims: seq<nat>, typeSize: nat, target: nat, chunk: seq<nat>, e: seq<nat>, chunk': seq<nat>, e': seq<nat>)
    requires typeSize > 0 && Chunked(dims, typeSize, target, chunk, e) && Chunked(dims, typeSize, target, chunk', e')
    ensures Sum(e) == Sum(e')
  {
    SizeGrows(e, e', typeSize);
    SizeGrows(e', e, typeSize);
    if Bytes(e, typeSize) <= target && Bytes(e', typeSize) <= target {
      NoBetterChunks(dims, typeSize, target, chunk, e, e');
      NoBetterChunks(dims, typeSize, target, chunk', e', e);
    }
  }

  /** More doublings give more bytes. */
  lemma SizeGrows(e: seq<nat>, f: seq<nat>, typeSize: nat)
    requires typeSize > 0
    ensures Sum(e) < Sum(f) ==> Bytes(e, typeSize) < Bytes(f, typeSize)
  {
    if Sum(e) < Sum(f) {
      Pow2Grows(Sum(e), Sum(f));
      MulKeepsOrder(Pow2(Sum(e)) + 1, Pow2(Sum(f)), typeSize);
      assert (Pow2(Sum(e)) + 1) * typeSize == Pow2(Sum(e)) * typeSize + typeSize;
    }
  }

  // ---- A dataset of 256 cells on every axis -------------------------------------------------------

  lemma CubeHalves()
    ensures HalfBytes([256, 256, 256], 4) == 128 * KB64
  {
    var h := Halves([256, 256, 256]);
    assert h == [128, 128, 128] && h[..2] == [128, 128] && h[..1] == [128];
    assert Prod(h[..1]) == 128;
    assert h[..2][..1] == h[..1] && Prod(h[..2]) == 128 * 128;
  }

  lemma CubeTarget(target: nat)
    requires IsTarget(target, 128 * KB64)
    ensures target == 64 * KB64
  {
    PowersToSix();
    var j: nat :| TargetStep(target, 128 * KB64, j);
    assert j == 0 || j == 1 || j == 2 || j == 3 || j == 4 || j == 5 || j == 6;
  }

  lemma CubeChunks()
    ensures Chunked([256, 256, 256], 4, 64 * KB64, [128, 128, 64], [7, 7, 6])
  {
    var e: seq<nat> := [7, 7, 6];
    assert Sum(e[..1]) == 7;
    assert e[..2][..1] == e[..1] && Sum(e[..2]) == 14;
    assert Sum(e) == 20;
    PowersToSix();
    SixteenBits();
    Pow2Add(16, 4);
    assert Pow2(7) == 2 * Pow2(6);
    hide Sum, Pow2;
  }

  /** For 256 cells of four bytes on every axis the chunk is 128 x 128 x 64, the last axis has one doubling less. */
  method CubeExample(chunkDims: array<nat>)
    requires chunkDims.Length == 3
    modifies chunkDims
    ensures chunkDims[..] == [128, 128, 64]
  {
    CubeHalves();
    var target, e := GetOptimalChunkDims([256, 256, 256], 4, chunkDims);
    CubeTarget(target);
    CubeChunks();
    OnlyChunks([256, 256, 256], 4, target, chunkDims[..], e, [128, 128, 64], [7, 7, 6]);
  }

  lemma {:induction false} ProductMonotone(a: seq<nat>, b: seq<nat>)
    requires |a| == |b| && forall i | 0 <= i < |a| :: a[i] <= b[i]
    ensures Prod(a) <= Prod(b)
    decreases |a|
  {
    if |a| > 0 {
      var m := |a| - 1;
      ProductMonotone(a[..m], b[..m]);
      MulKeepsOrder(Prod(a[..m]), Prod(b[..m]), a[m]);
      MulKeepsOrder(a[m], b[m], Prod(b[..m]));
    }
  }

  /** If half the extents already give a target-sized chunk, the result is more than half of the target. */
  lemma MoreThanHalf(dims: seq<nat>, typeSize: nat, target: nat, chunk: seq<nat>, e: seq<nat>)
    requires Chunked(dims, typeSize, target, chunk, e) && 0 < target <= HalfBytes(dims, typeSize)
    ensures target < 2 * Bytes(e, typeSize)
  {
    if 2 * Bytes(e, typeSize) <= target {
      forall i | 0 <= i < |dims| ensures Halves(dims)[i] <= chunk[i] {
        assert !CanDouble(dims, chunk, i);
      }
      ProductMonotone(Halves(dims), chunk);
      ProductOfPowers(chunk, e);
      MulKeepsOrder(Prod(Halves(dims)), Prod(chunk), typeSize);
    }
  }

  lemma {:induction false} PowerTimes(x: nat, s: nat, m: nat)
    requires x * Pow2(s) == Pow2(m)
    ensures s <= m && x == Pow2(m - s)
    decreases s
  {
    if s > 0 {
      assert x * (2 * Pow2(s - 1)) == 2 * (x * Pow2(s - 1));
      PowerTimes(x, s - 1, m - 1);
    }
  }

  lemma SixteenBits()
    ensures Pow2(16) == KB64
  {
    PowersToSix();
    Pow2Add(5, 5);
    Pow2Add(6, 10);
  }

  /** The target is met exactly when the element size is a power of two. */
  lemma TargetMetExactly(dims: seq<nat>, typeSize: nat, target: nat, chunk: seq<nat>, e: seq<nat>)
    requires Chunked(dims, typeSize, target, chunk, e) && IsTarget(target, HalfBytes(dims, typeSize))
    requires KB64 <= HalfBytes(dims, typeSize) && typeSize <= target
    ensures Bytes(e, typeSize) <= target
    ensures Bytes(e, typeSize) == target <==> IsPow2(typeSize)
  {
    var limit := HalfBytes(dims, typeSize);
    var j: nat :| TargetStep(target, limit, j);
    SixteenBits();
    Pow2Add(16, j);
    Pow2Grows(j, 0);
    assert 0 < target == Pow2(16 + j) <= limit;
    assert Bytes(e, typeSize) <= target;
    MoreThanHalf(dims, typeSize, target, chunk, e);
    hide Chunked, Bytes, IsTarget, TargetStep, HalfBytes;
    MetByPowers(typeSize, Sum(e), 16 + j);
    BytesAre(e, typeSize);
  }

  lemma BytesAre(e: seq<nat>, typeSize: nat)
    ensures Bytes(e, typeSize) == typeSize * Pow2(Sum(e))
  {}

  /** A multiple of a power of two that comes close to a power of two from below meets it if it is a power of two. */
  lemma MetByPowers(x: nat, s: nat, m: nat)
    requires x * Pow2(s) <= Pow2(m) < 2 * (x * Pow2(s))
    ensures x * Pow2(s) == Pow2(m) <==> IsPow2(x)
  {
    if x * Pow2(s) == Pow2(m) {
      PowerTimes(x, s, m);
    }
    if IsPow2(x) {
      var k: nat :| x == Pow2(k);
      Pow2Add(k, s);
      Pow2Order(m, k + s);
      Pow2Order(k + s, m);
    }
  }

  /**
   * The documented range of 64 KB to 4 MB, for datasets with at least 64 KB in half their extents: the
   * lower end is missed exactly for an element size below 64 KB that is no power of two when the
   * target is 64 KB, the upper end exactly for elements above 4 MB.
   */
  lemma DocumentedRange(dims: seq<nat>, typeSize: nat, target: nat, chunk: seq<nat>, e: seq<nat>)
    requires Chunked(dims, typeSize, target, chunk, e) && IsTarget(target, HalfBytes(dims, typeSize))
    requires KB64 <= HalfBytes(dims, typeSize)
    ensures KB64 <= Bytes(e, typeSize) <==> HalfBytes(dims, typeSize) >= 2 * KB64 || typeSize >= KB64 || IsPow2(typeSize)
    ensures Bytes(e, typeSize) <= 64 * KB64 <==> typeSize <= 64 * KB64
  {
    var limit := HalfBytes(dims, typeSize);
    TargetIsModest(target, limit);
    Pow2Grows(Sum(e), 0);
    MulKeepsOrder(1, Pow2(Sum(e)), typeSize);
    var j: nat :| TargetStep(target, limit, j);
    Pow2Grows(j, 0);
    Pow2Grows(0, j);
    MoreThanHalf(dims, typeSize, target, chunk, e);
    if typeSize <= target {
      TargetMetExactly(dims, typeSize, target, chunk, e);
    }
  }

  /** The exponent of the largest power of two that does not exceed n. */
  function Log2(n: nat): nat {
    if n < 2 then 0 else 1 + Log2(n / 2)
  }

  lemma {:induction false} Log2Bounds(n: nat, k: nat)
    requires n >= 1
    ensures Pow2(Log2(n)) <= n < 2 * Pow2(Log2(n))
    ensures Pow2(k) <= n <==> k <= Log2(n)
  {
    if n >= 2 {
      Log2Bounds(n / 2, 0);
    }
    Pow2Order(k, Log2(n));
  }

  function Logs(dims: seq<nat>): (m: seq<nat>)
    ensures |m| == |dims| && forall i | 0 <= i < |m| :: m[i] == Log2(dims[i])
  {
    seq(|dims|, i requires 0 <= i < |dims| => Log2(dims[i]))
  }

  /** The largest powers of two within the extents. */
  function LargestPowers(dims: seq<nat>): (p: seq<nat>)
    ensures |p| == |dims| && forall i | 0 <= i < |p| :: p[i] == Pow2(Log2(dims[i]))
  {
    seq(|dims|, i requires 0 <= i < |dims| => Pow2(Log2(dims[i])))
  }

  /** Any sum up to that of the given bounds can be reached within them. */
  lemma {:induction false} SumReached(m: seq<nat>, total: nat) returns (f: seq<nat>)
    requires total <= Sum(m)
    ensures |f| == |m| && (forall i | 0 <= i < |m| :: f[i] <= m[i]) && Sum(f) == total
    decreases |m|
  {
    if |m| == 0 {
      f := [];
    } else {
      var n := |m| - 1;
      var last := if m[n] <= total then m[n] else total;
      var g := SumReached(m[..n], total - last);
      f := g + [last];
      assert f[..n] == g;
    }
  }

  /** A choice within the extents that has 64 KB exists exactly under a condition on element size and extents. */
  lemma SomeChoice(dims: seq<nat>, typeSize: nat, f: seq<nat>)
    requires |f| == |dims| && (forall i | 0 <= i < |f| :: 1 <= dims[i] && Pow2(f[i]) <= dims[i]) && Bytes(f, typeSize) == KB64
    ensures IsPow2(typeSize) && typeSize <= KB64 <= typeSize * Prod(LargestPowers(dims))
  {
    SixteenBits();
    MetByPowers(typeSize, Sum(f), 16);
    Pow2Grows(Sum(f), 0);
    MulKeepsOrder(1, Pow2(Sum(f)), typeSize);
    forall i | 0 <= i < |dims| ensures f[i] <= Logs(dims)[i] {
      Log2Bounds(dims[i], f[i]);
    }
    SumMonotone(f, Logs(dims));
    ProductOfPowers(LargestPowers(dims), Logs(dims));
    Pow2Order(Sum(f), Sum(Logs(dims)));
    MulKeepsOrder(Pow2(Sum(f)), Prod(LargestPowers(dims)), typeSize);
  }

  lemma ChoiceFor(dims: seq<nat>, typeSize: nat) returns (f: seq<nat>)
    requires forall i | 0 <= i < |dims| :: 1 <= dims[i]
    requires IsPow2(typeSize) && typeSize <= KB64 <= typeSize * Prod(LargestPowers(dims))
    ensures |f| == |dims| && (forall i | 0 <= i < |f| :: Pow2(f[i]) <= dims[i]) && Bytes(f, typeSize) == KB64
  {
    var k: nat :| typeSize == Pow2(k);
    SixteenBits();
    Pow2Order(k, 16);
    ProductOfPowers(LargestPowers(dims), Logs(dims));
    Pow2Add(k, Sum(Logs(dims)));
    Pow2Order(16, k + Sum(Logs(dims)));
    f := SumReached(Logs(dims), 16 - k);
    Pow2Add(k, 16 - k);
    forall i | 0 <= i < |f| ensures Pow2(f[i]) <= dims[i] {
      Log2Bounds(dims[i], f[i]);
    }
  }

  /**
   * A smaller dataset gets a chunk of 64 KB exactly when the element size is a power of two up to 64 KB and the
   * largest powers of two within the extents give that much.
   */
  lemma SmallDataset(dims: seq<nat>, typeSize: nat, target: nat, chunk: seq<nat>, e: seq<nat>)
    requires Chunked(dims, typeSize, target, chunk, e) && IsTarget(target, HalfBytes(dims, typeSize))
    requires HalfBytes(dims, typeSize) < KB64 && forall i | 0 <= i < |dims| :: 1 <= dims[i]
    ensures Bytes(e, typeSize) <= KB64
    ensures Bytes(e, typeSize) == KB64 <==> IsPow2(typeSize) && typeSize <= KB64 <= typeSize * Prod(LargestPowers(dims))
  {
    var limit := HalfBytes(dims, typeSize);
    var j: nat :| TargetStep(target, limit, j);
    Pow2Grows(j, 0);
    assert target == KB64;
    ProductAtLeastOne(Halves(dims));
    MulKeepsOrder(1, Prod(Halves(dims)), typeSize);
    if Bytes(e, typeSize) == KB64 {
      SomeChoice(dims, typeSize, e);
    }
    if IsPow2(typeSize) && typeSize <= KB64 <= typeSize * Prod(LargestPowers(dims)) {
      var f := ChoiceFor(dims, typeSize);
      NoBetterChunks(dims, typeSize, target, chunk, e, f);
    }
  }

  lemma {:induction false} ProductAtLeastOne(d: seq<nat>)
    requires forall i | 0 <= i < |d| :: d[i] >= 1
    ensures Prod(d) >= 1
    decreases |d|
  {
    if |d| > 0 {
      ProductAtLeastOne(d[..|d| - 1]);
      MulKeepsOrder(1, Prod(d[..|d| - 1]), d[|d| - 1]);
    }
  }
}
