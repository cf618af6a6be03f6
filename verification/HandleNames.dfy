/** The files that HandleMgr gives to positions: cache keys, positions and file names. */
module HandleNames {
  import opened Arithmetic
  import opened Geometry
  import opened MpiGrid
  import opened FileNames

  datatype Scheme = Mpi | Iterations | FullName

  datatype Naming = Naming(scheme: Scheme, mpiSize: Dims, filename: string)

  /** The test for a full file name, which has an ".h5" at size_t position length - 3. */
  predicate TakenAsFull(filename: string)
    requires |filename| < NPOS - 1
  {
    Find(filename, ".h5") == Minus(|filename|, 3)
  }

  predicate ValidNaming(n: Naming) {
    n.mpiSize[0] > 0 && n.mpiSize[1] > 0 && n.mpiSize[2] > 0 && |n.filename| < NPOS - 1
  }

  /** The key of a position in the cache. */
  function Key(n: Naming, pos: Dims): (index: nat)
    ensures index < UINT32
  {
    if n.scheme == FullName then 0 else IndexOf(pos, n.mpiSize) % UINT32
  }

  function PosFromIndex(n: Naming, index: nat): Dims
    requires ValidNaming(n)
  {
    if index == 0 then ZERO
    else if n.scheme == Mpi then
      PositiveArea([n.mpiSize[1], n.mpiSize[0], 1]);
      [Rem(index, n.mpiSize[0]), Rem(Quot(index, n.mpiSize[0]), n.mpiSize[1]), Quot(index, n.mpiSize[1] * n.mpiSize[0])]
    else [index, 0, 0]
  }

  function FileName(n: Naming, pos: Dims): string
    requires |n.filename| < NPOS - 1
  {
    if n.scheme == FullName || TakenAsFull(n.filename) then n.filename
    else if n.scheme == Mpi then n.filename + "_" + Dec(pos[0]) + "_" + Dec(pos[1]) + "_" + Dec(pos[2]) + ".h5"
    else IterationName(n.filename, pos[0])
  }

  /** The positions that posFromIndex gives: in the rows and planes of the grid, or an iteration number. */
  predicate Indexed(n: Naming, pos: Dims) {
    match n.scheme
    case Mpi => pos[0] < n.mpiSize[0] && pos[1] < n.mpiSize[1] && IndexOf(pos, n.mpiSize) < UINT32
    case Iterations => pos[0] < UINT32 && pos[1] == 0 && pos[2] == 0
    case FullName => true
  }

  /** The positions that a scheme is made for: on the grid, or an iteration number. */
  predicate InRange(n: Naming, pos: Dims) {
    Indexed(n, pos) && (n.scheme == Mpi ==> OnGrid(pos, n.mpiSize))
  }

  /** Every name of two characters passes for a full file name: the position wraps to npos. */
  lemma TakenAsFullExactly(filename: string)
    requires |filename| < NPOS - 1
    ensures TakenAsFull(filename) <==>
              || |filename| == 2
              || (|filename| >= 3 && filename[|filename| - 3..] == ".h5"
                  && forall k | 0 <= k < |filename| - 3 :: !OccursAt(filename, ".h5", k))
  {
    var n := |filename|;
    var at := Find(filename, ".h5");
    if n >= 3 {
      MinusExact(n, 3);
      assert filename[n - 3..n] == filename[n - 3..];
      assert at == NPOS ==> !OccursAt(filename, ".h5", n - 3);
    }
  }

  /** posFromIndex in the terms of the grid. */
  lemma PosFromIndexOnGrid(n: Naming, pos: Dims)
    requires ValidNaming(n) && n.scheme == Mpi && pos[0] < n.mpiSize[0] && pos[1] < n.mpiSize[1]
    ensures PosFromIndex(n, IndexOf(pos, n.mpiSize)) == pos
  {
    hide Quot, Rem;
    var x, y, z, sx, sy := pos[0], pos[1], pos[2], n.mpiSize[0], n.mpiSize[1];
    Grouped(x, y, z, sx, sy);
    PlaneIndex(x, y, sx, sy);
    Commute(sx, sy);
    PositiveArea(n.mpiSize);
    QuotRem(y + z * sy, sx, x);
    QuotRem(z, sy, y);
    QuotRem(z, sy * sx, x + y * sx);
    if IndexOf(pos, n.mpiSize) == 0 {
      MulMonotone(y, 1, sx);
      MulMonotone(z, 1, sx * sy);
    }
  }

  lemma IndexOfRow(x: nat, size: Dims)
    ensures IndexOf([x, 0, 0], size) == x
  {}

  /** indexFromPos leads back from the position that posFromIndex gives. */
  lemma KeyOfPos(n: Naming, index: nat)
    requires ValidNaming(n) && index < UINT32
    ensures Indexed(n, PosFromIndex(n, index))
    ensures n.scheme != FullName ==> Key(n, PosFromIndex(n, index)) == index
  {
    hide Quot, Rem;
    if n.scheme == Mpi {
      var sx, sy := n.mpiSize[0], n.mpiSize[1];
      PositiveArea(n.mpiSize);
      Commute(sx, sy);
      Decompose(index, sx);
      Decompose(Quot(index, sx), sy);
      var x, q := Rem(index, sx), Quot(index, sx);
      var y, z := Rem(q, sy), Quot(q, sy);
      Grouped(x, y, z, sx, sy);
      PlaneIndex(x, y, sx, sy);
      assert IndexOf([x, y, z], n.mpiSize) == index;
      PosFromIndexOnGrid(n, [x, y, z]);
    } else {
      IndexOfRow(index, n.mpiSize);
    }
  }

  lemma KeyIndexed(n: Naming, pos: Dims)
    requires n.scheme != FullName && Indexed(n, pos)
    ensures Key(n, pos) == IndexOf(pos, n.mpiSize)
  {}

  /** Only for such positions the two are inverse. */
  lemma InverseExactly(n: Naming, pos: Dims)
    requires ValidNaming(n) && n.scheme != FullName
    ensures PosFromIndex(n, Key(n, pos)) == pos <==> Indexed(n, pos)
  {
    hide Key, IndexOf, Quot, Rem;
    KeyOfPos(n, Key(n, pos));
    if Indexed(n, pos) {
      KeyIndexed(n, pos);
      if n.scheme == Mpi {
        PosFromIndexOnGrid(n, pos);
      } else {
        assert pos == [pos[0], 0, 0];
        IndexOfRow(pos[0], n.mpiSize);
      }
    }
  }

  /** posFromIndex stays on the grid exactly for the numbers of positions. */
  lemma OnGridExactly(n: Naming, index: nat)
    requires ValidNaming(n) && n.scheme == Mpi && index < UINT32
    ensures InRange(n, PosFromIndex(n, index)) <==> index < ScalarSize(n.mpiSize)
  {
    hide IndexOf, Quot, Rem, Key;
    var pos := PosFromIndex(n, index);
    KeyOfPos(n, index);
    KeyIndexed(n, pos);
    if OnGrid(pos, n.mpiSize) {
      PosOfIndex(pos, n.mpiSize);
    } else if index < ScalarSize(n.mpiSize) {
      IndexOfPos(index, n.mpiSize);
      var p := IndexToPos(index, n.mpiSize);
      PosFromIndexOnGrid(n, p);
    }
  }

  /** The names of the schemes. */
  lemma NameExample()
    ensures FileName(Naming(Mpi, [16, 1, 4], "out/data"), [12, 0, 3]) == "out/data_12_0_3.h5"
    ensures FileName(Naming(Iterations, ONE, "out/data"), [12, 0, 0]) == "out/data_12.h5"
    ensures FileName(Naming(FullName, ONE, "out/data"), [12, 0, 3]) == "out/data"
    ensures FileName(Naming(Iterations, ONE, "data.h5"), [12, 0, 0]) == "data.h5"
  {
    BaseAndFull();
    SmallNumbers();
    hide TakenAsFull, Dec;
    assert "out/data" + "_" + "12" + "_" + "0" + "_" + "3" + ".h5" == "out/data_12_0_3.h5";
    assert "out/data" + "_" + "12" + ".h5" == "out/data_12.h5";
  }

  lemma BaseAndFull()
    ensures !TakenAsFull("out/data") && TakenAsFull("data.h5")
  {
    TakenAsFullExactly("out/data");
    TakenAsFullExactly("data.h5");
    hide TakenAsFull;
    assert "out/data"[5..] == "ata" && "data.h5"[4..] == ".h5";
    forall k | 0 <= k < 4 ensures !OccursAt("data.h5", ".h5", k) {
      assert "data.h5"[k..k + 3][0] == "data.h5"[k];
    }
  }

  lemma SmallNumbers()
    ensures Dec(12) == "12" && Dec(0) == "0" && Dec(3) == "3"
  {}

  /** Two positions share a key exactly when their indices agree in 32 bits. */
  lemma KeysAgreeExactly(n: Naming, p: Dims, q: Dims)
    requires n.scheme != FullName
    ensures Key(n, p) == Key(n, q) <==> (IndexOf(p, n.mpiSize) - IndexOf(q, n.mpiSize)) % UINT32 == 0
  {
    hide IndexOf;
    var a, b := IndexOf(p, n.mpiSize), IndexOf(q, n.mpiSize);
    assert a == a / UINT32 * UINT32 + a % UINT32 && b == b / UINT32 * UINT32 + b % UINT32;
  }

  lemma DigitAt(a: string, s: string, k: nat)
    requires AllDigits(a)
    ensures k < |a| ==> IsDigit((a + s)[k])
  {}

  /** Digits end where the first other character is. */
  lemma SplitDigits(a: string, b: string, s: string, t: string)
    requires AllDigits(a) && AllDigits(b) && a + s == b + t
    requires |s| > 0 && |t| > 0 && !IsDigit(s[0]) && !IsDigit(t[0])
    ensures a == b && s == t
  {
    assert (a + s)[|a|] == s[0] && (b + t)[|b|] == t[0];
    DigitAt(a, s, |b|);
    DigitAt(b, t, |a|);
    assert |a| == |b|;
    assert (a + s)[..|a|] == a && (b + t)[..|b|] == b;
    assert (a + s)[|a|..] == s && (b + t)[|b|..] == t;
  }

  lemma SplitNumbers(a: nat, b: nat, s: string, t: string)
    requires Dec(a) + s == Dec(b) + t
    requires |s| > 0 && |t| > 0 && !IsDigit(s[0]) && !IsDigit(t[0])
    ensures a == b && s == t
  {
    SplitDigits(Dec(a), Dec(b), s, t);
    ValueOfDec(a);
    ValueOfDec(b);
  }

  /** Under one base name, positions with different keys have different files. */
  lemma NamesDiffer(n: Naming, p: Dims, q: Dims)
    requires ValidNaming(n) && Indexed(n, p) && Indexed(n, q)
    requires n.scheme == FullName || !TakenAsFull(n.filename)
    ensures FileName(n, p) == FileName(n, q) <==> Key(n, p) == Key(n, q)
  {
    if n.scheme != FullName {
      InverseExactly(n, p);
      InverseExactly(n, q);
      hide Dec, IndexOf, Find, PosFromIndex;
      if FileName(n, p) == FileName(n, q) {
        if n.scheme == Mpi {
          SameMpiName(n.filename, p, q);
        } else {
          SameIterationName(n.filename, p[0], q[0]);
          assert p == q;
        }
      }
    }
  }

  lemma SameMpiName(base: string, p: Dims, q: Dims)
    requires base + "_" + Dec(p[0]) + "_" + Dec(p[1]) + "_" + Dec(p[2]) + ".h5"
          == base + "_" + Dec(q[0]) + "_" + Dec(q[1]) + "_" + Dec(q[2]) + ".h5"
    ensures p == q
  {
    hide Dec;
    var pz, qz := Dec(p[2]) + ".h5", Dec(q[2]) + ".h5";
    var py, qy := Dec(p[1]) + ("_" + pz), Dec(q[1]) + ("_" + qz);
    var px, qx := Dec(p[0]) + ("_" + py), Dec(q[0]) + ("_" + qy);
    assert base + "_" + Dec(p[0]) + "_" + Dec(p[1]) + "_" + Dec(p[2]) + ".h5" == (base + "_") + px;
    assert base + "_" + Dec(q[0]) + "_" + Dec(q[1]) + "_" + Dec(q[2]) + ".h5" == (base + "_") + qx;
    SameTail(base + "_", px, qx);
    SplitNumbers(p[0], q[0], "_" + py, "_" + qy);
    SameTail("_", py, qy);
    SplitNumbers(p[1], q[1], "_" + pz, "_" + qz);
    SameTail("_", pz, qz);
    SplitNumbers(p[2], q[2], ".h5", ".h5");
  }

  lemma SameIterationName(base: string, p: nat, q: nat)
    requires IterationName(base, p) == IterationName(base, q)
    ensures p == q
  {
    hide Dec;
    assert IterationName(base, p) == (base + "_") + (Dec(p) + ".h5");
    assert IterationName(base, q) == (base + "_") + (Dec(q) + ".h5");
    SameTail(base + "_", Dec(p) + ".h5", Dec(q) + ".h5");
    SplitNumbers(p, q, ".h5", ".h5");
  }

  lemma SameTail(a: string, s: string, t: string)
    requires a + s == a + t
    ensures s == t
  {
    assert (a + s)[|a|..] == s && (a + t)[|a|..] == t;
  }
}
