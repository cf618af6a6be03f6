/** splashtools: how the files of a grid are divided among processes. */
module ToolPartition {
  import opened Arithmetic
  import opened Geometry
  import opened MpiGrid

  /** The rounded down quotient in filesToProcesses. */
  function FilesPerProcess(mpiSize: nat, files: nat): (n: nat)
    requires mpiSize > 0
  {
    Quot(files, mpiSize)
  }

  class ToolOptions {
    const mpiRank: nat
    const mpiSize: nat
    var fileIndexStart: int
    var fileIndexEnd: int

    constructor (mpiRank: nat, mpiSize: nat)
      ensures this.mpiRank == mpiRank && this.mpiSize == mpiSize && fileIndexStart == -1 && fileIndexEnd == -1
    {
      this.mpiRank, this.mpiSize := mpiRank, mpiSize;
      fileIndexStart, fileIndexEnd := -1, -1;
    }

    /** filesToProcesses: the range of files of this process; it stays (-1, -1) without files. */
    method FilesToProcesses(files: nat)
      requires mpiRank < mpiSize && fileIndexStart == -1 && fileIndexEnd == -1
      modifies this
      ensures (fileIndexStart, fileIndexEnd) == Range(mpiRank, mpiSize, files)
      ensures mpiSize >= files && mpiRank < files ==> fileIndexStart == fileIndexEnd == mpiRank
      ensures mpiSize >= files && mpiRank >= files ==> fileIndexStart == fileIndexEnd == -1
    {
      if mpiSize >= files {
        if mpiRank < files {
          fileIndexStart := mpiRank;
          fileIndexEnd := mpiRank;
        }
      } else {
        var filesPerProcess := FilesPerProcess(mpiSize, files);
        fileIndexStart := mpiRank * filesPerProcess;
        fileIndexEnd := (mpiRank + 1) * filesPerProcess - 1;
        if mpiRank == mpiSize - 1 {
          fileIndexEnd := files - 1;
        }
      }
    }

    /** executeToolFunction: the tool runs on the files of this process; `fails` is its outcome per position. */
    method ExecuteToolFunction(fileMpiSize: Dims, fails: Dims -> bool) returns (visited: seq<Dims>, failed: bool)
      requires mpiRank < mpiSize && fileIndexStart == -1 && fileIndexEnd == -1
      modifies this
      ensures !Positive(fileMpiSize) ==> failed && visited == []
      ensures Positive(fileMpiSize) ==> visited == Visits(mpiRank, mpiSize, fileMpiSize)
      ensures Positive(fileMpiSize) ==> (fileIndexStart, fileIndexEnd) == Range(mpiRank, mpiSize, ScalarSize(fileMpiSize))
      ensures Positive(fileMpiSize) ==> (failed <==> exists k :: 0 <= k < |visited| && fails(visited[k]))
    {
      visited, failed := [], false;
      if ScalarSize(fileMpiSize) == 0 {
        NoPositions(fileMpiSize);
        failed := true;
        return;
      }
      NoPositions(fileMpiSize);
      var files := fileMpiSize[0] * fileMpiSize[1] * fileMpiSize[2];
      FilesToProcesses(files);
      if fileIndexStart == -1 {
        return;
      }
      RangeInside(mpiRank, mpiSize, files);
      ghost var start := fileIndexStart;
      var i := fileIndexStart;
      while i <= fileIndexEnd
        invariant 0 <= start <= i <= fileIndexEnd + 1 && fileIndexStart == start
        invariant (fileIndexStart, fileIndexEnd) == Range(mpiRank, mpiSize, files)
        invariant visited == Positions(start, i - start, fileMpiSize)
        invariant failed <==> exists k :: 0 <= k < |visited| && fails(visited[k])
      {
        var mpiPos := PosOfFile(i, fileMpiSize);
        var failure := fails(mpiPos);
        ghost var before := visited;
        visited := visited + [mpiPos];
        assert forall k :: 0 <= k < |before| ==> visited[k] == before[k];
        assert visited[|before|] == mpiPos;
        failed := failed || failure;
        i := i + 1;
      }
    }
  }

  /** The first and last file of a process, or (-1, -1). */
  function Range(rank: nat, mpiSize: nat, files: nat): (int, int)
    requires rank < mpiSize
  {
    if mpiSize >= files then
      if rank < files then (rank, rank) else (-1, -1)
    else
      var n := FilesPerProcess(mpiSize, files);
      (rank * n, if rank == mpiSize - 1 then files - 1 else (rank + 1) * n - 1)
  }

  predicate Handles(rank: nat, mpiSize: nat, files: nat, i: nat)
    requires rank < mpiSize
  {
    Range(rank, mpiSize, files).0 != -1 && Range(rank, mpiSize, files).0 <= i <= Range(rank, mpiSize, files).1
  }

  lemma RangeInside(rank: nat, mpiSize: nat, files: nat)
    requires rank < mpiSize && Range(rank, mpiSize, files).0 != -1
    ensures 0 <= Range(rank, mpiSize, files).0 <= Range(rank, mpiSize, files).1 < files
  {
    if mpiSize < files {
      hide Quot, Rem;
      var n := FilesPerProcess(mpiSize, files);
      Decompose(files, mpiSize);
      AtLeastOne(files, mpiSize);
      Commute(n, mpiSize);
      Last(rank, mpiSize, n);
    }
  }

  lemma Last(rank: nat, mpiSize: nat, n: nat)
    requires rank < mpiSize
    ensures (rank + 1) * n == rank * n + n && (rank + 1) * n <= mpiSize * n
  {}

  lemma AtLeastOne(files: nat, mpiSize: nat)
    requires 0 < mpiSize <= files
    ensures Quot(files, mpiSize) >= 1
  {}

  /** The process that handles a file. */
  function RankOf(mpiSize: nat, files: nat, i: nat): nat
    requires 0 < mpiSize
  {
    if mpiSize >= files then i
    else
      AtLeastOne(files, mpiSize);
      var r := Quot(i, FilesPerProcess(mpiSize, files));
      if r < mpiSize then r else mpiSize - 1
  }

  /** Every file is handled by exactly one process. */
  lemma OneRankPerFile(mpiSize: nat, files: nat, i: nat, rank: nat)
    requires i < files && rank < mpiSize
    ensures RankOf(mpiSize, files, i) < mpiSize
    ensures Handles(rank, mpiSize, files, i) <==> rank == RankOf(mpiSize, files, i)
  {
    if mpiSize < files {
      AtLeastOne(files, mpiSize);
      var n := FilesPerProcess(mpiSize, files);
      Decompose(i, n);
      hide Quot, Rem;
      var r := Quot(i, n);
      assert (rank + 1) * n == rank * n + n && (r + 1) * n == r * n + n;
      if r < rank {
        MulMonotone(rank, r + 1, n);
      } else if r > rank {
        MulMonotone(r, rank + 1, n);
      }
    }
  }

  /**
   * With fewer processes than files, all processes but the last have ranges of one length, the rounded down quotient,
   * the last one has all that is left, and the ranges follow each other from the first file to the last.
   */
  lemma EvenShares(mpiSize: nat, files: nat) returns (n: nat)
    requires 0 < mpiSize < files
    ensures n * mpiSize <= files < (n + 1) * mpiSize
    ensures forall rank | 0 <= rank < mpiSize - 1 ::
              var (first, last) := Range(rank, mpiSize, files); last - first + 1 == n && Range(rank + 1, mpiSize, files).0 == last + 1
    ensures var (first, last) := Range(mpiSize - 1, mpiSize, files); last - first + 1 == files - (mpiSize - 1) * n && last == files - 1
    ensures Range(0, mpiSize, files).0 == 0
  {
    n := Quot(files, mpiSize);
    Decompose(files, mpiSize);
    assert (n + 1) * mpiSize == n * mpiSize + mpiSize;
    hide Quot, Rem, Range;
    forall rank | 0 <= rank < mpiSize - 1
      ensures var (first, last) := Range(rank, mpiSize, files); last - first + 1 == n && Range(rank + 1, mpiSize, files).0 == last + 1
    {
      ShareOf(rank, mpiSize, files);
    }
    ShareOf(0, mpiSize, files);
    ShareOf(mpiSize - 1, mpiSize, files);
  }

  lemma ShareOf(rank: nat, mpiSize: nat, files: nat)
    requires rank < mpiSize < files
    ensures Range(0, mpiSize, files).0 == 0
    ensures var (first, last) := Range(rank, mpiSize, files);
            if rank < mpiSize - 1 then last - first + 1 == Quot(files, mpiSize) && Range(rank + 1, mpiSize, files).0 == last + 1
            else last == files - 1 && first == (mpiSize - 1) * Quot(files, mpiSize)
  {
    hide Quot;
    Last(rank, mpiSize, Quot(files, mpiSize));
  }

  // ---- Positions ----------------------------------------------------------------------------------

  /** The tool counts along the last axis first. */
  function PosOfFile(index: nat, mpiSize: Dims): Dims
    requires Positive(mpiSize)
  {
    PositiveArea([mpiSize[1], mpiSize[2], 1]);
    [Quot(index, mpiSize[1] * mpiSize[2]), Rem(Quot(index, mpiSize[2]), mpiSize[1]), Rem(index, mpiSize[2])]
  }

  function FileAtPos(pos: Dims, mpiSize: Dims): nat {
    pos[2] + pos[1] * mpiSize[2] + pos[0] * mpiSize[2] * mpiSize[1]
  }

  lemma NoPositions(size: Dims)
    ensures ScalarSize(size) == 0 <==> !Positive(size)
  {}

  /** Position and index determine each other. */
  lemma IndexOfPosition(pos: Dims, size: Dims, index: nat)
    requires Positive(size) && OnGrid(pos, size) && index < ScalarSize(size)
    ensures FileAtPos(pos, size) < ScalarSize(size)
    ensures PosOfFile(index, size) == pos <==> index == FileAtPos(pos, size)
  {
    hide Quot, Rem;
    var x, y, z, sx, sy, sz := pos[0], pos[1], pos[2], size[0], size[1], size[2];
    PositiveArea([sy, sz, 1]);
    Grouped(z, y, x, sz, sy);
    PlaneIndex(z, y, sz, sy);
    PlaneIndex(z + y * sz, x, sz * sy, sx);
    Commute(sz, sy);
    SameProduct(sx, sy, sz);
    QuotRem(x, sz * sy, z + y * sz);
    QuotRem(y + x * sy, sz, z);
    QuotRem(x, sy, y);
    Decompose(index, sz);
    Decompose(Quot(index, sz), sy);
    var q := Quot(index, sz);
    Grouped(Rem(index, sz), Rem(q, sy), Quot(q, sy), sz, sy);
    PlaneIndex(Rem(index, sz), Rem(q, sy), sz, sy);
    QuotRem(Quot(q, sy), sz * sy, Rem(index, sz) + Rem(q, sy) * sz);
  }

  /** Counting runs along z first, then y, then x. */
  lemma CountsAlongLastAxis(index: nat, size: Dims)
    requires Positive(size) && index + 1 < ScalarSize(size)
    ensures PosOfFile(0, size) == ZERO
    ensures var p := PosOfFile(index, size);
            PosOfFile(index + 1, size) ==
              if p[2] + 1 < size[2] then [p[0], p[1], p[2] + 1] else if p[1] + 1 < size[1] then [p[0], p[1] + 1, 0] else [p[0] + 1, 0, 0]
  {
    AsIndex(index, size);
    AsIndex(index + 1, size);
    AsIndex(0, size);
    NextPos(index, [size[2], size[1], size[0]]);
  }

  /** The tool's count is the other one with the axes in the reverse order. */
  lemma AsIndex(index: nat, size: Dims)
    requires Positive(size) && index < ScalarSize(size)
    ensures var p := PosOfFile(index, size); IndexToPos(index, [size[2], size[1], size[0]]) == [p[2], p[1], p[0]]
    ensures ScalarSize([size[2], size[1], size[0]]) == ScalarSize(size)
  {
    var p := IndexToPos(index, [size[2], size[1], size[0]]);
    ReversedSize(size[0], size[1], size[2]);
    IndexOfPos(index, [size[2], size[1], size[0]]);
    IndexOfPosition([p[2], p[1], p[0]], size, index);
  }

  lemma ReversedSize(a: nat, b: nat, c: nat)
    ensures c * b * a == a * b * c
  {}

  lemma SameProduct(a: nat, b: nat, c: nat)
    ensures a * (c * b) == a * b * c
  {}

  function Positions(start: nat, count: nat, size: Dims): (s: seq<Dims>)
    requires Positive(size)
    ensures |s| == count && forall k | 0 <= k < count :: s[k] == PosOfFile(start + k, size)
  {
    if count == 0 then [] else Positions(start, count - 1, size) + [PosOfFile(start + count - 1, size)]
  }

  /** The positions of the files that a process handles. */
  function Visits(rank: nat, mpiSize: nat, fileMpiSize: Dims): seq<Dims>
    requires rank < mpiSize && Positive(fileMpiSize)
  {
    var (first, last) := Range(rank, mpiSize, ScalarSize(fileMpiSize));
    if first == -1 then [] else
      RangeInside(rank, mpiSize, ScalarSize(fileMpiSize));
      Positions(first, last - first + 1, fileMpiSize)
  }

  /** Whatever the number of processes, every position of the grid is visited by one of them, and once. */
  lemma EveryPositionOnce(mpiSize: nat, size: Dims, pos: Dims, rank: nat, k: nat)
    requires Positive(size) && OnGrid(pos, size) && rank < mpiSize
    ensures FileAtPos(pos, size) < ScalarSize(size)
    ensures var i, files := FileAtPos(pos, size), ScalarSize(size);
            (k < |Visits(rank, mpiSize, size)| && Visits(rank, mpiSize, size)[k] == pos) <==>
            (rank == RankOf(mpiSize, files, i) && k == i - Range(rank, mpiSize, files).0)
  {
    var files := ScalarSize(size);
    var i := FileAtPos(pos, size);
    NoPositions(size);
    IndexOfPosition(pos, size, 0);
    OneRankPerFile(mpiSize, files, i, rank);
    var (first, last) := Range(rank, mpiSize, files);
    if first != -1 {
      RangeInside(rank, mpiSize, files);
      if k < last - first + 1 {
        IndexOfPosition(pos, size, first + k);
      }
    }
    hide PosOfFile, RankOf, FileAtPos, Range, ScalarSize;
  }
}
