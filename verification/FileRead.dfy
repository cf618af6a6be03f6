/** DomainCollector: what one file contributes to a merged read. */
module FileRead {
  import opened Geometry
  import opened Options
  import opened Hdf5
  import opened DataSet
  import opened FileGrid
  import opened DataContainer

  // ---- Where a file's values go -------------------------------------------------------------------

  function DataDims<T>(s: Stored<T>): nat {
    if s.Simple? then |s.extent| else 0
  }

  /** Index of the global cell q in a buffer that holds the request box. */
  function BufferIndex(q: Dims, request: Domain): nat {
    Lin(Local(q, request.offset), request.size, AXES)
  }

  /** Index of the global cell q among the cells of the file that holds it. */
  function CellIndex<T>(f: File<T>, q: Dims): nat
    requires f.data.Ok()
  {
    Lin(Local(q, f.FileDomain().offset), DataSize(f.data), DataDims(f.data))
  }

  /** The buffer shows the file's value at cell q. */
  ghost predicate Shows<T>(buf: seq<T>, request: Domain, f: File<T>, q: Dims)
    requires f.data.Ok() && f.data.Simple?
  {
    && BufferIndex(q, request) < |buf| && CellIndex(f, q) < |f.data.cells|
    && buf[BufferIndex(q, request)] == f.data.cells[CellIndex(f, q)]
  }

  /** The buffer shows every cell that the request and the file share. */
  ghost predicate GridLoaded<T>(buf: seq<T>, request: Domain, f: File<T>)
    requires f.data.Ok() && f.data.Simple?
  {
    forall q: Dims | request.Contains(q) && f.FileDomain().Contains(q) :: Shows(buf, request, f, q)
  }

  /** On the axes the data does not have, the file lies where the request begins. */
  predicate FlatAt<T>(f: File<T>, request: Domain) {
    forall i | DataDims(f.data) <= i < AXES :: f.FileDomain().offset[i] == request.offset[i]
  }

  /** The file's dataset fills its domain. */
  predicate GridFile<T>(f: File<T>) {
    f.data.Ok() && f.data.Simple? && DataSize(f.data) == f.size && f.FileDomain().Positive()
  }

  /**
   * The cells of the request that readGridInternal overwrites. On the axes that the data does not have it
   * computes no offset, so there everything goes to the request's first coordinate.
   */
  predicate Targets<T>(f: File<T>, request: Domain, q: Dims) {
    && request.Contains(q)
    && (forall i | 0 <= i < AXES && i < DataDims(f.data) :: f.FileDomain().offset[i] <= q[i] < f.FileDomain().offset[i] + f.size[i])
    && (forall i | DataDims(f.data) <= i < AXES :: q[i] == request.offset[i])
  }

  lemma CellInside<T>(f: File<T>, request: Domain, q: Dims)
    requires GridFile(f) && Targets(f, request, q)
    ensures CellIndex(f, q) < |f.data.cells|
  {
    LinBelow(Local(q, f.FileDomain().offset), DataSize(f.data), DataDims(f.data));
  }

  /** Cell p of a file, counted x-fastest, is the cell of the array that lies p behind the file's place. */
  ghost predicate Piece<T>(f: File<T>, values: Dims -> T) {
    && f.data.Ok() && f.data.Simple?
    && forall p: Dims | Below(p, f.size, AXES) ::
         && Lin(p, f.size, DataDims(f.data)) < |f.data.cells|
         && f.data.cells[Lin(p, f.size, DataDims(f.data))]
            == values([f.globalOffset[0] + f.offset[0] + p[0], f.globalOffset[1] + f.offset[1] + p[1], f.globalOffset[2] + f.offset[2] + p[2]])
  }

  lemma PieceAt<T>(f: File<T>, values: Dims -> T, q: Dims)
    requires GridFile(f) && Piece(f, values) && f.FileDomain().Contains(q)
    ensures CellIndex(f, q) < |f.data.cells| && f.data.cells[CellIndex(f, q)] == values(q)
  {
    var p := BehindFile(f, q);
    hide Lin, LogicalOf, Domain.Contains;
    assert Lin(p, f.size, DataDims(f.data)) < |f.data.cells|;
  }

  lemma BehindFile<T>(f: File<T>, q: Dims) returns (p: Dims)
    requires f.FileDomain().Contains(q)
    ensures Below(p, f.size, AXES) && p == Local(q, f.FileDomain().offset)
    ensures [f.globalOffset[0] + f.offset[0] + p[0], f.globalOffset[1] + f.offset[1] + p[1], f.globalOffset[2] + f.offset[2] + p[2]] == q
  {
    var d := f.FileDomain();
    p := Local(q, d.offset);
    assert forall i | 0 <= i < AXES :: d.offset[i] <= q[i] < d.offset[i] + d.size[i];
    assert q == [q[0], q[1], q[2]];
  }

  /** The global cell of index k in the buffer. */
  function CellOf(k: nat, request: Domain): Dims
    requires k < Prod(Phys(request.size, AXES))
  {
    Add(request.offset, PosAt(k, request.size, AXES))
  }

  /** What index k of the buffer holds after the file has been loaded. */
  function LoadedAt<T>(buf: seq<T>, request: Domain, f: File<T>, k: nat): T
    requires GridFile(f) && k < |buf| == Prod(Phys(request.size, AXES))
  {
    var q := CellOf(k, request);
    if Targets(f, request, q) then
      CellInside(f, request, q);
      f.data.cells[CellIndex(f, q)]
    else buf[k]
  }

  function LoadFile<T>(buf: seq<T>, request: Domain, f: File<T>): (after: seq<T>)
    requires GridFile(f) && |buf| == Prod(Phys(request.size, AXES))
    ensures |after| == |buf| && forall k | 0 <= k < |buf| :: after[k] == LoadedAt(buf, request, f, k)
  {
    seq(|buf|, k requires 0 <= k < |buf| => LoadedAt(buf, request, f, k))
  }

  /** The buffer for a request before anything is loaded. */
  function Blank<T>(request: Domain, fill: T): (buf: seq<T>)
    ensures |buf| == Prod(Phys(request.size, AXES)) && forall k | 0 <= k < |buf| :: buf[k] == fill
  {
    seq(Prod(Phys(request.size, AXES)), _ => fill)
  }

  // ---- The intersection of request and file -------------------------------------------------------

  /** Along one axis: the part [dst, dst + size) of the request is the part [src, src + size) of the file. */
  ghost predicate AxisShared(client: nat, clientSize: nat, request: nat, requestSize: nat, dst: nat, size: nat, src: nat) {
    && size > 0 && dst + size <= requestSize && src + size <= clientSize
    && request + dst == client + src
    && (dst == 0 || src == 0)
    && (dst + size == requestSize || src + size == clientSize)
  }

  /** The four branches of readGridInternal for one axis, given that the boxes meet there. */
  function AxisPart(client: nat, clientSize: nat, request: nat, requestSize: nat): (r: (nat, nat, nat))
    requires clientSize > 0 && requestSize > 0 && request < client + clientSize && client < request + requestSize
    ensures AxisShared(client, clientSize, request, requestSize, r.0, r.1, r.2)
  {
    var dst := if client >= request then client - request else 0;
    if request <= client then
      if request + requestSize >= client + clientSize then (dst, clientSize, 0)
      else (dst, request + requestSize - client, 0)
    else
      var src: nat := request - client;
      if request + requestSize >= client + clientSize then (dst, clientSize - src, src)
      else (dst, request + requestSize - (client + src), src)
  }

  /** The loop of readGridInternal that computes the offsets and the size of the intersection. */
  method Intersect(client: Domain, request: Domain, nd: nat) returns (dstOffset: Dims, srcSize: Dims, srcOffset: Dims)
    requires nd <= AXES && client.Positive() && request.Positive() && TestIntersection(request, client)
    ensures forall i | 0 <= i < nd ::
              AxisShared(client.offset[i], client.size[i], request.offset[i], request.size[i], dstOffset[i], srcSize[i], srcOffset[i])
    ensures forall i | nd <= i < AXES :: dstOffset[i] == 0 && srcSize[i] == 1 && srcOffset[i] == 0
  {
    dstOffset, srcSize, srcOffset := ZERO, ONE, ZERO;
    for i := 0 to nd
      invariant forall j | 0 <= j < i ::
          AxisShared(client.offset[j], client.size[j], request.offset[j], request.size[j], dstOffset[j], srcSize[j], srcOffset[j])
      invariant forall j | i <= j < AXES :: dstOffset[j] == 0 && srcSize[j] == 1 && srcOffset[j] == 0
    {
      ghost var was := (dstOffset, srcSize, srcOffset);
      MeetOnAxis(client, request, i);
      var part := AxisPart(client.offset[i], client.size[i], request.offset[i], request.size[i]);
      dstOffset, srcSize, srcOffset := dstOffset[i := part.0], srcSize[i := part.1], srcOffset[i := part.2];
      assert AxisShared(client.offset[i], client.size[i], request.offset[i], request.size[i], dstOffset[i], srcSize[i], srcOffset[i]);
      assert forall j | 0 <= j < AXES && j != i :: dstOffset[j] == was.0[j] && srcSize[j] == was.1[j] && srcOffset[j] == was.2[j];
    }
  }

  lemma MeetOnAxis(client: Domain, request: Domain, i: nat)
    requires i < AXES && client.Positive() && request.Positive() && TestIntersection(request, client)
    ensures client.size[i] > 0 && request.size[i] > 0
    ensures request.offset[i] < client.offset[i] + client.size[i] && client.offset[i] < request.offset[i] + request.size[i]
  {}

  lemma SharedCoordinate(client: nat, clientSize: nat, request: nat, requestSize: nat, dst: nat, size: nat, src: nat, q: nat)
    requires AxisShared(client, clientSize, request, requestSize, dst, size, src) && request <= q < request + requestSize
    ensures client <= q < client + clientSize <==> dst <= q - request < dst + size
    ensures client <= q < client + clientSize ==> Strided(src, 1, q - request - dst) == q - client
  {}

  /** A cell on a flat axis adds nothing to the index; a cell off it lies behind the data's part of the buffer. */
  lemma FlatIndex(j: Dims, size: Dims, nd: nat)
    requires 1 <= nd <= AXES && Below(j, size, AXES)
    ensures Lin(j, size, AXES) < Prod(Phys(size, AXES))
    ensures (forall i | nd <= i < AXES :: j[i] == 0) ==> Lin(j, size, AXES) == Lin(j, size, nd)
    ensures !(forall i | nd <= i < AXES :: j[i] == 0) ==> Lin(j, size, AXES) >= Prod(Phys(size, nd))
  {
    LinBelow(j, size, AXES);
    PhysProducts(size);
    IndexParts(j[0], j[1], j[2], size[0], size[1]);
  }

  lemma IndexParts(x: nat, y: nat, z: nat, sx: nat, sy: nat)
    requires x < sx && y < sy
    ensures z == 0 ==> x + sx * (y + sy * z) == x + sx * y
    ensures y == 0 && z == 0 ==> x + sx * (y + sy * z) == x
    ensures z > 0 ==> x + sx * (y + sy * z) >= sx * sy
    ensures y > 0 || z > 0 ==> x + sx * (y + sy * z) >= sx
  {
    var t := y + sy * z;
    if z == 0 {
      assert t == y;
    } else {
      AtLeast(sy, z, 1);
      AtLeast(sx, t, sy);
    }
    if t > 0 {
      AtLeast(sx, t, 1);
    }
  }

  lemma AtLeast(a: nat, b: nat, c: nat)
    requires b >= c
    ensures a * b >= a * c
  {}

  lemma PhysProducts(size: Dims)
    ensures Prod(Phys(size, 1)) == size[0]
    ensures Prod(Phys(size, 2)) == size[0] * size[1]
    ensures Prod(Phys(size, 3)) == ScalarSize(size)
  {
    assert Phys(size, 1) == [size[0]] && Phys(size, 2) == [size[1], size[0]] && Phys(size, 3) == [size[2], size[1], size[0]];
    ExtentOfOne([size[0]]);
    ExtentOfOne([size[1]]);
    ExtentOfOne([size[2]]);
    assert [size[1], size[0]][..1] == [size[1]];
    assert [size[2], size[1], size[0]][..2] == [size[2], size[1]] && [size[2], size[1]][..1] == [size[2]];
    assert Prod([size[2], size[1]]) == size[2] * size[1];
    assert size[2] * size[1] * size[0] == size[0] * size[1] * size[2];
  }

  ghost predicate Intersected(client: Domain, request: Domain, nd: nat, dstOffset: Dims, srcSize: Dims, srcOffset: Dims)
    requires nd <= AXES
  {
    forall i | 0 <= i < nd ::
      AxisShared(client.offset[i], client.size[i], request.offset[i], request.size[i], dstOffset[i], srcSize[i], srcOffset[i])
  }

  /** Cells of the request and indices of the buffer determine each other. */
  lemma CellOfIndex(k: nat, request: Domain)
    requires k < Prod(Phys(request.size, AXES))
    ensures request.Contains(CellOf(k, request)) && BufferIndex(CellOf(k, request), request) == k
  {
    PosAtIndex(k, request.size, AXES);
    var p := PosAt(k, request.size, AXES);
    hide PosAt, Lin;
    assert Local(CellOf(k, request), request.offset) == [p[0], p[1], p[2]] == p;
  }

  lemma IndexOfCell(q: Dims, request: Domain)
    requires request.Contains(q)
    ensures BufferIndex(q, request) < Prod(Phys(request.size, AXES)) && CellOf(BufferIndex(q, request), request) == q
  {
    var j := Local(q, request.offset);
    assert forall i | 0 <= i < AXES :: request.offset[i] <= q[i] < request.offset[i] + request.size[i];
    assert Below(j, request.size, AXES);
    IndexAtPos(j, request.size);
    hide PosAt, Lin;
    assert Add(request.offset, j) == [q[0], q[1], q[2]] == q;
  }

  /** Loading a file, cell by cell. */
  lemma LoadFileAt<T>(buf: seq<T>, request: Domain, f: File<T>, q: Dims)
    requires GridFile(f) && |buf| == Prod(Phys(request.size, AXES)) && request.Contains(q)
    ensures BufferIndex(q, request) < |buf|
    ensures Targets(f, request, q) ==> Shows(LoadFile(buf, request, f), request, f, q)
    ensures !Targets(f, request, q) ==> LoadFile(buf, request, f)[BufferIndex(q, request)] == buf[BufferIndex(q, request)]
  {
    IndexOfCell(q, request);
    if Targets(f, request, q) {
      CellInside(f, request, q);
    }
    hide CellOf, CellIndex, BufferIndex, Targets, GridFile;
  }

  // ---- Data with fewer axes than its domain -------------------------------------------------------

  function WithCells<T>(f: File<T>, cells: seq<T>): (r: File<T>)
    requires GridFile(f) && |cells| == |f.data.cells|
    ensures GridFile(r) && r.FileDomain() == f.FileDomain()
  {
    f.(data := f.data.(cells := cells))
  }

  /** A file that lies where the request begins on the axes its data lacks is loaded where it belongs. */
  lemma FlatTargets<T>(f: File<T>, request: Domain, q: Dims)
    requires GridFile(f) && FlatAt(f, request) && request.Contains(q)
    ensures Targets(f, request, q) <==> f.FileDomain().Contains(q)
  {}

  lemma FlatLoads<T>(buf: seq<T>, request: Domain, f: File<T>)
    requires GridFile(f) && FlatAt(f, request) && |buf| == Prod(Phys(request.size, AXES))
    ensures GridLoaded(LoadFile(buf, request, f), request, f)
  {
    forall q: Dims | request.Contains(q) && f.FileDomain().Contains(q) ensures Shows(LoadFile(buf, request, f), request, f, q) {
      FlatTargets(f, request, q);
      LoadFileAt(buf, request, f, q);
    }
  }

  /** Any other file that meets the request has a cell there that is not loaded. */
  lemma MissedCell<T>(f: File<T>, request: Domain) returns (q: Dims)
    requires GridFile(f) && request.Positive() && TestIntersection(request, f.FileDomain()) && !FlatAt(f, request)
    ensures request.Contains(q) && f.FileDomain().Contains(q) && !Targets(f, request, q)
  {
    IntersectionMeansSharedCell(request, f.FileDomain());
    q :| request.Contains(q) && f.FileDomain().Contains(q);
    var i :| DataDims(f.data) <= i < AXES && f.FileDomain().offset[i] != request.offset[i];
    assert f.size[i] == 1;
    assert f.FileDomain().offset[i] <= q[i] < f.FileDomain().offset[i] + f.size[i];
  }

  /** Contents with a mark at one cell only. */
  function MarkedCells<T>(f: File<T>, q: Dims, fill: T, mark: T): (cells: seq<T>)
    requires GridFile(f)
    ensures |cells| == |f.data.cells|
  {
    seq(|f.data.cells|, k => if k == CellIndex(f, q) then mark else fill)
  }

  lemma MarkIsAt<T>(f: File<T>, q: Dims, fill: T, mark: T)
    requires GridFile(f) && f.FileDomain().Contains(q)
    ensures var marked := WithCells(f, MarkedCells(f, q, fill, mark));
            CellIndex(marked, q) < |marked.data.cells| && marked.data.cells[CellIndex(marked, q)] == mark
  {
    var origin := f.FileDomain().offset;
    assert Below(Local(q, origin), DataSize(f.data), DataDims(f.data)) by {
      assert forall i | 0 <= i < AXES :: origin[i] <= q[i] < origin[i] + f.size[i];
    }
    LinBelow(Local(q, origin), DataSize(f.data), DataDims(f.data));
  }

  /** A cell of the request is overwritten exactly when it lies in the target box, with the file's cell at its coordinates. */
  lemma SharedCell<T>(f: File<T>, request: Domain, dstOffset: Dims, srcSize: Dims, srcOffset: Dims, q: Dims)
    requires GridFile(f) && request.Contains(q)
    requires Intersected(f.FileDomain(), request, |f.data.extent|, dstOffset, srcSize, srcOffset)
    ensures var j, nd := Local(q, request.offset), |f.data.extent|;
            && Below(j, request.size, AXES)
            && (Targets(f, request, q) <==> InBoxN(j, dstOffset, srcSize, nd) && forall i | nd <= i < AXES :: j[i] == 0)
            && (Targets(f, request, q) ==>
                  Lin(SourceCell(j, dstOffset, srcOffset, ONE, nd), DataSize(f.data), nd) == CellIndex(f, q))
  {
    var j, nd, origin := Local(q, request.offset), |f.data.extent|, f.FileDomain().offset;
    InRequest(q, request);
    TargetsOnAxes(f, request, q);
    hide Targets, GridFile, Strided, Local, Lin, Intersected;
    forall i | 0 <= i < nd
      ensures origin[i] <= q[i] < origin[i] + f.size[i] <==> dstOffset[i] <= j[i] < dstOffset[i] + srcSize[i]
      ensures dstOffset[i] <= j[i] < dstOffset[i] + srcSize[i] ==>
                Strided(srcOffset[i], ONE[i], j[i] - dstOffset[i]) == Local(q, origin)[i]
    {
      SharedOnAxis(f, request, dstOffset, srcSize, srcOffset, q, i);
    }
    if Targets(f, request, q) {
      assert InBoxN(j, dstOffset, srcSize, nd);
      SameCell(f, dstOffset, srcOffset, j, q);
    }
  }

  lemma SharedOnAxis<T>(f: File<T>, request: Domain, dstOffset: Dims, srcSize: Dims, srcOffset: Dims, q: Dims, i: nat)
    requires GridFile(f) && request.Contains(q) && i < |f.data.extent| <= AXES
    requires Intersected(f.FileDomain(), request, |f.data.extent|, dstOffset, srcSize, srcOffset)
    ensures var j, origin := Local(q, request.offset), f.FileDomain().offset;
            && (origin[i] <= q[i] < origin[i] + f.size[i] <==> dstOffset[i] <= j[i] < dstOffset[i] + srcSize[i])
            && (dstOffset[i] <= j[i] < dstOffset[i] + srcSize[i] ==>
                  Strided(srcOffset[i], ONE[i], j[i] - dstOffset[i]) == Local(q, origin)[i])
  {
    var client := f.FileDomain();
    InRequest(q, request);
    SharedCoordinate(client.offset[i], client.size[i], request.offset[i], request.size[i], dstOffset[i], srcSize[i], srcOffset[i], q[i]);
    if client.offset[i] <= q[i] {
      LocalAt(q, client.offset, i);
    }
  }

  lemma SameCell<T>(f: File<T>, dstOffset: Dims, srcOffset: Dims, j: Dims, q: Dims)
    requires GridFile(f) && forall i | 0 <= i < |f.data.extent| ::
               dstOffset[i] <= j[i] && Strided(srcOffset[i], ONE[i], j[i] - dstOffset[i]) == Local(q, f.FileDomain().offset)[i]
    ensures Lin(SourceCell(j, dstOffset, srcOffset, ONE, |f.data.extent|), DataSize(f.data), |f.data.extent|) == CellIndex(f, q)
  {}

  lemma LocalAt(q: Dims, origin: Dims, i: nat)
    requires i < AXES && q[i] >= origin[i]
    ensures Local(q, origin)[i] == q[i] - origin[i]
  {}

  lemma InRequest(q: Dims, request: Domain)
    requires request.Contains(q)
    ensures Below(Local(q, request.offset), request.size, AXES)
    ensures forall i | 0 <= i < AXES ::
              && request.offset[i] <= q[i] < request.offset[i] + request.size[i]
              && Local(q, request.offset)[i] == q[i] - request.offset[i]
  {}

  lemma TargetsOnAxes<T>(f: File<T>, request: Domain, q: Dims)
    requires GridFile(f) && request.Contains(q)
    ensures 1 <= |f.data.extent| <= AXES && f.FileDomain().size == f.size
    ensures Targets(f, request, q) <==>
              && (forall i | 0 <= i < |f.data.extent| :: f.FileDomain().offset[i] <= q[i] < f.FileDomain().offset[i] + f.size[i])
              && (forall i | |f.data.extent| <= i < AXES :: q[i] == request.offset[i])
  {}

  lemma MovedAt<T>(before: seq<T>, after: seq<T>, size: Dims, nd: nat, off: Dims, count: Dims,
                   src: seq<T>, srcSize: Dims, srcOff: Dims, stride: Dims, p: Dims)
    requires 1 <= nd <= AXES && Moved(before, after, size, nd, off, count, src, srcSize, srcOff, stride) && Below(p, size, nd)
    ensures MovedCell(before, after, size, nd, off, count, src, srcSize, srcOff, stride, p)
  {}

  /** What moving the intersection means for one cell of the request. */
  lemma MovedShows<T>(before: seq<T>, after: seq<T>, f: File<T>, request: Domain, dstOffset: Dims, srcSize: Dims, srcOffset: Dims, q: Dims)
    requires GridFile(f) && request.Contains(q) && |before| == Prod(Phys(request.size, AXES))
    requires Intersected(f.FileDomain(), request, |f.data.extent|, dstOffset, srcSize, srcOffset)
    requires Moved(before, after, request.size, |f.data.extent|, dstOffset, srcSize,
                   f.data.cells, DataSize(f.data), srcOffset, ONE)
    ensures BufferIndex(q, request) < |before| == |after|
    ensures Targets(f, request, q) ==> Shows(after, request, f, q)
    ensures !Targets(f, request, q) ==> after[BufferIndex(q, request)] == before[BufferIndex(q, request)]
  {
    var nd := |f.data.extent|;
    var j := Local(q, request.offset);
    SharedCell(f, request, dstOffset, srcSize, srcOffset, q);
    FlatIndex(j, request.size, nd);
    hide Lin, SourceCell, Targets, GridFile, Intersected, Prod, Phys;
    MovedAt(before, after, request.size, nd, dstOffset, srcSize, f.data.cells, DataSize(f.data), srcOffset, ONE, j);
  }

  /** Moving the intersection is loading the file. */
  lemma MovedLoads<T>(before: seq<T>, after: seq<T>, f: File<T>, request: Domain, dstOffset: Dims, srcSize: Dims, srcOffset: Dims)
    requires GridFile(f) && |before| == Prod(Phys(request.size, AXES))
    requires Intersected(f.FileDomain(), request, |f.data.extent|, dstOffset, srcSize, srcOffset)
    requires Moved(before, after, request.size, |f.data.extent|, dstOffset, srcSize,
                   f.data.cells, DataSize(f.data), srcOffset, ONE)
    ensures after == LoadFile(before, request, f)
  {
    hide GridFile, Intersected, Moved, Prod, Phys, CellIndex, BufferIndex, Targets;
    forall k | 0 <= k < |before| ensures k < |after| && after[k] == LoadFile(before, request, f)[k] {
      var q := CellOf(k, request);
      CellOfIndex(k, request);
      MovedShows(before, after, f, request, dstOffset, srcSize, srcOffset, q);
    }
    MovedLength(before, after, f, request, dstOffset, srcSize, srcOffset);
  }

  lemma MovedLength<T>(before: seq<T>, after: seq<T>, f: File<T>, request: Domain, dstOffset: Dims, srcSize: Dims, srcOffset: Dims)
    requires GridFile(f)
    requires Moved(before, after, request.size, |f.data.extent|, dstOffset, srcSize,
                   f.data.cells, DataSize(f.data), srcOffset, ONE)
    ensures |after| == |before|
  {}

  // ---- Loading one file ---------------------------------------------------------------------------

  /** The container holds one buffer, for the whole request. */
  ghost predicate RequestBuffer<T>(c: Container<T>, request: Domain)
    reads c
  {
    && |c.subdomains| == 1
    && c.subdomains[0].domain == request && c.subdomains[0].elements == request.size
    && c.subdomains[0].data.Length == Prod(Phys(request.size, AXES))
  }

  lemma IntersectionFits<T>(f: File<T>, request: Domain, dstOffset: Dims, srcSize: Dims, srcOffset: Dims)
    requires GridFile(f) && request.Positive()
    requires Intersected(f.FileDomain(), request, |f.data.extent|, dstOffset, srcSize, srcOffset)
    requires forall i | |f.data.extent| <= i < AXES :: srcSize[i] == 1
    ensures ReadAccepted(request.size, dstOffset, srcSize, srcOffset, DataSize(f.data), |f.data.extent|)
    ensures BufferSize(request.size, srcSize) == request.size && ScalarSize(srcSize) > 0
    ensures Prod(Phys(request.size, |f.data.extent|)) <= ScalarSize(request.size)
  {
    var nd := |f.data.extent|;
    assert forall i | 0 <= i < AXES :: request.size[i] > 0;
    ProductPositive(request.size[0], request.size[1], request.size[2]);
    forall i | 0 <= i < nd
      ensures srcSize[i] > 0
      ensures AxisFits(dstOffset[i], ONE[i], srcSize[i], request.size[i])
      ensures AxisFits(srcOffset[i], ONE[i], srcSize[i], DataSize(f.data)[i])
    {
      var d := f.FileDomain();
      assert AxisShared(d.offset[i], d.size[i], request.offset[i], request.size[i], dstOffset[i], srcSize[i], srcOffset[i]);
    }
    ProductPositive(srcSize[0], srcSize[1], srcSize[2]);
    PhysProducts(request.size);
    AtLeast(request.size[0], request.size[1], 1);
    AtLeast(request.size[0] * request.size[1], request.size[2], 1);
  }

  /** DomainCollector::readGridInternal: the first file allocates the buffer for the request, each is loaded into it. */
  method ReadGridInternal<T>(c: Container<T>, f: File<T>, request: Domain, fill: T)
    requires c.Valid() && request.Positive() && GridFile(f)
    requires TestIntersection(request, f.FileDomain())
    requires c.subdomains == [] || RequestBuffer(c, request)
    modifies c, c.Buffers()
    ensures c.Valid() && RequestBuffer(c, request)
    ensures old(c.subdomains) == [] ==> fresh(c.Buffers()) && c.subdomains[0].data[..] == LoadFile(Blank(request, fill), request, f)
    ensures old(c.subdomains) != [] ==>
              && c.subdomains == old(c.subdomains)
              && c.subdomains[0].data[..] == LoadFile(old(c.subdomains[0].data[..]), request, f)
  {
    hide LoadFile, Blank, GridFile, TestIntersection;
    PhysProducts(request.size);
    if |c.subdomains| == 0 {
      var data := new T[ScalarSize(request.size)](_ => fill);
      BlankIs(data[..], request, fill);
      c.Add(DomainData(request, request.size, data));
    }
    ReadIntersection(c.subdomains[0].data, f, request, fill);
  }

  lemma BlankIs<T>(buf: seq<T>, request: Domain, fill: T)
    requires |buf| == Prod(Phys(request.size, AXES)) && forall k | 0 <= k < |buf| :: buf[k] == fill
    ensures buf == Blank(request, fill)
  {}

  /** The second part of readGridInternal: the intersection is read into the buffer. */
  method ReadIntersection<T>(buffer: array<T>, f: File<T>, request: Domain, fill: T)
    requires request.Positive() && GridFile(f) && buffer.Length == Prod(Phys(request.size, AXES))
    requires TestIntersection(request, f.FileDomain())
    modifies buffer
    ensures buffer[..] == LoadFile(old(buffer[..]), request, f)
  {
    PhysProducts(request.size);
    var dataset := new DCDataSet<T>(fill);
    var _ := dataset.Open(Some(f.data));
    var dstOffset, srcSize, srcOffset := Intersect(f.FileDomain(), request, dataset.ndims);
    IntersectionFits(f, request, dstOffset, srcSize, srcOffset);
    hide LoadFile, TestIntersection, Prod, Phys, Moved, ReadAccepted, BufferSize;
    var ok, _, _ := dataset.Read(request.size, dstOffset, srcSize, srcOffset, buffer);
    MovedLoads(old(buffer[..]), buffer[..], f, request, dstOffset, srcSize, srcOffset);
  }

  lemma WholeCopyAt<T>(before: seq<T>, after: seq<T>, size: Dims, nd: nat, cells: seq<T>, p: Dims)
    requires 1 <= nd <= AXES && |before| == |after| == |cells| == Prod(Phys(size, nd))
    requires Below(p, size, nd) && forall i | nd <= i < AXES :: p[i] == 0
    requires MovedCell(before, after, size, nd, ZERO, size, cells, size, ZERO, ONE, p)
    ensures Lin(p, size, nd) < |cells| && after[Lin(p, size, nd)] == cells[Lin(p, size, nd)]
  {}

  /** Moving a whole dataset to a buffer of its size copies it. */
  lemma WholeCopy<T>(before: seq<T>, after: seq<T>, size: Dims, nd: nat, cells: seq<T>)
    requires 1 <= nd <= AXES && |before| == |cells| == Prod(Phys(size, nd))
    requires Moved(before, after, size, nd, ZERO, size, cells, size, ZERO, ONE)
    ensures after == cells
  {
    hide Lin, MovedCell, Prod, Phys, DataSet.Below;
    forall k | 0 <= k < |cells| ensures after[k] == cells[k] {
      var p := PosAt(k, size, nd);
      PosAtIndex(k, size, nd);
      WholeCopyAt(before, after, size, nd, cells, p);
    }
  }

  /** What a subdomain for particle data shows: the file's domain and its whole dataset. */
  ghost predicate PolyLoaded<T>(s: DomainData<T>, f: File<T>)
    requires f.data.Ok()
    reads s.data
  {
    && (forall i | 0 <= i < AXES :: s.domain.offset[i] == f.globalOffset[i] + f.offset[i] && s.domain.size[i] == f.size[i])
    && s.elements == DataSize(f.data) && s.data.Length == ScalarSize(s.elements)
    && (f.data.Simple? ==> s.data[..] == f.data.cells)
  }

  /**
   * DomainCollector::readPolyInternal: the whole dataset becomes a subdomain of its own. A dataset
   * without cells reports size (1,1,1), so it is added with one element that is never filled.
   */
  method ReadPolyInternal<T>(c: Container<T>, f: File<T>, fill: T)
    requires c.Valid() && f.data.Ok() && f.FileDomain().Positive()
    modifies c
    ensures c.Valid()
    ensures |c.subdomains| == |old(c.subdomains)| + 1 && c.subdomains[..|old(c.subdomains)|] == old(c.subdomains)
    ensures fresh(c.subdomains[|old(c.subdomains)|].data) && PolyLoaded(c.subdomains[|old(c.subdomains)|], f)
  {
    var dataSize := DataSize(f.data);
    var data := new T[ScalarSize(dataSize)](_ => fill);
    var entry := DomainData(f.FileDomain(), dataSize, data);
    ghost var before := data[..];
    var dataset := new DCDataSet<T>(fill);
    var _ := dataset.Open(Some(f.data));
    if f.data.Simple? {
      WholeFits(f.data);
    }
    var ok, _, _ := dataset.Read(dataSize, ZERO, dataset.logicalSize, ZERO, data);
    if f.data.Simple? {
      assert ok;
      WholeCopy(before, data[..], dataSize, |f.data.extent|, f.data.cells);
    }
    c.Add(entry);
  }

  lemma WholeFits<T>(s: Stored<T>)
    requires s.Ok() && s.Simple?
    ensures ScalarSize(DataSize(s)) == Prod(Phys(DataSize(s), |s.extent|)) == |s.cells| > 0
    ensures ReadAccepted(DataSize(s), ZERO, DataSize(s), ZERO, DataSize(s), |s.extent|)
  {
    var size, nd := DataSize(s), |s.extent|;
    PhysProducts(size);
    assert forall i | nd <= i < AXES :: size[i] == 1;
    forall i | 0 <= i < nd ensures AxisFits(0, ONE[i], size[i], size[i]) {}
  }
}
