/** ParallelDomainCollector: reading a domain from the one file that all processes wrote. */
module ParallelDomainCollector {
  import opened Geometry
  import opened Options
  import opened Hdf5
  import opened DataSet
  import opened FileGrid
  import opened DataContainer
  import opened FileRead
  import opened FileScan

  /** What the container holds after reading: nothing, the request's buffer with the file loaded into it, or the whole dataset. */
  ghost predicate DomainRead<T>(c: Container<T>, f: File<T>, request: Domain, fill: T)
    requires request.Positive() && f.FileDomain().Positive() && f.data.Ok()
    reads c, c.Buffers()
  {
    if !TestIntersection(request, f.FileDomain()) then c.subdomains == []
    else if f.dataClass == GridType then
      GridFile(f) && RequestBuffer(c, request) && c.subdomains[0].data[..] == LoadFile(Blank(request, fill), request, f)
    else
      |c.subdomains| == 1 && c.subdomains[0] in c.subdomains && PolyLoaded(c.subdomains[0], f)
  }

  /** The file's domain meets the request exactly when they share a cell by the file's attributes. */
  lemma MeetsExactly<T>(f: File<T>, request: Domain)
    requires request.Positive() && f.FileDomain().Positive()
    ensures TestIntersection(request, f.FileDomain()) <==> exists q: Dims :: request.Contains(q) && HoldsCell(f, q)
  {
    IntersectionMeansSharedCell(request, f.FileDomain());
    forall q: Dims ensures f.FileDomain().Contains(q) <==> HoldsCell(f, q) {
      DomainHolds(f, q);
    }
  }

  /**
   * readDomain with readDomainDataForRank: one file holds the whole dataset, so there is neither search nor
   * walk; what the file shares with the request is read into a buffer for the request.
   */
  method ReadDomain<T>(f: File<T>, request: Domain, fill: T)
    returns (error: Option<ReadError>, c: Container<T>, cls: DataClass)
    requires f.FileDomain().Positive() && request.Positive() && f.data.Ok() && f.dataClass != UndefinedType
    requires f.dataClass == GridType ==> f.data.Simple?
    ensures fresh(c) && fresh(c.Buffers())
    ensures error == if f.dataClass == GridType && DataSize(f.data) != f.size then Some(SizeMismatch) else None
    ensures error.None? ==> c.Valid() && cls == f.dataClass && DomainRead(c, f, request, fill)
    ensures error.None? ==> (c.subdomains != [] <==> exists q: Dims :: request.Contains(q) && HoldsCell(f, q))
  {
    error, cls := None, UndefinedType;
    c := new Container<T>();
    if f.dataClass == GridType && DataSize(f.data) != f.size {
      error := Some(SizeMismatch);
      return;
    }
    cls := f.dataClass;
    MeetsExactly(f, request);
    if TestIntersection(request, f.FileDomain()) {
      if cls == PolyType {
        ReadPolyInternal(c, f, fill);
      } else {
        ReadGridInternal(c, f, request, fill);
      }
    }
  }

  /**
   * If the file holds an array, the buffer shows that array's cells wherever the request meets the file; on axes that
   * the data does not have, at the request's first coordinate.
   */
  lemma ReadShowsTheArray<T>(c: Container<T>, f: File<T>, request: Domain, fill: T, values: Dims -> T, q: Dims)
    requires f.FileDomain().Positive() && request.Positive() && f.data.Ok() && f.dataClass == GridType && Piece(f, values)
    requires DomainRead(c, f, request, fill) && request.Contains(q) && HoldsCell(f, q)
    requires forall i | DataDims(f.data) <= i < AXES :: q[i] == request.offset[i]
    ensures RequestBuffer(c, request) && BufferIndex(q, request) < c.subdomains[0].data.Length
    ensures c.subdomains[0].data[BufferIndex(q, request)] == values(q)
  {
    DomainHolds(f, q);
    IntersectionMeansSharedCell(request, f.FileDomain());
    assert TestIntersection(request, f.FileDomain());
    PieceAt(f, values, q);
    LoadFileAt(Blank(request, fill), request, f, q);
    assert Shows(c.subdomains[0].data[..], request, f, q);
  }

  /**
   * The buffer shows every cell that request and file share, for all contents of the file, exactly when the
   * file lies where the request begins on the axes that its data does not have.
   */
  lemma SharedCellsShownExactly<T>(f: File<T>, request: Domain, fill: T, other: T)
    requires GridFile(f) && request.Positive() && TestIntersection(request, f.FileDomain()) && other != fill
    ensures (forall cells: seq<T> | |cells| == |f.data.cells| ::
               GridLoaded(LoadFile(Blank(request, fill), request, WithCells(f, cells)), request, WithCells(f, cells)))
       <==> FlatAt(f, request)
  {
    if FlatAt(f, request) {
      forall cells: seq<T> | |cells| == |f.data.cells|
        ensures GridLoaded(LoadFile(Blank(request, fill), request, WithCells(f, cells)), request, WithCells(f, cells))
      {
        FlatLoads(Blank(request, fill), request, WithCells(f, cells));
      }
    } else {
      var q := MissedCell(f, request);
      var cells := MarkedCells(f, q, fill, other);
      MarkIsAt(f, q, fill, other);
      LoadFileAt(Blank(request, fill), request, WithCells(f, cells), q);
      assert !Shows(LoadFile(Blank(request, fill), request, WithCells(f, cells)), request, WithCells(f, cells), q);
    }
  }
}
