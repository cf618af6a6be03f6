/** DCDataSet: datasets whose users count x-fastest, stored by HDF5 with the axes reversed. */
module DataSet {
  import opened Arithmetic
  import opened Geometry
  import opened Hdf5
  import opened Options

  // ---- Axis order -------------------------------------------------------------------------------

  /** Dimensions::swapDims. */
  function Swap(d: Dims, nd: nat): Dims {
    if nd == 2 then [d[1], d[0], d[2]] else if nd == 3 then [d[2], d[1], d[0]] else d
  }

  /** The first nd entries of the swapped dimensions, which is what HDF5 gets to see. */
  function Phys(d: Dims, nd: nat): (s: seq<nat>)
    requires 1 <= nd <= AXES
    ensures |s| == nd && forall i | 0 <= i < nd :: s[i] == d[nd - 1 - i]
  {
    Swap(d, nd)[..nd]
  }

  /** The logical size of a stored extent; the axes that HDF5 does not know have size 1. */
  function LogicalOf(extent: seq<nat>): (d: Dims)
    requires |extent| <= AXES
    ensures |extent| > 0 ==> Phys(d, |extent|) == extent
    ensures forall i | |extent| <= i < AXES :: d[i] == 1
  {
    var d := Swap([if |extent| > 0 then extent[0] else 1, if |extent| > 1 then extent[1] else 1, if |extent| > 2 then extent[2] else 1],
                  |extent|);
    assert |extent| > 0 ==> Phys(d, |extent|) == extent;
    d
  }

  /** Index of cell p of a user's array of size d: x is the fastest axis. */
  function Lin(p: Dims, d: Dims, nd: nat): nat {
    if nd <= 1 then p[0]
    else if nd == 2 then p[0] + d[0] * p[1]
    else p[0] + d[0] * (p[1] + d[1] * p[2])
  }

  /** Swapping the axes turns HDF5's last-axis-fastest order into the user's x-fastest order. */
  lemma XFastest(p: Dims, d: Dims, nd: nat)
    requires 1 <= nd <= AXES
    ensures Flat(Phys(p, nd), Phys(d, nd)) == Lin(p, d, nd)
  {
    var c, e := Phys(p, nd), Phys(d, nd);
    FlatOfOne(c[..1], e[..1]);
    if nd == 1 {
      assert c[..1] == c && e[..1] == e;
    } else {
      assert c[..2][..1] == c[..1] && e[..2][..1] == e[..1];
      assert Flat(c[..2], e[..2]) == c[0] * e[1] + c[1];
      if nd == 2 {
        assert c[..2] == c && e[..2] == e;
      } else {
        assert Flat(c, e) == (c[0] * e[1] + c[1]) * e[2] + c[2];
      }
    }
  }

  lemma FlatOfOne(c: seq<nat>, d: seq<nat>)
    requires |c| == |d| == 1
    ensures Flat(c, d) == c[0]
  {}

  predicate Below(p: Dims, d: Dims, nd: nat)
    requires nd <= AXES
  {
    forall i | 0 <= i < nd :: p[i] < d[i]
  }

  predicate InBoxN(p: Dims, off: Dims, count: Dims, nd: nat)
    requires nd <= AXES
  {
    forall i | 0 <= i < nd :: off[i] <= p[i] < off[i] + count[i]
  }

  // ---- Moving a selection -----------------------------------------------------------------------

  /** A user's selection of a source buffer. */
  datatype Select = Select(size: Dims, count: Dims, offset: Dims, stride: Dims)

  /** The selected cells lie inside a buffer of the given size. */
  predicate ValidSource(size: Dims, count: Dims, offset: Dims, stride: Dims, nd: nat)
    requires nd <= AXES
  {
    forall i | 0 <= i < nd :: AxisFits(offset[i], stride[i], count[i], size[i])
  }

  /** The source cell that belongs to cell p of the target box. */
  function SourceCell(p: Dims, off: Dims, srcOff: Dims, stride: Dims, nd: nat): Dims
    requires nd <= AXES && forall i | 0 <= i < nd :: off[i] <= p[i]
  {
    [if nd > 0 then Strided(srcOff[0], stride[0], p[0] - off[0]) else 0,
     if nd > 1 then Strided(srcOff[1], stride[1], p[1] - off[1]) else 0,
     if nd > 2 then Strided(srcOff[2], stride[2], p[2] - off[2]) else 0]
  }

  /** What became of cell p: taken from the source if it is in the box, untouched otherwise. */
  ghost predicate MovedCell<T>(before: seq<T>, after: seq<T>, size: Dims, nd: nat, off: Dims, count: Dims,
                               src: seq<T>, srcSize: Dims, srcOff: Dims, stride: Dims, p: Dims)
    requires 1 <= nd <= AXES && |after| == |before|
  {
    && Lin(p, size, nd) < |after|
    && (InBoxN(p, off, count, nd) ==>
          && Lin(SourceCell(p, off, srcOff, stride, nd), srcSize, nd) < |src|
          && after[Lin(p, size, nd)] == src[Lin(SourceCell(p, off, srcOff, stride, nd), srcSize, nd)])
    && (!InBoxN(p, off, count, nd) ==> after[Lin(p, size, nd)] == before[Lin(p, size, nd)])
  }

  /**
   * Between `before` and `after` (of logical size `size`) exactly the box at `off` was overwritten,
   * with the strided selection of `src`; all arrays are read x-fastest.
   */
  ghost predicate Moved<T>(before: seq<T>, after: seq<T>, size: Dims, nd: nat, off: Dims, count: Dims,
                           src: seq<T>, srcSize: Dims, srcOff: Dims, stride: Dims)
    requires 1 <= nd <= AXES
  {
    && |after| == |before| && Prod(Phys(size, nd)) <= |before|
    && (forall p: Dims {:trigger Lin(p, size, nd)} | Below(p, size, nd) ::
          MovedCell(before, after, size, nd, off, count, src, srcSize, srcOff, stride, p))
    && (forall k | Prod(Phys(size, nd)) <= k < |before| :: after[k] == before[k])
  }

  lemma PhysBox(p: Dims, off: Dims, count: Dims, nd: nat)
    requires 1 <= nd <= AXES
    ensures InBox(Phys(p, nd), Phys(off, nd), Phys(count, nd)) <==> InBoxN(p, off, count, nd)
  {}

  lemma PhysInside(p: Dims, d: Dims, nd: nat)
    requires 1 <= nd <= AXES && Below(p, d, nd)
    ensures Inside(Phys(p, nd), Phys(d, nd))
  {}

  lemma LinBelow(p: Dims, d: Dims, nd: nat)
    requires 1 <= nd <= AXES && Below(p, d, nd)
    ensures Lin(p, d, nd) < Prod(Phys(d, nd))
  {
    PhysInside(p, d, nd);
    FlatBelow(Phys(p, nd), Phys(d, nd));
    XFastest(p, d, nd);
  }

  /** The position of index k in an array. */
  function PosAt(k: nat, size: Dims, nd: nat): Dims
    requires 1 <= nd <= AXES && k < Prod(Phys(size, nd))
  {
    var c := Coord(k, Phys(size, nd));
    [c[nd - 1], if nd > 1 then c[nd - 2] else 0, if nd > 2 then c[nd - 3] else 0]
  }

  lemma PosAtIndex(k: nat, size: Dims, nd: nat)
    requires 1 <= nd <= AXES && k < Prod(Phys(size, nd))
    ensures var p := PosAt(k, size, nd);
            Lin(p, size, nd) == k && Below(p, size, nd) && forall i | nd <= i < AXES :: p[i] == 0
  {
    var c := Coord(k, Phys(size, nd));
    CoordInside(k, Phys(size, nd));
    var p := PosAt(k, size, nd);
    assert Phys(p, nd) == c;
    XFastest(p, size, nd);
    hide Lin, Flat, Coord, PosAt;
    forall i | 0 <= i < nd ensures p[i] < size[i] {
      assert c[nd - 1 - i] < Phys(size, nd)[nd - 1 - i];
    }
  }

  lemma IndexAtPos(p: Dims, size: Dims)
    requires Below(p, size, AXES)
    ensures Lin(p, size, AXES) < Prod(Phys(size, AXES)) && PosAt(Lin(p, size, AXES), size, AXES) == p
  {
    LinBelow(p, size, AXES);
    PhysInside(p, size, AXES);
    XFastest(p, size, AXES);
    CoordFlat(Phys(p, AXES), Phys(size, AXES));
    hide Lin, Flat, Coord;
    assert PosAt(Lin(p, size, AXES), size, AXES) == [p[0], p[1], p[2]] == p;
  }

  lemma PhysPartner(p: Dims, off: Dims, srcOff: Dims, stride: Dims, nd: nat)
    requires 1 <= nd <= AXES && forall i | 0 <= i < nd :: off[i] <= p[i]
    ensures forall i | 0 <= i < nd :: Phys(off, nd)[i] <= Phys(p, nd)[i]
    ensures Partner(Phys(p, nd), Phys(off, nd), Phys(srcOff, nd), Phys(stride, nd))
         == Phys(SourceCell(p, off, srcOff, stride, nd), nd)
  {}

  lemma PhysSlab(size: Dims, count: Dims, offset: Dims, stride: Dims, nd: nat)
    requires 1 <= nd <= AXES
    ensures ValidSlab(Phys(offset, nd), Phys(stride, nd), Phys(count, nd), Phys(size, nd))
       <==> ValidSource(size, count, offset, stride, nd)
  {}

  /** The HDF5 transfer of swapped selections moves the user's selection. */
  lemma TransferMoves<T>(dst: seq<T>, size: Dims, nd: nat, off: Dims, count: Dims,
                         src: seq<T>, srcSize: Dims, srcOff: Dims, stride: Dims)
    requires 1 <= nd <= AXES
    requires Transferable(dst, Phys(size, nd), Phys(off, nd), Phys(count, nd),
                          src, Phys(srcSize, nd), Phys(srcOff, nd), Phys(stride, nd))
    ensures Moved(dst, Transfer(dst, Phys(size, nd), Phys(off, nd), Phys(count, nd),
                                src, Phys(srcSize, nd), Phys(srcOff, nd), Phys(stride, nd)),
                  size, nd, off, count, src, srcSize, srcOff, stride)
  {
    var after := Transfer(dst, Phys(size, nd), Phys(off, nd), Phys(count, nd),
                          src, Phys(srcSize, nd), Phys(srcOff, nd), Phys(stride, nd));
    forall p: Dims | Below(p, size, nd)
      ensures MovedCell(dst, after, size, nd, off, count, src, srcSize, srcOff, stride, p)
    {
      PhysInside(p, size, nd);
      XFastest(p, size, nd);
      PhysBox(p, off, count, nd);
      TransferAt(dst, Phys(size, nd), Phys(off, nd), Phys(count, nd),
                 src, Phys(srcSize, nd), Phys(srcOff, nd), Phys(stride, nd), Phys(p, nd));
      if InBoxN(p, off, count, nd) {
        PhysPartner(p, off, srcOff, stride, nd);
        XFastest(SourceCell(p, off, srcOff, stride, nd), srcSize, nd);
      }
    }
  }

  // ---- The dataset object -----------------------------------------------------------------------

  /** A dataset in a file; one of zero size has no extent and no cells. */
  datatype Stored<T> = Empty | Simple(extent: seq<nat>, cells: seq<T>, extensible: bool) {
    predicate Ok() {
      Simple? ==> 1 <= |extent| <= AXES && Prod(extent) > 0 && |cells| == Prod(extent)
    }
  }

  /** What the source calls the size of a dataset; without cells it is (1,1,1). */
  function DataSize<T>(s: Stored<T>): Dims
    requires s.Ok()
  {
    if s.Simple? then LogicalOf(s.extent) else ONE
  }

  /** Valid selection of a source buffer and valid place in a dataset of the given size. */
  predicate ValidWrite(select: Select, dstOffset: Dims, size: Dims, nd: nat)
    requires nd <= AXES
  {
    && ValidSource(select.size, select.count, select.offset, select.stride, nd)
    && ValidSource(size, select.count, dstOffset, ONE, nd)
  }

  /** DCDataSet::write leaves the source hyperslab out under this condition. */
  predicate SkipsSource(select: Select) {
    ScalarSize(select.offset) == 0 && select.count == select.size && ScalarSize(select.stride) == 1
  }

  /** ... and the target hyperslab under this one. */
  predicate SkipsTarget(select: Select, dstOffset: Dims, size: Dims) {
    ScalarSize(dstOffset) == 0 && select.count == size
  }

  lemma ProductOne(a: nat, b: nat, c: nat)
    requires a * b * c == 1
    ensures a == 1 && b == 1 && c == 1
  {}

  lemma ProductPositive(a: nat, b: nat, c: nat)
    ensures a * b * c > 0 <==> a > 0 && b > 0 && c > 0
  {}

  /**
   * The shortcuts test products of three coordinates, so an offset such as (5,0,0) passes for zero.
   * With a non-empty selection of a buffer that fits, leaving the hyperslab out is nevertheless the
   * same as selecting it, because the offset is then zero on every axis; for a selection that does
   * not fit, the shortcut replaces an error by the transfer from offset zero.
   */
  lemma ShortcutIsWholeBuffer(select: Select, nd: nat)
    requires 1 <= nd <= AXES && SkipsSource(select) && ScalarSize(select.count) > 0
    ensures select.stride == ONE
    ensures ValidSource(select.size, select.count, ZERO, ONE, nd)
    ensures ValidSource(select.size, select.count, select.offset, select.stride, nd)
       <==> forall i | 0 <= i < nd :: select.offset[i] == 0
  {
    ProductOne(select.stride[0], select.stride[1], select.stride[2]);
    ProductPositive(select.count[0], select.count[1], select.count[2]);
    assert select.stride == ONE;
    forall i | 0 <= i < nd
      ensures AxisFits(0, 1, select.count[i], select.size[i])
      ensures AxisFits(select.offset[i], select.stride[i], select.count[i], select.size[i]) <==> select.offset[i] == 0
    {
    }
  }

  class DCDataSet<T> {
    const fill: T
    var stored: Stored<T>
    var sel: Selection
    var logicalSize: Dims
    var ndims: nat
    var isOpen: bool

    ghost predicate Valid()
      reads this
    {
      isOpen ==>
        && stored.Ok() && ndims <= AXES
        && (stored.Empty? ==> ndims == 0 || ScalarSize(logicalSize) == 0)
        && (stored.Simple? ==> ndims >= 1 && stored.extent == Phys(logicalSize, ndims) && ScalarSize(logicalSize) > 0)
    }

    constructor (fill: T)
      ensures Valid() && !isOpen && this.fill == fill
    {
      this.fill := fill;
      stored, sel, logicalSize, ndims, isOpen := Empty, All, ONE, 0, false;
    }

    /** Opens an existing dataset; the axes that HDF5 does not know have size 1. */
    method Open(existing: Option<Stored<T>>) returns (found: bool)
      requires existing.Some? ==> existing.value.Ok()
      modifies this
      ensures found == existing.Some?
      ensures !found ==> unchanged(this)
      ensures found ==> Valid() && isOpen && stored == existing.value && sel == All
      ensures found && stored.Empty? ==> ndims == 0 && logicalSize == ONE
      ensures found && stored.Simple? ==> ndims == |stored.extent| && logicalSize == LogicalOf(stored.extent)
    {
      if existing.None? {
        return false;
      }
      stored := existing.value;
      sel := All;
      ndims := if stored.Simple? then |stored.extent| else 0;
      var physical := ONE;
      for i := 0 to ndims
        invariant forall j | 0 <= j < i :: physical[j] == stored.extent[j]
        invariant forall j | i <= j < AXES :: physical[j] == 1
        invariant stored == existing.value && sel == All && ndims == (if stored.Simple? then |stored.extent| else 0)
      {
        physical := physical[i := stored.extent[i]];
      }
      logicalSize := Swap(physical, ndims);
      isOpen := true;
      if stored.Simple? {
        assert physical == [stored.extent[0], if ndims > 1 then stored.extent[1] else 1, if ndims > 2 then stored.extent[2] else 1];
        ProdPositive(stored.extent);
        ProductPositive(logicalSize[0], logicalSize[1], logicalSize[2]);
      }
      return true;
    }

    /** Creates a dataset, filled with HDF5's fill value. */
    method Create(size: Dims, nd: nat, extensible: bool) returns (ok: bool)
      requires 1 <= nd <= AXES
      modifies this
      ensures ok == !old(isOpen)
      ensures !ok ==> stored == old(stored)
      ensures ok ==> Valid() && isOpen && sel == All && ndims == nd && logicalSize == size
      ensures ok ==> (stored.Empty? <==> ScalarSize(size) == 0)
      ensures ok && stored.Simple? ==> stored.extensible == extensible && forall k | 0 <= k < |stored.cells| :: stored.cells[k] == fill
    {
      if isOpen {
        return false;
      }
      ndims := nd;
      logicalSize := size;
      if ScalarSize(Swap(size, nd)) != 0 {
        var extent := Phys(size, nd);
        stored := Simple(extent, Fills(Prod(extent), fill), extensible);
      } else {
        stored := Empty;
      }
      sel := All;
      isOpen := true;
      ProductPositive(size[0], size[1], size[2]);
      ProductPositive(Swap(size, nd)[0], Swap(size, nd)[1], Swap(size, nd)[2]);
      ProdPositive(Phys(size, nd));
      return true;
    }

    /** The selections of both dataspaces, with the hyperslabs left out when they do not seem necessary. */
    method SelectForWrite(select: Select, dstOffset: Dims, hasData: bool) returns (ok: bool, mem: Selection)
      requires Valid() && isOpen && sel == All && stored.Simple?
      modifies this`sel
      ensures ok <==> WriteAccepted(select, dstOffset, hasData, logicalSize, ndims)
      ensures ok && ScalarSize(select.count) == 0 ==> sel == mem == Nothing
      ensures ok && ScalarSize(select.count) > 0 ==>
                && mem == (if SkipsSource(select) then All
                           else Slab(Phys(select.offset, ndims), Phys(select.stride, ndims), Phys(select.count, ndims)))
                && sel == (if SkipsTarget(select, dstOffset, logicalSize) then All
                           else Slab(Phys(dstOffset, ndims), Phys(ONE, ndims), Phys(select.count, ndims)))
    {
      var size, count := Swap(select.size, ndims), Swap(select.count, ndims);
      var offset, stride := Swap(select.offset, ndims), Swap(select.stride, ndims);
      var target := Swap(dstOffset, ndims);
      SwapFacts(select, dstOffset, logicalSize, ndims);
      PhysSlab(select.size, select.count, select.offset, select.stride, ndims);
      PhysSlab(logicalSize, select.count, dstOffset, ONE, ndims);
      var one: seq<nat> := seq(ndims, _ => 1);
      assert one == Phys(ONE, ndims);
      ok, mem := false, All;
      if ScalarSize(offset) != 0 || count != size || ScalarSize(stride) != 1 {
        mem := Slab(offset[..ndims], stride[..ndims], count[..ndims]);
        if !ValidSlab(offset[..ndims], stride[..ndims], count[..ndims], size[..ndims]) {
          return;
        }
      }
      if ScalarSize(count) == 0 {
        mem := Nothing;
      }
      if ScalarSize(target) != 0 || count != Swap(logicalSize, ndims) {
        sel := Slab(target[..ndims], one, count[..ndims]);
        if !ValidSlab(target[..ndims], one, count[..ndims], stored.extent) {
          return;
        }
      }
      if !hasData || ScalarSize(count) == 0 {
        sel := Nothing;
      }
      // H5Dwrite wants as many cells selected in memory as in the file
      ok := !(sel == Nothing && mem != Nothing);
    }

    /**
     * Writes the selected cells of the user's buffer to the box at dstOffset. A valid selection of
     * given data always succeeds and changes exactly that box.
     */
    method Write(select: Select, dstOffset: Dims, data: Option<seq<T>>) returns (ok: bool)
      requires Valid() && sel == All
      requires isOpen && stored.Empty? ==> ScalarSize(logicalSize) == 0
      requires isOpen && stored.Simple? && data.Some? && WriteAccepted(select, dstOffset, true, logicalSize, ndims)
               ==> |data.value| >= Prod(Phys(select.size, ndims))
      modifies this
      ensures Valid() && isOpen == old(isOpen) && ndims == old(ndims) && logicalSize == old(logicalSize)
      ensures ok <==> isOpen && (stored.Empty? || WriteAccepted(select, dstOffset, data.Some?, logicalSize, ndims))
      ensures ok && old(stored).Simple? && ScalarSize(select.count) > 0 ==>
                && stored.Simple? && stored == old(stored).(cells := stored.cells)
                && MovedSelection(old(stored).cells, stored.cells, logicalSize, ndims, select, dstOffset, data.value)
      ensures !ok || old(stored).Empty? || ScalarSize(select.count) == 0 ==> stored == old(stored)
    {
      if !isOpen {
        return false;
      }
      if ScalarSize(logicalSize) != 0 {
        ok := WriteSelected(select, dstOffset, data);
        return;
      }
      return true;
    }

    /** Writing to a dataset that has cells. */
    method WriteSelected(select: Select, dstOffset: Dims, data: Option<seq<T>>) returns (ok: bool)
      requires Valid() && isOpen && sel == All && stored.Simple?
      requires data.Some? && WriteAccepted(select, dstOffset, true, logicalSize, ndims) ==> |data.value| >= Prod(Phys(select.size, ndims))
      modifies this`sel, this`stored
      ensures Valid() && stored.Simple? && stored == old(stored).(cells := stored.cells)
      ensures ok <==> WriteAccepted(select, dstOffset, data.Some?, logicalSize, ndims)
      ensures ok && ScalarSize(select.count) > 0 ==>
                data.Some? && MovedSelection(old(stored).cells, stored.cells, logicalSize, ndims, select, dstOffset, data.value)
      ensures !ok || ScalarSize(select.count) == 0 ==> stored == old(stored)
    {
      var was, size, nd := stored, logicalSize, ndims;
      var mem;
      ok, mem := SelectForWrite(select, dstOffset, data.Some?);
      if !ok || sel == Nothing {
        return;
      }
      var now := TransferWritten(was.cells, size, nd, select, dstOffset, data.value, sel, mem);
      hide WriteAccepted, MovedSelection, SkipsSource, SkipsTarget, Prod, Phys, ScalarSize;
      stored := was.(cells := now);
    }

    /** The selections for reading: the box of the buffer is tested first, then that of the dataset if there is something to read. */
    method SelectForRead(buffer: Dims, dstOffset: Dims, srcSize: Dims, srcOffset: Dims, hasBuffer: bool) returns (ok: bool, mem: Selection)
      requires Valid() && isOpen && ndims > 0 && stored.Simple?
      modifies this`sel
      ensures ok <==> !hasBuffer || (ValidSource(buffer, srcSize, dstOffset, ONE, ndims)
                                     && (ScalarSize(srcSize) == 0 || ValidSource(logicalSize, srcSize, srcOffset, ONE, ndims)))
      ensures ok && hasBuffer ==> mem == Slab(Phys(dstOffset, ndims), Phys(ONE, ndims), Phys(srcSize, ndims))
      ensures ok && !hasBuffer ==> mem == Nothing
      ensures ok ==> sel == (if hasBuffer && ScalarSize(srcSize) > 0 then Slab(Phys(srcOffset, ndims), Phys(ONE, ndims), Phys(srcSize, ndims))
                             else Nothing)
    {
      var one: seq<nat> := seq(ndims, _ => 1);
      assert one == Phys(ONE, ndims);
      PhysSlab(buffer, srcSize, dstOffset, ONE, ndims);
      PhysSlab(logicalSize, srcSize, srcOffset, ONE, ndims);
      SwapScalar(srcSize, ndims);
      hide ValidSlab, ValidSource;
      ok, mem := false, Nothing;
      if hasBuffer {
        mem := Slab(Phys(dstOffset, ndims), one, Phys(srcSize, ndims));
        if !ValidSlab(Phys(dstOffset, ndims), one, Phys(srcSize, ndims), Phys(buffer, ndims)) {
          return;
        }
      }
      if !hasBuffer || ScalarSize(Swap(srcSize, ndims)) == 0 {
        sel := Nothing;
      } else {
        sel := Slab(Phys(srcOffset, ndims), one, Phys(srcSize, ndims));
        if !ValidSlab(Phys(srcOffset, ndims), one, Phys(srcSize, ndims), stored.extent) {
          return;
        }
      }
      ok := true;
    }

    /**
     * Reads a box of the dataset into the box at dstOffset of the user's buffer. Both boxes valid:
     * exactly the target box changes. Without a buffer only the size is reported.
     */
    method Read(dstBuffer: Dims, dstOffset: Dims, srcSize: Dims, srcOffset: Dims, dst: array?<T>)
      returns (ok: bool, sizeRead: Dims, srcNDims: nat)
      requires Valid()
      requires isOpen && dst != null && ndims > 0 ==> dst.Length >= Prod(Phys(BufferSize(dstBuffer, srcSize), ndims))
      requires isOpen && stored.Empty? ==> ndims == 0
      modifies this`sel, if dst == null then {} else {dst}
      ensures Valid()
      ensures ok <==> isOpen && (ndims == 0 || dst == null || ReadAccepted(dstBuffer, dstOffset, srcSize, srcOffset, logicalSize, ndims))
      ensures ok ==> sizeRead == srcSize && srcNDims == ndims
      ensures dst != null && (!ok || ndims == 0 || ScalarSize(srcSize) == 0) ==> dst[..] == old(dst[..])
      ensures ok && dst != null && ndims > 0 && ScalarSize(srcSize) > 0 ==>
                Moved(old(dst[..]), dst[..], BufferSize(dstBuffer, srcSize), ndims, dstOffset, srcSize,
                      stored.cells, logicalSize, srcOffset, ONE)
    {
      ok, sizeRead, srcNDims := false, srcSize, ndims;
      if !isOpen {
        return;
      }
      var buffer := if ScalarSize(dstBuffer) == 0 then srcSize else dstBuffer;
      if ndims > 0 {
        var selected, mem := SelectForRead(buffer, dstOffset, srcSize, srcOffset, dst != null);
        if !selected {
          return;
        }
        hide ValidSource, Moved, Phys, Prod;
        if dst != null && sel != Nothing {
          var was := dst[..];
          BoxesTransfer(was, buffer, ndims, dstOffset, srcSize, stored.cells, logicalSize, srcOffset, sel, mem);
          var now := TransferBetween(was, Phys(buffer, ndims), mem, stored.cells, stored.extent, sel);
          forall k | 0 <= k < dst.Length {
            dst[k] := now[k];
          }
          assert dst[..] == now;
        }
      }
      ok := true;
    }

    /**
     * Appends `count` cells, taken from the user's buffer at `offset` with the given stride, to a
     * one-dimensional extensible dataset. When the transfer is refused the dataset has already grown
     * and ends in fill values.
     */
    method Append(count: nat, offset: nat, stride: nat, data: Option<seq<T>>) returns (ok: bool)
      requires Valid() && (stored.Simple? && stored.extensible ==> ndims == 1)
      requires data.Some? && count > 0 && stride > 0 ==> Strided(offset, stride, count - 1) < |data.value|
      modifies this
      ensures isOpen == old(isOpen)
      ensures ok <==> isOpen && stored.Simple? && stored.extensible && stride > 0 && (data.Some? || count == 0)
      ensures ok ==> Valid() && isOpen && ndims == old(ndims)
      ensures logicalSize == if old(isOpen) then old(logicalSize)[0 := old(logicalSize[0]) + count] else old(logicalSize)
      ensures old(isOpen) ==> stored.Ok()
      ensures stored == (if old(isOpen) && old(stored).Simple? && old(stored).extensible
                         then Grown(old(stored), if ok && count > 0 then Slice(data.value, count, offset, stride) else Fills(count, fill))
                         else old(stored))
    {
      if !isOpen {
        return false;
      }
      ghost var before := stored;
      hide Grown, Slice, Fills, Strided, Phys, Prod, ScalarSize, LogicalOf;
      var target := logicalSize;
      logicalSize := logicalSize[0 := logicalSize[0] + count];
      if stored.Empty? || !stored.extensible {
        return false;
      }
      GrownShape(before, target, count);
      ok := AppendCells(target, count, offset, stride, data);
      ghost var more := if ok && count > 0 then Slice(data.value, count, offset, stride) else Fills(count, fill);
      assert stored == Grown(before, more);
      GrownFits(before, more);
    }

    /** The part of append behind the new logical size: the dataset grows, then the cells are transferred. */
    method AppendCells(target: Dims, count: nat, offset: nat, stride: nat, data: Option<seq<T>>) returns (ok: bool)
      requires stored.Ok() && stored.Simple? && |stored.extent| == 1 && target[0] == stored.extent[0] && target[..1] == [target[0]]
      requires data.Some? && count > 0 && stride > 0 ==> Strided(offset, stride, count - 1) < |data.value|
      modifies this`stored, this`sel
      ensures ok <==> stride > 0 && (data.Some? || count == 0)
      ensures stored == Grown(old(stored), if ok && count > 0 then Slice(data.value, count, offset, stride) else Fills(count, fill))
    {
      var before := stored;
      GrownFits(before, Fills(count, fill));
      AppendedSlice(before, count, offset, stride, data, fill);
      hide TransferAppended, Grown, Slice, Fills, Strided;
      stored := Grown(before, Fills(count, fill));
      if stride == 0 {
        return false;
      }
      sel := Slab(target[..1], [1], [count]);
      if data.None? || count == 0 {
        sel := Nothing;
        return count == 0;
      }
      stored := stored.(cells := TransferAppended(stored.cells, target[0], count, sel, offset, stride, data.value, fill));
      return true;
    }
  }

  /** When DCDataSet::write goes through. */
  predicate WriteAccepted(select: Select, dstOffset: Dims, hasData: bool, size: Dims, nd: nat)
    requires nd <= AXES
  {
    && (SkipsSource(select) || ValidSource(select.size, select.count, select.offset, select.stride, nd))
    && (SkipsTarget(select, dstOffset, size) || ValidSource(size, select.count, dstOffset, ONE, nd))
    && (hasData || ScalarSize(select.count) == 0)
  }

  /** Where the selections of DCDataSet::write begin: a hyperslab that was left out starts at zero. */
  function SourceStart(select: Select): Dims {
    if SkipsSource(select) then ZERO else select.offset
  }

  function TargetStart(select: Select, dstOffset: Dims, size: Dims): Dims {
    if SkipsTarget(select, dstOffset, size) then ZERO else dstOffset
  }

  /** The selected cells were moved. */
  ghost predicate MovedSelection<T>(before: seq<T>, after: seq<T>, size: Dims, nd: nat, select: Select, dstOffset: Dims, data: seq<T>)
    requires 1 <= nd <= AXES
  {
    Moved(before, after, size, nd, TargetStart(select, dstOffset, size), select.count,
          data, select.size, SourceStart(select), select.stride)
  }

  /** The effect of H5Dwrite for the selections that DCDataSet::write has made. */
  function TransferSelected<T>(cells: seq<T>, size: Dims, nd: nat, select: Select, dstOffset: Dims, data: seq<T>): (r: seq<T>)
    requires 1 <= nd <= AXES && WriteAccepted(select, dstOffset, true, size, nd)
    requires |cells| >= Prod(Phys(size, nd)) && |data| >= Prod(Phys(select.size, nd)) && ScalarSize(select.count) > 0
    ensures MovedSelection(cells, r, size, nd, select, dstOffset, data)
  {
    var from := SourceStart(select);
    var to := TargetStart(select, dstOffset, size);
    EffectiveIsValid(select, dstOffset, size, nd);
    TransferMoves(cells, size, nd, to, select.count, data, select.size, from, select.stride);
    Transfer(cells, Phys(size, nd), Phys(to, nd), Phys(select.count, nd),
             data, Phys(select.size, nd), Phys(from, nd), Phys(select.stride, nd))
  }

  /** H5Dwrite, for the selections that DCDataSet::write makes. */
  function TransferWritten<T>(cells: seq<T>, size: Dims, nd: nat, select: Select, dstOffset: Dims, data: seq<T>,
                              to: Selection, from: Selection): (r: seq<T>)
    requires 1 <= nd <= AXES && WriteAccepted(select, dstOffset, true, size, nd)
    requires |cells| >= Prod(Phys(size, nd)) && |data| >= Prod(Phys(select.size, nd)) && ScalarSize(select.count) > 0
    requires from == (if SkipsSource(select) then All else Slab(Phys(select.offset, nd), Phys(select.stride, nd), Phys(select.count, nd)))
    requires to == (if SkipsTarget(select, dstOffset, size) then All else Slab(Phys(dstOffset, nd), Phys(ONE, nd), Phys(select.count, nd)))
    ensures |r| == |cells| && MovedSelection(cells, r, size, nd, select, dstOffset, data)
  {
    SelectionsTransfer(cells, size, nd, select, dstOffset, data, to, from);
    TransferBetween(cells, Phys(size, nd), to, data, Phys(select.size, nd), from)
  }

  /** The selections that DCDataSet::write makes transfer just that. */
  lemma SelectionsTransfer<T>(cells: seq<T>, size: Dims, nd: nat, select: Select, dstOffset: Dims, data: seq<T>, to: Selection, from: Selection)
    requires 1 <= nd <= AXES && WriteAccepted(select, dstOffset, true, size, nd)
    requires |cells| >= Prod(Phys(size, nd)) && |data| >= Prod(Phys(select.size, nd)) && ScalarSize(select.count) > 0
    requires from == (if SkipsSource(select) then All else Slab(Phys(select.offset, nd), Phys(select.stride, nd), Phys(select.count, nd)))
    requires to == (if SkipsTarget(select, dstOffset, size) then All else Slab(Phys(dstOffset, nd), Phys(ONE, nd), Phys(select.count, nd)))
    ensures Paired(cells, Phys(size, nd), to, data, Phys(select.size, nd), from)
    ensures TransferBetween(cells, Phys(size, nd), to, data, Phys(select.size, nd), from)
         == TransferSelected(cells, size, nd, select, dstOffset, data)
  {
    EffectiveIsValid(select, dstOffset, size, nd);
    if SkipsSource(select) {
      ShortcutIsWholeBuffer(select, nd);
    }
    assert Phys(ONE, nd) == seq(nd, _ => 1) && Phys(ZERO, nd) == seq(nd, _ => 0);
    hide ValidSlab, Transfer, WriteAccepted, Prod, ScalarSize, MovedSelection;
  }

  lemma EffectiveIsValid(select: Select, dstOffset: Dims, size: Dims, nd: nat)
    requires 1 <= nd <= AXES && WriteAccepted(select, dstOffset, true, size, nd) && ScalarSize(select.count) > 0
    ensures var from := SourceStart(select);
            var to := TargetStart(select, dstOffset, size);
            && ValidSlab(Phys(from, nd), Phys(select.stride, nd), Phys(select.count, nd), Phys(select.size, nd))
            && ValidSlab(Phys(to, nd), seq(nd, _ => 1), Phys(select.count, nd), Phys(size, nd))
  {
    var from := SourceStart(select);
    var to := TargetStart(select, dstOffset, size);
    if SkipsSource(select) {
      ShortcutIsWholeBuffer(select, nd);
    }
    if SkipsTarget(select, dstOffset, size) {
      ShortcutIsWholeBuffer(Select(size, select.count, ZERO, ONE), nd);
    }
    PhysSlab(select.size, select.count, from, select.stride, nd);
    PhysSlab(size, select.count, to, ONE, nd);
    assert Phys(ONE, nd) == seq(nd, _ => 1);
  }

  /**
   * Which writes go through: each of both selections has to fit, unless its offset is zero on any one axis and the
   * count is the whole size, for the source without stride.
   */
  lemma AcceptedExactly(select: Select, dstOffset: Dims, hasData: bool, size: Dims, nd: nat)
    requires 1 <= nd <= AXES
    ensures WriteAccepted(select, dstOffset, hasData, size, nd) <==>
              && (ValidSource(select.size, select.count, select.offset, select.stride, nd)
                  || (0 in select.offset && select.count == select.size && select.stride == ONE))
              && (ValidSource(size, select.count, dstOffset, ONE, nd) || (0 in dstOffset && select.count == size))
              && (hasData || 0 in select.count)
  {
    ZeroProduct(select.offset);
    ZeroProduct(dstOffset);
    ZeroProduct(select.count);
    if ScalarSize(select.stride) == 1 {
      ProductOne(select.stride[0], select.stride[1], select.stride[2]);
      assert select.stride == ONE;
    }
  }

  lemma ZeroProduct(d: Dims)
    ensures ScalarSize(d) == 0 <==> 0 in d
  {
    ProductPositive(d[0], d[1], d[2]);
    assert d == [d[0], d[1], d[2]];
  }

  lemma SwapFacts(select: Select, dstOffset: Dims, size: Dims, nd: nat)
    requires 1 <= nd <= AXES
    ensures ScalarSize(Swap(select.offset, nd)) == ScalarSize(select.offset)
    ensures ScalarSize(Swap(select.stride, nd)) == ScalarSize(select.stride)
    ensures ScalarSize(Swap(select.count, nd)) == ScalarSize(select.count)
    ensures ScalarSize(Swap(dstOffset, nd)) == ScalarSize(dstOffset)
    ensures Swap(select.count, nd) == Swap(select.size, nd) <==> select.count == select.size
    ensures Swap(select.count, nd) == Swap(size, nd) <==> select.count == size
  {}

  lemma SwapScalar(d: Dims, nd: nat)
    ensures ScalarSize(Swap(d, nd)) == ScalarSize(d)
  {}

  function BufferSize(dstBuffer: Dims, srcSize: Dims): Dims {
    if ScalarSize(dstBuffer) == 0 then srcSize else dstBuffer
  }

  /** When DCDataSet::read into a buffer goes through. */
  predicate ReadAccepted(dstBuffer: Dims, dstOffset: Dims, srcSize: Dims, srcOffset: Dims, size: Dims, nd: nat)
    requires nd <= AXES
  {
    && ValidSource(BufferSize(dstBuffer, srcSize), srcSize, dstOffset, ONE, nd)
    && (ScalarSize(srcSize) == 0 || ValidSource(size, srcSize, srcOffset, ONE, nd))
  }

  /** The effect of H5Dread: a box of the dataset goes to a box of the buffer. */
  function TransferBox<T>(was: seq<T>, buffer: Dims, nd: nat, dstOffset: Dims, count: Dims, cells: seq<T>, size: Dims, srcOffset: Dims): (r: seq<T>)
    requires 1 <= nd <= AXES && |was| >= Prod(Phys(buffer, nd)) && |cells| >= Prod(Phys(size, nd))
    requires ValidSource(buffer, count, dstOffset, ONE, nd) && ValidSource(size, count, srcOffset, ONE, nd)
    ensures Moved(was, r, buffer, nd, dstOffset, count, cells, size, srcOffset, ONE)
  {
    PhysSlab(buffer, count, dstOffset, ONE, nd);
    PhysSlab(size, count, srcOffset, ONE, nd);
    assert Phys(ONE, nd) == seq(nd, _ => 1);
    TransferMoves(was, buffer, nd, dstOffset, count, cells, size, srcOffset, ONE);
    Transfer(was, Phys(buffer, nd), Phys(dstOffset, nd), Phys(count, nd), cells, Phys(size, nd), Phys(srcOffset, nd), Phys(ONE, nd))
  }

  /** The selections that DCDataSet::read makes transfer just that. */
  lemma BoxesTransfer<T>(was: seq<T>, buffer: Dims, nd: nat, dstOffset: Dims, count: Dims, cells: seq<T>, size: Dims, srcOffset: Dims,
                         from: Selection, to: Selection)
    requires 1 <= nd <= AXES && |was| >= Prod(Phys(buffer, nd)) && |cells| >= Prod(Phys(size, nd))
    requires ValidSource(buffer, count, dstOffset, ONE, nd) && ValidSource(size, count, srcOffset, ONE, nd)
    requires to == Slab(Phys(dstOffset, nd), Phys(ONE, nd), Phys(count, nd)) && from == Slab(Phys(srcOffset, nd), Phys(ONE, nd), Phys(count, nd))
    ensures Paired(was, Phys(buffer, nd), to, cells, Phys(size, nd), from)
    ensures TransferBetween(was, Phys(buffer, nd), to, cells, Phys(size, nd), from)
         == TransferBox(was, buffer, nd, dstOffset, count, cells, size, srcOffset)
  {
    PhysSlab(buffer, count, dstOffset, ONE, nd);
    PhysSlab(size, count, srcOffset, ONE, nd);
    assert Phys(ONE, nd) == seq(nd, _ => 1);
    hide ValidSlab, ValidSource, Transfer, Prod, Moved;
  }

  function Fills<T>(n: nat, fill: T): (s: seq<T>)
    ensures |s| == n && forall k | 0 <= k < n :: s[k] == fill
  {
    seq(n, _ => fill)
  }

  /** The strided slice of a one-dimensional buffer. */
  function Slice<T>(data: seq<T>, count: nat, offset: nat, stride: nat): (s: seq<T>)
    requires count > 0 ==> Strided(offset, stride, count - 1) < |data|
    ensures |s| == count
  {
    seq(count, j requires 0 <= j < count =>
      (MulMonotone(count - 1, j, stride); data[Strided(offset, stride, j)]))
  }

  /** Its cells, in buffer indices. */
  lemma SliceAt<T>(data: seq<T>, count: nat, offset: nat, stride: nat, j: nat)
    requires j < count && Strided(offset, stride, count - 1) < |data|
    ensures offset + j * stride < |data| && Slice(data, count, offset, stride)[j] == data[offset + j * stride]
  {
    MulMonotone(count - 1, j, stride);
  }

  /**
   * The effect of H5Dwrite in append. The memory dataspace spans offset + count * stride cells, which
   * may be more than the buffer has behind the last selected one; `pad` stands for those.
   */
  function TransferAppended<T>(cells: seq<T>, len: nat, count: nat, to: Selection, offset: nat, stride: nat, data: seq<T>, pad: T): (r: seq<T>)
    requires to == Slab([len], [1], [count])
    requires |cells| == len + count && count > 0 && stride > 0 && Strided(offset, stride, count - 1) < |data|
    ensures r == cells[..len] + Slice(data, count, offset, stride)
  {
    var span := offset + count * stride;
    var memory := data + Fills(span, pad);
    AppendFits(len, count, offset, stride, span);
    assert seq(1, _ => 1) == [1];
    var r := TransferBetween(cells, [len + count], to, memory, [span], Slab([offset], [stride], [count]));
    assert r == cells[..len] + Slice(data, count, offset, stride) by {
      forall k | 0 <= k < len + count
        ensures r[k] == (cells[..len] + Slice(data, count, offset, stride))[k]
      {
        FlatOfOne([k], [len + count]);
        TransferAt(cells, [len + count], [len], [count], memory, [span], [offset], [stride], [k]);
        if k >= len {
          MulMonotone(count - 1, k - len, stride);
          FlatOfOne(Partner([k], [len], [offset], [stride]), [span]);
        }
      }
    }
    r
  }

  lemma AppendFits(len: nat, count: nat, offset: nat, stride: nat, span: nat)
    requires count > 0 && stride > 0 && span == offset + count * stride
    ensures Prod([len + count]) == len + count && Prod([span]) == span
    ensures ValidSlab([len], seq(1, _ => 1), [count], [len + count]) && ValidSlab([offset], [stride], [count], [span])
  {}

  function Grown<T>(s: Stored<T>, more: seq<T>): Stored<T>
    requires s.Simple? && |s.extent| == 1
  {
    s.(extent := [s.extent[0] + |more|], cells := s.cells + more)
  }

  lemma GrownFits<T>(s: Stored<T>, more: seq<T>)
    requires s.Ok() && s.Simple? && |s.extent| == 1
    ensures |s.cells| == s.extent[0] == LogicalOf(s.extent)[0]
    ensures var t := Grown(s, more);
            && t.Ok() && t.Simple? && t.extensible == s.extensible
            && t.extent == [s.extent[0] + |more|] && |t.cells| == s.extent[0] + |more|
            && LogicalOf(t.extent) == LogicalOf(s.extent)[0 := s.extent[0] + |more|]
  {}

  lemma GrownShape<T>(s: Stored<T>, size: Dims, count: nat)
    requires s.Ok() && s.Simple? && s.extent == Phys(size, 1) && ScalarSize(size) > 0
    ensures size[..1] == [size[0]] && size[0] == s.extent[0]
    ensures Phys(size[0 := size[0] + count], 1) == [size[0] + count] && ScalarSize(size[0 := size[0] + count]) > 0
  {
    ProductPositive(size[0], size[1], size[2]);
    ProductPositive(size[0] + count, size[1], size[2]);
  }

  /** Growing by fill values and writing the slice over them is growing by the slice. */
  lemma AppendedSlice<T>(s: Stored<T>, count: nat, offset: nat, stride: nat, data: Option<seq<T>>, fill: T)
    requires s.Ok() && s.Simple? && |s.extent| == 1
    requires data.Some? && count > 0 && stride > 0 ==> Strided(offset, stride, count - 1) < |data.value|
    ensures data.Some? && count > 0 && stride > 0 ==>
              var t := Grown(s, Fills(count, fill));
              && |t.cells| == s.extent[0] + count
              && t.(cells := TransferAppended(t.cells, s.extent[0], count, Slab([s.extent[0]], [1], [count]), offset, stride, data.value, fill))
                 == Grown(s, Slice(data.value, count, offset, stride))
  {
    GrownFits(s, Fills(count, fill));
    if data.Some? && count > 0 && stride > 0 {
      assert Grown(s, Fills(count, fill)).cells[..s.extent[0]] == s.cells;
      hide Transfer;
    }
  }

  lemma ExtentOfOne(d: seq<nat>)
    requires |d| == 1
    ensures Prod(d) == d[0]
  {}

  ghost predicate SameAxes(a: Dims, b: Dims, nd: nat)
    requires nd <= AXES
  {
    forall i | 0 <= i < nd :: a[i] == b[i]
  }

  /** A move only looks at the axes the dataset has. */
  lemma MovedOnAxes<T>(before: seq<T>, after: seq<T>, nd: nat, src: seq<T>,
                       size: Dims, off: Dims, count: Dims, srcSize: Dims, srcOff: Dims, stride: Dims,
                       size': Dims, off': Dims, count': Dims, srcSize': Dims, srcOff': Dims)
    requires 1 <= nd <= AXES && Moved(before, after, size, nd, off, count, src, srcSize, srcOff, stride)
    requires SameAxes(size, size', nd) && SameAxes(off, off', nd) && SameAxes(count, count', nd)
    requires SameAxes(srcSize, srcSize', nd) && SameAxes(srcOff, srcOff', nd)
    ensures Moved(before, after, size', nd, off', count', src, srcSize', srcOff', stride)
  {
    assert Phys(size, nd) == Phys(size', nd);
    forall p: Dims | Below(p, size', nd)
      ensures MovedCell(before, after, size', nd, off', count', src, srcSize', srcOff', stride, p)
    {
      assert Lin(p, size, nd) == Lin(p, size', nd);
      assert MovedCell(before, after, size, nd, off, count, src, srcSize, srcOff, stride, p);
      assert InBoxN(p, off, count, nd) <==> InBoxN(p, off', count', nd);
      if InBoxN(p, off, count, nd) {
        assert SourceCell(p, off, srcOff, stride, nd) == SourceCell(p, off', srcOff', stride, nd);
      }
    }
  }

  /** For a valid selection the shortcuts of DCDataSet::write move what the full hyperslabs move. */
  lemma ValidWriteMoves<T>(before: seq<T>, after: seq<T>, size: Dims, nd: nat, select: Select, dstOffset: Dims, data: seq<T>)
    requires 1 <= nd <= AXES && ScalarSize(select.count) > 0 && ValidWrite(select, dstOffset, size, nd)
    requires MovedSelection(before, after, size, nd, select, dstOffset, data)
    ensures Moved(before, after, size, nd, dstOffset, select.count, data, select.size, select.offset, select.stride)
  {
    var from := SourceStart(select);
    var to := TargetStart(select, dstOffset, size);
    if SkipsSource(select) {
      ShortcutIsWholeBuffer(select, nd);
    }
    if SkipsTarget(select, dstOffset, size) {
      ShortcutIsWholeBuffer(Select(size, select.count, dstOffset, ONE), nd);
    }
    MovedOnAxes(before, after, nd, data, size, to, select.count, select.size, from, select.stride,
                size, dstOffset, select.count, select.size, select.offset);
  }

  lemma CellThrough(p: Dims, off: Dims, count: Dims, srcOff: Dims, stride: Dims, nd: nat)
    requires 1 <= nd <= AXES && InBoxN(p, off, count, nd)
    ensures var m := SourceCell(p, off, ZERO, ONE, nd);
            && Below(m, count, nd) && InBoxN(m, ZERO, count, nd)
            && SourceCell(m, ZERO, srcOff, stride, nd) == SourceCell(p, off, srcOff, stride, nd)
  {}

  /** Moving a selection into a dataset of its own size and the whole dataset on is moving the selection. */
  lemma MoveThrough<T>(blank: seq<T>, cells: seq<T>, count: Dims, nd: nat, src: seq<T>, srcSize: Dims, srcOff: Dims, stride: Dims,
                       before: seq<T>, after: seq<T>, size: Dims, off: Dims)
    requires 1 <= nd <= AXES
    requires Moved(blank, cells, count, nd, ZERO, count, src, srcSize, srcOff, stride)
    requires Moved(before, after, size, nd, off, count, cells, count, ZERO, ONE)
    ensures Moved(before, after, size, nd, off, count, src, srcSize, srcOff, stride)
  {
    forall p: Dims | Below(p, size, nd)
      ensures MovedCell(before, after, size, nd, off, count, src, srcSize, srcOff, stride, p)
    {
      assert MovedCell(before, after, size, nd, off, count, cells, count, ZERO, ONE, p) by {
        assert Lin(p, size, nd) == Lin(p, size, nd);
      }
      if InBoxN(p, off, count, nd) {
        var m := SourceCell(p, off, ZERO, ONE, nd);
        CellThrough(p, off, count, srcOff, stride, nd);
        assert MovedCell(blank, cells, count, nd, ZERO, count, src, srcSize, srcOff, stride, m) by {
          assert Lin(m, count, nd) == Lin(m, count, nd);
        }
      }
    }
  }
}
