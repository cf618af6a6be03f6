/** SerialDataCollector: writing, appending and reading named datasets of one group. */
module SerialDataCollector {
  import opened Geometry
  import opened Hdf5
  import opened DataSet
  import opened Options

  /** One call of append with data. */
  datatype AppendCall<T> = AppendCall(count: nat, offset: nat, stride: nat, data: seq<T>) {
    /** The user's buffer holds every cell the call selects. */
    predicate Ok() {
      count > 0 && stride > 0 ==> Strided(offset, stride, count - 1) < |data|
    }

    function Cells(): seq<T>
      requires Ok() && (count > 0 ==> stride > 0)
    {
      Slice(data, count, offset, stride)
    }
  }

  /** The dataset left behind by an append call, given what the name stood for before. */
  function AfterAppend<T>(before: Option<Stored<T>>, call: AppendCall<T>, fill: T): Stored<T>
    requires call.Ok()
    requires before.Some? && before.value.Simple? && before.value.extensible ==> |before.value.extent| == 1
  {
    match before
    case None =>
      if call.count == 0 then Empty
      else Simple([call.count],
                  if call.offset == 0 && call.stride == 1 then call.Cells() else Fills(call.count, fill),
                  true)
    case Some(s) =>
      if call.count > 0 && s.Simple? && s.extensible then
        Grown(s, if call.stride > 0 then call.Cells() else Fills(call.count, fill))
      else s
  }

  predicate AppendSucceeds<T>(before: Option<Stored<T>>, call: AppendCall<T>) {
    || call.count == 0
    || (match before
        case None => call.offset == 0 && call.stride == 1
        case Some(s) => s.Simple? && s.extensible && call.stride > 0)
  }

  class Group<T> {
    const fill: T
    var objects: map<string, Stored<T>>

    /** Only append creates extensible datasets, and those have one axis. */
    ghost predicate Valid()
      reads this
    {
      forall n | n in objects :: objects[n].Ok() && (objects[n].Simple? && objects[n].extensible ==> |objects[n].extent| == 1)
    }

    constructor (fill: T)
      ensures Valid() && objects == map[] && this.fill == fill
    {
      this.fill := fill;
      objects := map[];
    }

    function Lookup(name: string): Option<Stored<T>>
      reads this
    {
      if name in objects then Some(objects[name]) else None
    }

    /** writeDataSet: replaces whatever the name stood for by a dataset of the size of the selection. */
    method WriteDataSet(name: string, nd: nat, select: Select, data: Option<seq<T>>) returns (ok: bool)
      requires Valid() && 1 <= nd <= AXES
      requires data.Some? && (SkipsSource(select) || ValidSource(select.size, select.count, select.offset, select.stride, nd))
               ==> |data.value| >= Prod(Phys(select.size, nd))
      modifies this
      ensures Valid() && objects.Keys == old(objects).Keys + {name}
      ensures forall n | n in old(objects) && n != name :: objects[n] == old(objects)[n]
      ensures objects[name].Empty? <==> ScalarSize(select.count) == 0
      ensures objects[name].Simple? ==> objects[name].extent == Phys(select.count, nd) && !objects[name].extensible
      ensures ok <==> data.None? || ScalarSize(select.count) == 0 || SkipsSource(select)
                      || ValidSource(select.size, select.count, select.offset, select.stride, nd)
      ensures data.Some? && ScalarSize(select.count) > 0 && ValidSource(select.size, select.count, select.offset, select.stride, nd) ==>
                exists blank: seq<T> :: Moved(blank, objects[name].cells, select.count, nd, ZERO, select.count,
                                              data.value, select.size, select.offset, select.stride)
    {
      var dataset := new DCDataSet<T>(fill);
      ok := dataset.Create(select.count, nd, false);
      ghost var blank := if dataset.stored.Simple? then dataset.stored.cells else [];
      if data.Some? && ScalarSize(select.count) > 0 {
        ok := dataset.Write(select, ZERO, data);
        if ValidSource(select.size, select.count, select.offset, select.stride, nd) {
          WholeTarget(select.count, nd);
          ValidWriteMoves(blank, dataset.stored.cells, select.count, nd, select, ZERO, data.value);
        }
      }
      objects := objects[name := dataset.stored];
    }

    /** readCompleteDataSet: all that lies behind the source offset, which must not exceed the dataset's size. */
    method ReadCompleteDataSet(name: string, dstBuffer: Dims, dstOffset: Dims, srcOffset: Dims, dst: array?<T>)
      returns (ok: bool, sizeRead: Dims, srcNDims: nat)
      requires Valid()
      requires name in objects ==> forall i | 0 <= i < AXES :: srcOffset[i] <= DataSize(objects[name])[i]
      requires name in objects && objects[name].Simple? && dst != null ==>
                 dst.Length >= Prod(Phys(BufferSize(dstBuffer, Local(DataSize(objects[name]), srcOffset)), |objects[name].extent|))
      modifies if dst == null then {} else {dst}
      ensures name !in objects ==> !ok
      ensures name in objects && objects[name].Empty? ==> ok && srcNDims == 0
      ensures name in objects && objects[name].Simple? ==>
                var nd, size := |objects[name].extent|, DataSize(objects[name]);
                var rest := Local(size, srcOffset);
                && (ok <==> dst == null || ReadAccepted(dstBuffer, dstOffset, rest, srcOffset, size, nd))
                && (ok ==> sizeRead == rest && srcNDims == nd)
                && (ok && dst != null && ScalarSize(rest) > 0 ==>
                      Moved(old(dst[..]), dst[..], BufferSize(dstBuffer, rest), nd, dstOffset, rest, objects[name].cells, size, srcOffset, ONE))
                && (dst != null && ScalarSize(rest) == 0 ==> dst[..] == old(dst[..]))
      ensures dst != null && !ok ==> dst[..] == old(dst[..])
    {
      var dataset := new DCDataSet<T>(fill);
      var found := dataset.Open(Lookup(name));
      var rest := ONE;
      if found {
        rest := Behind(dataset.logicalSize, srcOffset);
      }
      hide Moved, ReadAccepted, ValidSource, Prod, Phys, Local, Behind, LogicalOf, ScalarSize;
      ok, sizeRead, srcNDims := dataset.Read(dstBuffer, dstOffset, rest, srcOffset, dst);
    }

    /**
     * appendDataSet. On a dataset that does not exist yet the arguments of Selection are in the wrong
     * roles: the buffer's span is passed as the count.
     */
    method AppendDataSet(name: string, call: AppendCall<T>) returns (ok: bool)
      requires Valid() && call.Ok()
      modifies this
      ensures Valid() && objects == old(objects)[name := AfterAppend(old(Lookup(name)), call, fill)]
      ensures ok == AppendSucceeds(old(Lookup(name)), call)
    {
      var before := Lookup(name);
      var dataset := new DCDataSet<T>(fill);
      var found := dataset.Open(before);
      ok := true;
      if !found {
        ok := CreateByAppend(dataset, call);
      } else if call.count > 0 {
        ok := dataset.Append(call.count, call.offset, call.stride, Some(call.data));
      }
      objects := objects[name := dataset.stored];
    }

    /** The branch of appendDataSet for a dataset that does not exist yet. */
    static method CreateByAppend(dataset: DCDataSet<T>, call: AppendCall<T>) returns (ok: bool)
      requires dataset.Valid() && !dataset.isOpen && call.Ok()
      modifies dataset
      ensures dataset.stored == AfterAppend(None, call, dataset.fill) && dataset.stored.Ok()
      ensures ok == AppendSucceeds(None, call)
    {
      var dataSize: Dims := [call.count, 1, 1];
      ok := dataset.Create(dataSize, 1, true);
      ProductPositive(call.count, 1, 1);
      if call.count > 0 {
        ghost var blank := dataset.stored;
        FirstAppendAccepted(call.count, call.offset, call.stride);
        FirstAppendShape(blank, call.count);
        assert blank == Simple([call.count], Fills(call.count, dataset.fill), true);
        ok := dataset.Write(FirstSelect(call.count, call.offset, call.stride), ZERO, Some(call.data));
        if ok {
          ProductPositive(call.count, 1, 1);
          FirstAppendMoves(blank.cells, dataset.stored.cells, call);
        }
      }
    }

    /**
     * Writing a selection and reading the dataset back into a box moves the selection to that box; without a size
     * the buffer is as large as the selection.
     */
    method WriteThenRead(name: string, nd: nat, select: Select, data: seq<T>, dstBuffer: Dims, dstOffset: Dims, dst: array<T>)
      requires Valid() && 1 <= nd <= AXES && ScalarSize(select.count) > 0
      requires ValidSource(select.size, select.count, select.offset, select.stride, nd) && |data| >= Prod(Phys(select.size, nd))
      requires var buffer := BufferSize(dstBuffer, select.count);
               ValidSource(buffer, select.count, dstOffset, ONE, nd) && dst.Length >= Prod(Phys(buffer, nd))
      modifies this, dst
      ensures Moved(old(dst[..]), dst[..], BufferSize(dstBuffer, select.count), nd, dstOffset, select.count,
                    data, select.size, select.offset, select.stride)
    {
      var _ := WriteDataSet(name, nd, select, Some(data));
      ghost var cells := objects[name].cells;
      ghost var blank :| Moved(blank, cells, select.count, nd, ZERO, select.count, data, select.size, select.offset, select.stride);
      var size := LogicalOf(objects[name].extent);
      PhysSame(size, select.count, nd);
      ReadsBack(size, select.count, dstBuffer, dstOffset, nd);
      hide ReadAccepted, ValidSource, LogicalOf, Local, ScalarSize, Phys, Prod, Moved;
      var _, _, _ := ReadCompleteDataSet(name, dstBuffer, dstOffset, ZERO, dst);
      MovedOnAxes(old(dst[..]), dst[..], nd, cells, BufferSize(dstBuffer, size), dstOffset, size, size, ZERO, ONE,
                  BufferSize(dstBuffer, select.count), dstOffset, select.count, select.count, ZERO);
      MoveThrough(blank, cells, select.count, nd, data, select.size, select.offset, select.stride,
                  old(dst[..]), dst[..], BufferSize(dstBuffer, select.count), dstOffset);
    }
  }

  /** What the source subtracts per axis. */
  function Behind(size: Dims, offset: Dims): (rest: Dims)
    requires forall i | 0 <= i < AXES :: offset[i] <= size[i]
    ensures rest == Local(size, offset)
  {
    [size[0] - offset[0], size[1] - offset[1], size[2] - offset[2]]
  }

  /** A dataset of the count's size is read whole, however HDF5 counts its axes. */
  lemma ReadsBack(size: Dims, count: Dims, dstBuffer: Dims, dstOffset: Dims, nd: nat)
    requires 1 <= nd <= AXES && SameAxes(size, count, nd) && ScalarSize(count) > 0 && forall i | nd <= i < AXES :: size[i] == 1
    requires ValidSource(BufferSize(dstBuffer, count), count, dstOffset, ONE, nd)
    ensures ScalarSize(size) > 0 && Local(size, ZERO) == size
    ensures ReadAccepted(dstBuffer, dstOffset, size, ZERO, size, nd)
    ensures SameAxes(BufferSize(dstBuffer, size), BufferSize(dstBuffer, count), nd)
    ensures Phys(BufferSize(dstBuffer, size), nd) == Phys(BufferSize(dstBuffer, count), nd)
  {}

  lemma PhysSame(a: Dims, b: Dims, nd: nat)
    requires 1 <= nd <= AXES && Phys(a, nd) == Phys(b, nd)
    ensures SameAxes(a, b, nd)
  {}

  lemma WholeTarget(count: Dims, nd: nat)
    requires nd <= AXES
    ensures ValidSource(count, count, ZERO, ONE, nd)
  {}

  /** The selection that a creating append passes on. */
  function FirstSelect(count: nat, offset: nat, stride: nat): Select {
    Select([count, 1, 1], [offset + count * stride, 1, 1], [offset, 0, 0], [stride, 1, 1])
  }

  /** A creating append of at least one cell is accepted exactly without offset and stride. */
  lemma FirstAppendAccepted(count: nat, offset: nat, stride: nat)
    requires count > 0
    ensures WriteAccepted(FirstSelect(count, offset, stride), ZERO, true, [count, 1, 1], 1) <==> offset == 0 && stride == 1
    ensures offset == 0 && stride == 1 ==>
              SkipsSource(FirstSelect(count, offset, stride)) && SkipsTarget(FirstSelect(count, offset, stride), ZERO, [count, 1, 1])
  {}

  lemma FirstAppendShape<T>(s: Stored<T>, count: nat)
    requires count > 0 && s.Ok() && s.Simple? && s.extent == Phys([count, 1, 1], 1)
    ensures s.extent == [count] && |s.cells| == count && ScalarSize([count, 1, 1]) == count
    ensures ScalarSize([count, 1, 1]) > 0 && Prod(Phys([count, 1, 1], 1)) == count
  {
    assert Phys([count, 1, 1], 1) == [count];
    ExtentOfOne([count]);
  }

  lemma FirstAppendMoves<T>(before: seq<T>, after: seq<T>, call: AppendCall<T>)
    requires call.count > 0 && call.offset == 0 && call.stride == 1 && call.Ok() && |before| == call.count
    requires MovedSelection(before, after, [call.count, 1, 1], 1, FirstSelect(call.count, 0, 1), ZERO, call.data)
    ensures after == call.Cells()
  {
    FirstAppendAccepted(call.count, 0, 1);
    var size: Dims := [call.count, 1, 1];
    forall k | 0 <= k < call.count ensures after[k] == call.Cells()[k] {
      var p: Dims := [k, 0, 0];
      assert Lin(p, size, 1) == k;
      assert MovedCell(before, after, size, 1, ZERO, FirstSelect(call.count, 0, 1).count, call.data, size, ZERO, [1, 1, 1], p);
    }
  }

  // ---- Runs of appends --------------------------------------------------------------------------

  /** The dataset after a run of append calls under one name. */
  function AfterAppends<T>(calls: seq<AppendCall<T>>, fill: T): (r: Option<Stored<T>>)
    requires forall c | c in calls :: c.Ok()
    ensures r.Some? && r.value.Simple? && r.value.extensible ==> |r.value.extent| == 1
  {
    if |calls| == 0 then None
    else Some(AfterAppend(AfterAppends(calls[..|calls| - 1], fill), calls[|calls| - 1], fill))
  }

  /** What a call adds to a dataset that can grow: its selected cells, or fill values if HDF5 refuses the stride. */
  function Part<T>(c: AppendCall<T>, fill: T): (r: seq<T>)
    requires c.Ok()
    ensures |r| == c.count
  {
    if Strides(c) then c.Cells() else Fills(c.count, fill)
  }

  /** What the creating call adds: its cells, or fill values if the selection is refused. */
  function FirstPart<T>(c: AppendCall<T>, fill: T): (r: seq<T>)
    requires c.Ok()
    ensures |r| == c.count
  {
    if c.offset == 0 && c.stride == 1 then c.Cells() else Fills(c.count, fill)
  }

  predicate Strides<T>(c: AppendCall<T>) {
    c.count > 0 ==> c.stride > 0
  }

  /** The parts of all calls in call order. */
  function Concatenated<T>(calls: seq<AppendCall<T>>, fill: T): seq<T>
    requires forall c | c in calls :: c.Ok()
  {
    if |calls| == 0 then []
    else if |calls| == 1 then FirstPart(calls[0], fill)
    else Concatenated(calls[..|calls| - 1], fill) + Part(calls[|calls| - 1], fill)
  }

  function TotalCount<T>(calls: seq<AppendCall<T>>): nat {
    if |calls| == 0 then 0 else TotalCount(calls[..|calls| - 1]) + calls[|calls| - 1].count
  }

  lemma Created<T>(call: AppendCall<T>, fill: T)
    requires call.Ok() && call.count > 0
    ensures AfterAppend(None, call, fill) == Simple([call.count], FirstPart(call, fill), true)
    ensures AppendSucceeds<T>(None, call) <==> Plain(call)
  {}

  lemma Extended<T>(cells: seq<T>, call: AppendCall<T>, fill: T)
    requires call.Ok()
    ensures AfterAppend(Some(Simple([|cells|], cells, true)), call, fill)
         == Simple([|cells| + call.count], cells + Part(call, fill), true)
    ensures AppendSucceeds(Some(Simple([|cells|], cells, true)), call) <==> Strides(call)
  {}

  /**
   * When the creating call has cells, the dataset is the concatenation of what the calls selected: a later call goes
   * through unless it has cells but no stride, the first one only from the start of its buffer and without stride.
   */
  lemma {:induction false} AppendsConcatenate<T>(calls: seq<AppendCall<T>>, fill: T)
    requires |calls| > 0 && (forall c | c in calls :: c.Ok()) && calls[0].count > 0
    ensures AfterAppends(calls, fill) == Some(Simple([TotalCount(calls)], Concatenated(calls, fill), true))
    ensures |Concatenated(calls, fill)| == TotalCount(calls)
    ensures AppendSucceeds(AfterAppends(calls[..|calls| - 1], fill), calls[|calls| - 1])
       <==> if |calls| == 1 then Plain(calls[0]) else Strides(calls[|calls| - 1])
  {
    var earlier, call := calls[..|calls| - 1], calls[|calls| - 1];
    RunStep(calls, fill);
    hide AfterAppend, AfterAppends, AppendSucceeds, Part, FirstPart, Strides, Plain, Concatenated, TotalCount;
    if |calls| == 1 {
      Created(call, fill);
    } else {
      AppendsConcatenate(earlier, fill);
      Extended(Concatenated(earlier, fill), call, fill);
    }
  }

  lemma RunStep<T>(calls: seq<AppendCall<T>>, fill: T)
    requires |calls| > 0 && forall c | c in calls :: c.Ok()
    ensures var earlier, call := calls[..|calls| - 1], calls[|calls| - 1];
            && AfterAppends(calls, fill) == Some(AfterAppend(AfterAppends(earlier, fill), call, fill))
            && TotalCount(calls) == TotalCount(earlier) + call.count
            && (if |calls| == 1 then
                  AfterAppends(earlier, fill) == None && TotalCount(earlier) == 0 && Concatenated(calls, fill) == FirstPart(call, fill)
                else Concatenated(calls, fill) == Concatenated(earlier, fill) + Part(call, fill))
  {}

  /** Where the j-th cell of the k-th call is after the run: behind the cells of all earlier calls. */
  lemma {:induction false} AppendedCell<T>(calls: seq<AppendCall<T>>, fill: T, k: nat, j: nat)
    requires (forall c | c in calls :: c.Ok()) && k < |calls| && j < calls[k].count && calls[0].count > 0
    ensures var c, at, after := calls[k], TotalCount(calls[..k]) + j, AfterAppends(calls, fill);
            && after.Some? && after.value.Simple? && at < |after.value.cells|
            && ((if k == 0 then c.offset == 0 && c.stride == 1 else c.stride > 0) ==>
                  c.offset + j * c.stride < |c.data| && after.value.cells[at] == c.data[c.offset + j * c.stride])
            && (!(if k == 0 then c.offset == 0 && c.stride == 1 else c.stride > 0) ==> after.value.cells[at] == fill)
  {
    AppendsConcatenate(calls, fill);
    CellOfRun(calls, fill, k, j);
    LastPart(calls[k], k, fill, j);
    hide AfterAppends, Concatenated, TotalCount, Part, FirstPart;
  }

  /** The part of the k-th call begins behind the counts of the earlier ones. */
  lemma {:induction false} CellOfRun<T>(calls: seq<AppendCall<T>>, fill: T, k: nat, j: nat)
    requires (forall c | c in calls :: c.Ok()) && k < |calls| && j < calls[k].count
    ensures |Concatenated(calls, fill)| == TotalCount(calls) && TotalCount(calls[..k]) + j < TotalCount(calls)
    ensures Concatenated(calls, fill)[TotalCount(calls[..k]) + j]
         == if k == 0 then FirstPart(calls[k], fill)[j] else Part(calls[k], fill)[j]
    decreases |calls|
  {
    var earlier := calls[..|calls| - 1];
    RunLength(calls, fill);
    RunLength(earlier, fill);
    RunStep(calls, fill);
    hide AfterAppend, AfterAppends, Part, FirstPart, Concatenated, TotalCount;
    if k < |calls| - 1 {
      CellOfRun(earlier, fill, k, j);
      assert earlier[..k] == calls[..k];
    }
  }

  lemma {:induction false} RunLength<T>(calls: seq<AppendCall<T>>, fill: T)
    requires forall c | c in calls :: c.Ok()
    ensures |Concatenated(calls, fill)| == TotalCount(calls)
    decreases |calls|
  {
    if |calls| > 0 {
      RunLength(calls[..|calls| - 1], fill);
    }
  }

  lemma LastPart<T>(c: AppendCall<T>, k: nat, fill: T, j: nat)
    requires c.Ok() && j < c.count
    ensures var part := if k == 0 then FirstPart(c, fill) else Part(c, fill);
            if (if k == 0 then c.offset == 0 && c.stride == 1 else c.stride > 0)
            then c.offset + j * c.stride < |c.data| && part[j] == c.data[c.offset + j * c.stride]
            else part[j] == fill
  {
    if c.stride > 0 {
      SliceAt(c.data, c.count, c.offset, c.stride, j);
    }
  }

  /** A run that begins without cells leaves an empty dataset, and then every call with cells is refused. */
  lemma {:induction false} EmptyStaysEmpty<T>(calls: seq<AppendCall<T>>, fill: T)
    requires |calls| > 0 && (forall c | c in calls :: c.Ok()) && calls[0].count == 0
    ensures AfterAppends(calls, fill) == Some(Empty)
    ensures AppendSucceeds(AfterAppends(calls[..|calls| - 1], fill), calls[|calls| - 1]) <==> calls[|calls| - 1].count == 0
  {
    var earlier := calls[..|calls| - 1];
    if |earlier| > 0 {
      EmptyStaysEmpty(earlier, fill);
    }
  }

  predicate Plain<T>(c: AppendCall<T>) {
    c.count > 0 && c.offset == 0 && c.stride == 1
  }

  /**
   * So a run goes through exactly when it has no cells at all, or when it is created that way and no call with cells
   * has stride 0: a creating call with cells but with an offset or a stride is refused, and one without cells leaves
   * a dataset that no later call can extend.
   */
  lemma RunGoesThroughExactly<T>(calls: seq<AppendCall<T>>, fill: T)
    requires |calls| > 0 && forall c | c in calls :: c.Ok()
    ensures (forall k | 0 <= k < |calls| :: AppendSucceeds(AfterAppends(calls[..k], fill), calls[k]))
       <==> || (calls[0].count > 0 && calls[0].offset == 0 && calls[0].stride == 1 && forall c | c in calls :: c.count > 0 ==> c.stride > 0)
            || forall c | c in calls :: c.count == 0
  {
    forall k | 0 <= k < |calls|
      ensures AppendSucceeds(AfterAppends(calls[..k], fill), calls[k]) <==>
                if calls[0].count == 0 then calls[k].count == 0 else if k == 0 then Plain(calls[0]) else Strides(calls[k])
    {
      assert calls[..k + 1][..k] == calls[..k];
      if calls[0].count > 0 {
        AppendsConcatenate(calls[..k + 1], fill);
      } else {
        EmptyStaysEmpty(calls[..k + 1], fill);
      }
    }
    hide AppendSucceeds, AfterAppends;
  }
}
