/** DataContainer: the subdomains a read returns, their bounding box and their flat view. */
module DataContainer {
  import opened Geometry
  import opened Options

  /** A loaded piece of data: its domain, the number of elements per axis and the buffer that holds them. */
  datatype DomainData<T> = DomainData(domain: Domain, elements: Dims, data: array<T>)

  // ---- The bounding box of a list of domains ------------------------------------------------------

  /** What add keeps for one axis. */
  datatype Extent = Extent(offset: nat, size: nat)

  function EndOf(d: Domain, i: nat): nat
    requires i < AXES
  {
    d.offset[i] + d.size[i]
  }

  function ExtentOf(ds: seq<Domain>, i: nat): (e: Extent)
    requires i < AXES
    ensures e.size >= 1
  {
    if |ds| == 0 then Extent(0, 1)
    else Extended(ExtentOf(ds[..|ds| - 1], i), |ds| == 1, ds[|ds| - 1], i)
  }

  /** One call of add on one axis. The size never shrinks, nor does it grow when only the offset moves. */
  function Extended(e: Extent, first: bool, d: Domain, i: nat): Extent
    requires i < AXES
  {
    var offset := if first then d.offset[i] else Min(d.offset[i], e.offset);
    Extent(offset, Max(EndOf(d, i) - offset, e.size))
  }

  function LeastOffset(ds: seq<Domain>, i: nat): nat
    requires i < AXES && |ds| > 0
  {
    if |ds| == 1 then ds[0].offset[i] else Min(ds[|ds| - 1].offset[i], LeastOffset(ds[..|ds| - 1], i))
  }

  function GreatestEnd(ds: seq<Domain>, i: nat): nat
    requires i < AXES && |ds| > 0
  {
    if |ds| == 1 then EndOf(ds[0], i) else Max(EndOf(ds[|ds| - 1], i), GreatestEnd(ds[..|ds| - 1], i))
  }

  lemma {:induction false} LeastAndGreatest(ds: seq<Domain>, i: nat)
    requires i < AXES && |ds| > 0
    ensures forall k | 0 <= k < |ds| :: LeastOffset(ds, i) <= ds[k].offset[i] && EndOf(ds[k], i) <= GreatestEnd(ds, i)
    ensures exists k :: 0 <= k < |ds| && ds[k].offset[i] == LeastOffset(ds, i)
    ensures exists k :: 0 <= k < |ds| && EndOf(ds[k], i) == GreatestEnd(ds, i)
  {
    if |ds| > 1 {
      var m := |ds| - 1;
      LeastAndGreatest(ds[..m], i);
      assert ds[m].offset[i] == LeastOffset(ds, i) || LeastOffset(ds[..m], i) == LeastOffset(ds, i);
      assert EndOf(ds[m], i) == GreatestEnd(ds, i) || GreatestEnd(ds[..m], i) == GreatestEnd(ds, i);
    }
  }

  /** Some domain that reaches furthest was added no earlier than some domain that starts lowest. */
  ghost predicate FarAfterNear(ds: seq<Domain>, i: nat)
    requires i < AXES && |ds| > 0
  {
    exists j, k :: 0 <= j <= k < |ds| && ds[j].offset[i] == LeastOffset(ds, i) && EndOf(ds[k], i) == GreatestEnd(ds, i)
  }

  lemma FarAfterNearGrows(ds: seq<Domain>, m: nat, i: nat)
    requires i < AXES && |ds| == m + 1 && m > 0
    ensures FarAfterNear(ds, i) <==>
              || EndOf(ds[m], i) == GreatestEnd(ds, i)
              || (FarAfterNear(ds[..m], i) && LeastOffset(ds[..m], i) == LeastOffset(ds, i) && GreatestEnd(ds[..m], i) == GreatestEnd(ds, i))
  {
    var earlier := ds[..m];
    if EndOf(ds[m], i) == GreatestEnd(ds, i) {
      LeastAndGreatest(ds, i);
      var j :| 0 <= j < |ds| && ds[j].offset[i] == LeastOffset(ds, i);
      assert j <= m;
    } else if FarAfterNear(ds, i) {
      var j, k :| 0 <= j <= k < |ds| && ds[j].offset[i] == LeastOffset(ds, i) && EndOf(ds[k], i) == GreatestEnd(ds, i);
      LeastAndGreatest(earlier, i);
      assert earlier[j].offset[i] == LeastOffset(ds, i) && EndOf(earlier[k], i) == GreatestEnd(ds, i);
    } else if FarAfterNear(earlier, i) {
      var j, k :| 0 <= j <= k < m && earlier[j].offset[i] == LeastOffset(earlier, i) && EndOf(earlier[k], i) == GreatestEnd(earlier, i);
      assert ds[j] == earlier[j] && ds[k] == earlier[k];
    }
  }

  /**
   * The container's box starts at the least offset and never reaches too far; it is the bounding box
   * on an axis exactly when a domain that reaches furthest comes no earlier than one that starts lowest.
   */
  lemma {:induction false} BoxIsExactWhenFarAfterNear(ds: seq<Domain>, i: nat)
    requires i < AXES && |ds| > 0 && forall k | 0 <= k < |ds| :: ds[k].size[i] > 0
    ensures ExtentOf(ds, i).offset == LeastOffset(ds, i)
    ensures ExtentOf(ds, i).size <= GreatestEnd(ds, i) - LeastOffset(ds, i)
    ensures ExtentOf(ds, i).size == GreatestEnd(ds, i) - LeastOffset(ds, i) <==> FarAfterNear(ds, i)
  {
    var m := |ds| - 1;
    if m == 0 {
      assert ExtentOf(ds[..0], i) == Extent(0, 1);
      assert ds[0].offset[i] == LeastOffset(ds, i) && EndOf(ds[0], i) == GreatestEnd(ds, i);
    } else {
      BoxIsExactWhenFarAfterNear(ds[..m], i);
      FarAfterNearGrows(ds, m, i);
    }
  }

  /** How far the k-th domain reaches from the box's offset when it is added. */
  function Reach(ds: seq<Domain>, k: nat, i: nat): int
    requires i < AXES && k < |ds|
  {
    EndOf(ds[k], i) - LeastOffset(ds[..k + 1], i)
  }

  /** The size of the box in all cases: the longest reach that any domain had when it was added. */
  lemma {:induction false} BoxIsLongestReach(ds: seq<Domain>, i: nat) returns (k: nat)
    requires i < AXES && |ds| > 0 && forall k | 0 <= k < |ds| :: ds[k].size[i] > 0
    ensures k < |ds| && ExtentOf(ds, i).size == Reach(ds, k, i)
    ensures forall j | 0 <= j < |ds| :: Reach(ds, j, i) <= ExtentOf(ds, i).size
    decreases |ds|
  {
    var m := |ds| - 1;
    assert ds[..m + 1] == ds;
    BoxIsExactWhenFarAfterNear(ds, i);
    if m == 0 {
      assert ExtentOf(ds[..0], i) == Extent(0, 1);
      k := 0;
    } else {
      k := BoxIsLongestReach(ds[..m], i);
      forall j | 0 <= j < m ensures Reach(ds[..m], j, i) == Reach(ds, j, i) {
        assert ds[..m][..j + 1] == ds[..j + 1];
      }
      if Reach(ds, m, i) >= Reach(ds, k, i) {
        k := m;
      }
    }
  }

  // ---- The container ------------------------------------------------------------------------------

  function Domains<T>(subdomains: seq<DomainData<T>>): (ds: seq<Domain>)
    ensures |ds| == |subdomains| && forall k | 0 <= k < |ds| :: ds[k] == subdomains[k].domain
  {
    seq(|subdomains|, k requires 0 <= k < |subdomains| => subdomains[k].domain)
  }

  class Container<T> {
    var subdomains: seq<DomainData<T>>
    var offset: Dims
    var size: Dims

    ghost predicate Valid()
      reads this
    {
      && (forall s | s in subdomains :: s.domain.Positive())
      && (forall i | 0 <= i < AXES :: Extent(offset[i], size[i]) == ExtentOf(Domains(subdomains), i))
    }

    ghost function Buffers(): set<object>
      reads this
    {
      set s | s in subdomains :: s.data
    }

    constructor ()
      ensures Valid() && subdomains == []
    {
      subdomains, offset, size := [], ZERO, ONE;
    }

    /** add: Valid ties offset and size to the subdomains in the order in which they were added. */
    method Add(entry: DomainData<T>)
      requires Valid() && entry.domain.Positive()
      modifies this
      ensures Valid() && subdomains == old(subdomains) + [entry]
    {
      ghost var before := Domains(subdomains);
      var back := entry.domain.Back();
      var first := subdomains == [];
      var offset0, size0 := offset, size;
      for i := 0 to AXES
        invariant subdomains == old(subdomains)
        invariant forall j | i <= j < AXES :: offset[j] == offset0[j] && size[j] == size0[j]
        invariant forall j | 0 <= j < i :: Extent(offset[j], size[j]) == Extended(Extent(offset0[j], size0[j]), first, entry.domain, j)
      {
        assert entry.domain.offset[i] <= back[i] && back[i] + 1 == EndOf(entry.domain, i);
        var o := if first then entry.domain.offset[i] else Min(entry.domain.offset[i], offset[i]);
        offset := offset[i := o];
        size := size[i := Max(back[i] + 1 - o, size[i])];
      }
      subdomains := subdomains + [entry];
      assert Domains(subdomains) == before + [entry.domain];
      assert (before + [entry.domain])[..|before|] == before;
    }

    ghost predicate Filled()
      reads this
    {
      forall s | s in subdomains :: s.data.Length == ScalarSize(s.elements)
    }

    /** getNumElements: the length of all subdomains laid end to end. */
    method GetNumElements() returns (n: nat)
      requires Filled()
      ensures n == |Flattened(subdomains)|
    {
      n := 0;
      for k := 0 to |subdomains|
        invariant n == |Flattened(subdomains[..k])|
      {
        FlattenedStep(subdomains, k);
        n := n + ScalarSize(subdomains[k].elements);
      }
      assert subdomains[..|subdomains|] == subdomains;
    }

    /** Finds an element by its index among all elements: the subdomain it is in and its place there. */
    method GetElement(index: nat) returns (found: Option<(nat, nat)>)
      requires Filled()
      ensures found.Some? <==> index < |Flattened(subdomains)|
      ensures found.Some? ==>
                && found.value.0 < |subdomains| && found.value.1 < subdomains[found.value.0].data.Length
                && subdomains[found.value.0].data[found.value.1] == Flattened(subdomains)[index]
                && |Flattened(subdomains[..found.value.0])| + found.value.1 == index
    {
      assert subdomains[..0] == [] && Flattened(subdomains[..0]) == [];
      hide Flattened;
      var elements := 0;
      for k := 0 to |subdomains|
        invariant elements == |Flattened(subdomains[..k])| && elements <= index
      {
        FlattenedStep(subdomains, k);
        FlattenedPrefix(subdomains, k + 1);
        var here := ScalarSize(subdomains[k].elements);
        assert subdomains[k] in subdomains && here == subdomains[k].data.Length;
        if elements + here > index {
          FoundIn(subdomains, k, index);
          return Some((k, index - elements));
        }
        elements := elements + here;
      }
      assert subdomains[..|subdomains|] == subdomains;
      return None;
    }
  }

  lemma FoundIn<T>(subdomains: seq<DomainData<T>>, k: nat, index: nat)
    requires k < |subdomains|
    requires |Flattened(subdomains[..k])| <= index < |Flattened(subdomains[..k])| + subdomains[k].data.Length
    ensures index < |Flattened(subdomains)|
    ensures subdomains[k].data[index - |Flattened(subdomains[..k])|] == Flattened(subdomains)[index]
  {
    FlattenedStep(subdomains, k);
    FlattenedPrefix(subdomains, k + 1);
    assert Flattened(subdomains)[index] == Flattened(subdomains[..k + 1])[index];
  }

  /** All elements, subdomain after subdomain. */
  ghost function Flattened<T>(subdomains: seq<DomainData<T>>): seq<T>
    reads set s | s in subdomains :: s.data
  {
    if |subdomains| == 0 then []
    else Flattened(subdomains[..|subdomains| - 1]) + subdomains[|subdomains| - 1].data[..]
  }

  lemma FlattenedStep<T>(subdomains: seq<DomainData<T>>, k: nat)
    requires k < |subdomains|
    ensures Flattened(subdomains[..k + 1]) == Flattened(subdomains[..k]) + subdomains[k].data[..]
  {
    assert subdomains[..k + 1][..k] == subdomains[..k];
  }

  lemma {:induction false} FlattenedPrefix<T>(subdomains: seq<DomainData<T>>, k: nat)
    requires k <= |subdomains|
    ensures Flattened(subdomains[..k]) <= Flattened(subdomains)
    decreases |subdomains| - k
  {
    if k < |subdomains| {
      FlattenedPrefix(subdomains, k + 1);
      FlattenedStep(subdomains, k);
    } else {
      assert subdomains[..k] == subdomains;
    }
  }
}
