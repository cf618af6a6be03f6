/** DCGroup and the datasets of an iteration: creating groups along a path, writing datasets, listing them. */
module DCGroup {
  import opened Options
  import opened FileNames
  import opened PathNames
  import opened GroupTree

  const SDC_GROUP_DATA := "data"

  // ---- Listing ------------------------------------------------------------------------------------

  /** `buffer` with new values from position `at` on. */
  ghost function Filled(buffer: seq<Entry>, at: nat, values: seq<Entry>): seq<Entry>
    requires at + |values| <= |buffer|
  {
    buffer[..at] + values + buffer[at + |values|..]
  }

  /** VisitObjCBType: without `entries`, a visit only counts. */
  class VisitParam {
    const entries: array?<Entry>
    var count: nat

    constructor (entries: array?<Entry>)
      ensures this.entries == entries && count == 0
    {
      this.entries, count := entries, 0;
    }

    ghost function Contents(): seq<Entry>
      reads entries
    {
      if entries == null then [] else entries[..]
    }

    ghost predicate RoomFor(n: nat)
      reads this, entries
    {
      entries != null ==> count + n <= entries.Length
    }

    /** `values` came on top of `start` entries that were there before. */
    ghost predicate Added(start: nat, before: seq<Entry>, values: seq<Entry>)
      reads this, entries
    {
      && count == start + |values|
      && (entries != null ==> count <= |before| && entries[..] == Filled(before, start, values))
    }

    lemma AddedNone(values: seq<Entry>)
      requires RoomFor(0) && values == []
      ensures Added(count, Contents(), values)
    {}

    lemma AddedParts(start: nat, before: seq<Entry>, values: seq<Entry>)
      requires Added(start, before, values)
      ensures count == start + |values| && (entries != null ==> entries.Length == |entries[..]|)
      ensures entries != null ==> start + |values| <= |before| && Contents() == Filled(before, start, values)
    {}

    lemma RoomLeft(start: nat, before: seq<Entry>, there: nat, next: nat, all: nat)
      requires count == start + there && there + next <= all
      requires entries != null ==> entries.Length == |before| && start + all <= |before|
      ensures RoomFor(next)
    {}

    /** Values on top of values. */
    lemma AddedTwice(start: nat, before: seq<Entry>, first: seq<Entry>, mid: seq<Entry>, second: seq<Entry>)
      requires entries != null ==> start + |first| <= |before| && mid == Filled(before, start, first)
      requires Added(start + |first|, mid, second)
      ensures Added(start, before, first + second)
    {}
  }

  lemma LinkEntries(link: Link, baseName: string)
    requires WellFormed(link.node)
    ensures link.node.Group? ==>
              && |OfLink(link)| == |Datasets(link.node)|
              && Entries(baseName, OfLink(link)) == Entries(baseName + (link.name + "/"), Datasets(link.node))
    ensures link.node.Dataset? ==> |OfLink(link)| == 1 && Entries(baseName, OfLink(link)) == [Entry(baseName + link.name, link.node.kind)]
    ensures link.node.Other? ==> OfLink(link) == []
  {
    if link.node.Group? {
      var found := Datasets(link.node);
      forall k | 0 <= k < |found| ensures found[k].path != [] {
        assert found[k] in found;
        DatasetsExactly(link.node, found[k]);
      }
      EntriesUnder(baseName, link.name, found);
      assert baseName + link.name + "/" == baseName + (link.name + "/");
    }
  }

  lemma {:induction false} FewerSoFar(n: Node, i: nat)
    requires n.Group? && i <= |n.links|
    ensures |DatasetsUpTo(n, i)| <= |Datasets(n)|
    decreases |n.links| - i
  {
    if i < |n.links| {
      FewerSoFar(n, i + 1);
    }
  }

  lemma VisitNone(baseName: string, n: Node)
    requires n.Group?
    ensures Entries(baseName, DatasetsUpTo(n, 0)) == [] && DatasetsUpTo(n, |n.links|) == Datasets(n)
  {}

  lemma VisitStep(baseName: string, n: Node, i: nat)
    requires n.Group? && i < |n.links| && WellFormed(n)
    ensures WellFormed(n.links[i].node)
    ensures |DatasetsUpTo(n, i)| + |OfLink(n.links[i])| <= |Datasets(n)|
    ensures Entries(baseName, DatasetsUpTo(n, i + 1))
         == Entries(baseName, DatasetsUpTo(n, i)) + Entries(baseName, OfLink(n.links[i]))
  {
    FewerSoFar(n, i + 1);
    EntriesAppend(baseName, DatasetsUpTo(n, i), OfLink(n.links[i]));
  }

  /** getEntriesInternal: counts the datasets below a group and writes an entry for each of them. */
  method GetEntriesInternal(base: Node, baseName: string, param: VisitParam)
    requires base.Group? && WellFormed(base) && param.RoomFor(|Datasets(base)|)
    modifies param, param.entries
    ensures param.Added(old(param.count), old(param.Contents()), Entries(baseName, Datasets(base)))
    decreases base
  {
    ghost var start, before := param.count, param.Contents();
    hide *;
    VisitNone(baseName, base);
    param.AddedNone(Entries(baseName, DatasetsUpTo(base, 0)));
    for i := 0 to |base.links|
      invariant param.Added(start, before, Entries(baseName, DatasetsUpTo(base, i)))
    {
      ghost var mid := param.Contents();
      param.AddedParts(start, before, Entries(baseName, DatasetsUpTo(base, i)));
      VisitStep(baseName, base, i);
      param.RoomLeft(start, before, |Entries(baseName, DatasetsUpTo(base, i))|, |OfLink(base.links[i])|, |Datasets(base)|);
      VisitLink(base.links[i], baseName, param);
      param.AddedTwice(start, before, Entries(baseName, DatasetsUpTo(base, i)), mid, Entries(baseName, OfLink(base.links[i])));
    }
  }

  /** One round of the loop: a group is visited in turn, a dataset is counted and listed. */
  method VisitLink(link: Link, baseName: string, param: VisitParam)
    requires WellFormed(link.node) && param.RoomFor(|OfLink(link)|)
    modifies param, param.entries
    ensures param.Added(old(param.count), old(param.Contents()), Entries(baseName, OfLink(link)))
    decreases link
  {
    LinkEntries(link, baseName);
    hide Entries, OfLink, Datasets, WellFormed;
    var currentBaseName := baseName;
    if param.entries != null {
      var currentEntryName := link.name;
      if link.node.Group? {
        currentEntryName := currentEntryName + "/";
      }
      currentBaseName := currentBaseName + currentEntryName;
    }
    if link.node.Group? {
      GetEntriesInternal(link.node, currentBaseName, param);
    }
    if link.node.Dataset? {
      if param.entries != null {
        param.entries[param.count] := Entry(currentBaseName, link.node.kind);
      }
      param.count := param.count + 1;
    }
  }

  /** getEntriesForID, called once to count and once to fill entries of that number. */
  method GetEntries(group: Node) returns (entries: seq<Entry>)
    requires group.Group? && WellFormed(group)
    ensures entries == Entries("", Datasets(group))
  {
    var counting := new VisitParam(null);
    GetEntriesInternal(group, "", counting);
    var buffer := new Entry[counting.count](_ => Entry("", 0));
    var filling := new VisitParam(buffer);
    GetEntriesInternal(group, "", filling);
    entries := buffer[..];
  }

  // ---- Creating groups ----------------------------------------------------------------------------

  /** Something on the path is there and is no group. */
  ghost predicate Blocked(root: Node, path: seq<string>) {
    exists k :: 0 <= k <= |path| && Resolve(root, path[..k]).Some? && !Resolve(root, path[..k]).value.Group?
  }

  lemma BlockedExactly(root: Node, path: seq<string>)
    ensures !Blocked(root, path) <==>
              forall k | 0 <= k <= |path| :: var there := Resolve(root, path[..k]); there.Some? ==> there.value.Group?
  {}

  ghost predicate IsGroup(root: Node, path: seq<string>) {
    Resolve(root, path).Some? && Resolve(root, path).value.Group?
  }

  /** b is a with groups all along the path, and everything else is as it was. */
  ghost predicate GroupsAdded(a: Node, b: Node, path: seq<string>) {
    && WellFormed(b)
    && (forall q | q <= path :: IsGroup(b, q))
    && (forall q | !(q <= path) :: Resolve(b, q) == Resolve(a, q))
  }

  lemma {:induction false} ResolveConcat(n: Node, p: seq<string>, q: seq<string>)
    ensures Resolve(n, p + q) == if Resolve(n, p).None? then None else Resolve(Resolve(n, p).value, q)
    decreases |p|
  {
    if p == [] {
      assert p + q == q;
    } else {
      assert (p + q)[1..] == p[1..] + q;
      if n.Group? && Child(n.links, p[0]).Some? {
        ResolveConcat(Child(n.links, p[0]).value, p[1..], q);
      }
    }
  }

  lemma PrefixOfNext(q: seq<string>, path: seq<string>, name: string)
    ensures q <= path + [name] <==> q <= path || q == path + [name]
  {}

  /** One more group on the way, that was there or is new. */
  lemma GroupThere(a: Node, b: Node, path: seq<string>, name: string)
    requires GroupsAdded(a, b, path) && IsGroup(b, path + [name])
    ensures GroupsAdded(a, b, path + [name])
  {
    hide Resolve, WellFormed;
    forall q | q <= path + [name] ensures IsGroup(b, q) {
      PrefixOfNext(q, path, name);
    }
    forall q | !(q <= path + [name]) ensures Resolve(b, q) == Resolve(a, q) {
      PrefixOfNext(q, path, name);
    }
  }

  /** Nothing lies beyond a path that leads nowhere. */
  lemma NothingBeyond(n: Node, path: seq<string>, q: seq<string>)
    requires Resolve(n, path).None? && path <= q
    ensures Resolve(n, q).None?
  {}

  lemma GroupMade(a: Node, b: Node, path: seq<string>, name: string)
    requires GroupsAdded(a, b, path) && Resolve(b, path + [name]).None? && IsName(name)
    ensures IsGroup(b, path) && GroupsAdded(a, PutAt(b, path, name, Group([])), path + [name])
  {
    assert path <= path;
    assert IsGroup(b, path);
    var t := PutAt(b, path, name, Group([]));
    PutAtIsWellFormed(b, path, name, Group([]));
    forall q | q <= path + [name] ensures IsGroup(t, q) {
      PutAtEffect(b, path, name, Group([]), q);
      PrefixOfNext(q, path, name);
      EmptyGroup(q[|q|..]);
      hide PutAt, WellFormed;
    }
    forall q | !(q <= path + [name]) ensures Resolve(t, q) == Resolve(a, q) {
      PutAtEffect(b, path, name, Group([]), q);
      PrefixOfNext(q, path, name);
      if path + [name] <= q {
        NothingBeyond(b, path + [name], q);
        EmptyGroup(q[|path| + 1..]);
      }
      hide PutAt, WellFormed, Resolve;
    }
  }

  lemma EmptyGroup(q: seq<string>)
    ensures Resolve(Group([]), q) == if q == [] then Some(Group([])) else None
  {}

  lemma ResolveNext(n: Node, path: seq<string>, name: string)
    requires Resolve(n, path).Some?
    ensures Resolve(n, path + [name]) ==
            if Resolve(n, path).value.Group? then Child(Resolve(n, path).value.links, name) else None
  {
    ResolveConcat(n, path, [name]);
  }

  lemma NotBlockedNext(n: Node, path: seq<string>, name: string)
    requires !Blocked(n, path)
    ensures Blocked(n, path + [name]) <==> Resolve(n, path + [name]).Some? && !IsGroup(n, path + [name])
  {
    var next := path + [name];
    assert next[..|next|] == next;
    forall k | 0 <= k <= |path| ensures next[..k] == path[..k] {
    }
  }

  /** Once blocked, blocked on every longer path. */
  lemma StaysBlocked(n: Node, path: seq<string>, more: seq<string>)
    requires Blocked(n, path)
    ensures Blocked(n, path + more)
  {
    var k :| 0 <= k <= |path| && Resolve(n, path[..k]).Some? && !Resolve(n, path[..k]).value.Group?;
    assert (path + more)[..k] == path[..k];
  }

  /** A path that leads to a group is not blocked, and all the way there are groups. */
  lemma {:induction false} GroupsAllTheWay(n: Node, path: seq<string>)
    requires IsGroup(n, path)
    ensures !Blocked(n, path) && forall q | q <= path :: IsGroup(n, q)
  {
    forall q | q <= path ensures IsGroup(n, q) {
      assert path == q + path[|q|..];
      ResolveConcat(n, q, path[|q|..]);
    }
    forall k | 0 <= k <= |path| ensures IsGroup(n, path[..k]) {
      assert path[..k] <= path;
    }
  }

  /** `b` is `a` with the groups along a path; `created` says whether the last of them has just been made. */
  ghost predicate Progress(a: Node, b: Node, path: seq<string>, created: bool) {
    && GroupsAdded(a, b, path) && !Blocked(a, path)
    && if created then Resolve(b, path) == Some(Group([])) && Resolve(a, path).None? else a == b
  }

  /** One token of create. */
  lemma CreateStep(a: Node, b: Node, path: seq<string>, name: string, created: bool)
    requires Progress(a, b, path, created) && IsName(name)
    ensures IsGroup(b, path) && (created ==> Resolve(b, path + [name]).None?)
    ensures Resolve(b, path + [name]).None? ==> Progress(a, PutAt(b, path, name, Group([])), path + [name], true)
    ensures IsGroup(b, path + [name]) ==> Progress(a, b, path + [name], false)
    ensures Resolve(b, path + [name]).Some? && !IsGroup(b, path + [name]) ==> a == b && Blocked(a, path + [name])
  {
    var next := path + [name];
    assert IsGroup(b, path) by {
      assert path <= path;
    }
    ResolveNext(b, path, name);
    NotBlockedNext(a, path, name);
    if created {
      NothingBeyond(a, path, next);
    }
    hide Blocked, Resolve, WellFormed;
    if Resolve(b, next).None? {
      GroupMade(a, b, path, name);
      PutAtEffect(b, path, name, Group([]), next);
      EmptyGroup([]);
      assert next[|path| + 1..] == [];
    }
    if IsGroup(b, next) {
      GroupThere(a, b, path, name);
    }
  }

  /** The groups on the way to a path, with the one at its end. */
  function OnTheWay(path: seq<string>): seq<seq<string>> {
    if path == [] then [] else OnTheWay(path[..|path| - 1]) + [path]
  }

  lemma {:induction false} OnTheWayAt(path: seq<string>)
    ensures |OnTheWay(path)| == |path| && forall k | 0 <= k < |path| :: OnTheWay(path)[k] == path[..k + 1]
  {
    if path != [] {
      var m := |path| - 1;
      OnTheWayAt(path[..m]);
      forall k | 0 <= k < |path| ensures OnTheWay(path)[k] == path[..k + 1] {
        assert k < m ==> path[..m][..k + 1] == path[..k + 1];
        assert path[..m + 1] == path;
      }
    }
  }

  /** The token at hand and those of the rest are what is missing from all the tokens. */
  ghost predicate Ahead(tokens: seq<string>, current: seq<string>, token: Option<string>, rest: string) {
    tokens == current + if token.Some? then [token.value] + Tokens(rest) else []
  }

  lemma AheadOfAll(path: string)
    ensures Ahead(Tokens(path), [], Strtok(path).0, Strtok(path).1) && OnTheWay([]) == []
  {}

  lemma AheadOfNext(tokens: seq<string>, current: seq<string>, name: string, rest: string)
    requires Ahead(tokens, current, Some(name), rest)
    ensures tokens == (current + [name]) + Tokens(rest)
    ensures Ahead(tokens, current + [name], Strtok(rest).0, Strtok(rest).1)
    ensures OnTheWay(current + [name]) == OnTheWay(current) + [current + [name]]
  {}

  lemma NoneAhead(tokens: seq<string>, current: seq<string>, rest: string)
    requires Ahead(tokens, current, None, rest)
    ensures current == tokens
  {}

  lemma StartOfPath(a: Node)
    requires a.Group? && WellFormed(a)
    ensures Progress(a, a, [], false)
  {}

  lemma ThereAlready(n: Node, path: seq<string>)
    requires WellFormed(n) && Resolve(n, path).Some?
    ensures IsGroup(n, path) ==> !Blocked(n, path) && GroupsAdded(n, n, path)
    ensures !IsGroup(n, path) ==> Blocked(n, path)
  {
    if IsGroup(n, path) {
      GroupsAllTheWay(n, path);
    } else {
      assert path[..|path|] == path;
    }
  }

  // ---- Writing datasets ---------------------------------------------------------------------------

  /** Where a user's name leads to: the group of the iteration, and the tokens of the name. */
  function DataPath(id: nat, name: string): seq<string> {
    [SDC_GROUP_DATA, Dec(id)] + Tokens(name)
  }

  /** b is a with a dataset at `target` instead of what was there, and groups on the way. */
  ghost predicate DatasetAdded(a: Node, b: Node, target: seq<string>, kind: int) {
    && Resolve(b, target) == Some(Dataset(kind))
    && (forall q | q <= target && q != target :: IsGroup(b, q))
    && (forall q | target <= q && q != target :: Resolve(b, q).None?)
    && (forall q | !(q <= target) && !(target <= q) :: Resolve(b, q) == Resolve(a, q))
  }

  lemma DatasetWritten(a: Node, b: Node, path: seq<string>, name: string, kind: int)
    requires GroupsAdded(a, b, path) && IsName(name)
    ensures IsGroup(b, path)
    ensures var t := PutAt(b, path, name, Dataset(kind));
            WellFormed(t) && t.Group? && DatasetAdded(a, t, path + [name], kind)
  {
    assert path <= path;
    assert IsGroup(b, path);
    var t, target := PutAt(b, path, name, Dataset(kind)), path + [name];
    PutAtIsWellFormed(b, path, name, Dataset(kind));
    PutAtEffect(b, path, name, Dataset(kind), target);
    assert target[|path| + 1..] == [];
    hide PutAt, WellFormed;
    forall q | q <= target && q != target ensures IsGroup(t, q) {
      PutAtEffect(b, path, name, Dataset(kind), q);
      PrefixOfNext(q, path, name);
    }
    forall q | target <= q && q != target ensures Resolve(t, q).None? {
      PutAtEffect(b, path, name, Dataset(kind), q);
      assert q[|path| + 1..] != [];
    }
    forall q | !(q <= target) && !(target <= q) ensures Resolve(t, q) == Resolve(a, q) {
      PutAtEffect(b, path, name, Dataset(kind), q);
      PrefixOfNext(q, path, name);
    }
  }

  class File {
    var root: Node

    constructor ()
      ensures Valid() && root == Group([])
    {
      root := Group([]);
    }

    ghost predicate Valid()
      reads this
    {
      root.Group? && WellFormed(root)
    }

    /**
     * DCGroup::create: opens the groups along a path and creates the missing ones; `handles` are the groups
     * opened on the way. It fails when something on the path is no group.
     */
    method Create(path: string) returns (current: seq<string>, handles: seq<seq<string>>, ok: bool)
      requires Valid()
      modifies this
      ensures Valid() && (ok <==> !Blocked(old(root), Tokens(path)))
      ensures ok <==> forall k | 0 <= k <= |Tokens(path)| ::
                        var there := Resolve(old(root), Tokens(path)[..k]); there.Some? ==> there.value.Group?
      ensures !ok ==> root == old(root)
      ensures ok ==> current == Tokens(path) && GroupsAdded(old(root), root, Tokens(path))
      ensures ok ==> |handles| == |Tokens(path)| && forall k | 0 <= k < |handles| :: handles[k] == Tokens(path)[..k + 1]
    {
      ghost var before := root;
      var mustCreate := false;
      current, handles := [], [];
      StartOfPath(root);
      var (token, rest) := Strtok(path);
      BlockedExactly(root, Tokens(path));
      hide Progress, Blocked, GroupsAdded, WellFormed, Strtok, IsName, Tokens, Ahead, OnTheWay, Resolve;
      AheadOfAll(path);
      while token.Some?
        invariant Ahead(Tokens(path), current, token, rest)
        invariant Progress(before, root, current, mustCreate)
        invariant handles == OnTheWay(current) && (token.Some? ==> IsName(token.value))
        decreases |rest|, token.Some?
      {
        var name := token.value;
        AheadOfNext(Tokens(path), current, name, rest);
        mustCreate, ok := NextGroup(before, current, name, mustCreate);
        if !ok {
          StaysBlocked(before, current + [name], Tokens(rest));
          return;
        }
        current := current + [name];
        handles := handles + [current];
        var (nextToken, nextRest) := Strtok(rest);
        token, rest := nextToken, nextRest;
      }
      NoneAhead(Tokens(path), current, rest);
      EndOfPath(before, root, current, mustCreate);
      OnTheWayAt(current);
      ok := true;
    }

    /** DCGroup::openCreate: a path that is there is opened, any other created. */
    method OpenCreate(path: string) returns (current: seq<string>, ok: bool)
      requires Valid()
      modifies this
      ensures Valid() && (ok <==> !Blocked(old(root), Tokens(path)))
      ensures !ok ==> root == old(root)
      ensures ok ==> current == Tokens(path) && GroupsAdded(old(root), root, Tokens(path))
    {
      hide Tokens, Blocked, GroupsAdded, WellFormed, Resolve;
      current := Tokens(path);
      if Resolve(root, current).Some? {
        ok := Resolve(root, current).value.Group?;
        ThereAlready(root, current);
      } else {
        var handles;
        current, handles, ok := Create(path);
      }
    }

    /**
     * Writing a dataset under a user's name: the groups of its path are opened or created, and the dataset
     * takes the place of whatever had its name.
     */
    method Write(id: nat, name: string, kind: int) returns (ok: bool)
      requires Valid() && IsDataName(name)
      modifies this
      ensures Valid() && (ok <==> !Blocked(old(root), Tokens(GetFullDataPath(name, SDC_GROUP_DATA, id).0)))
      ensures !ok ==> root == old(root)
      ensures ok ==> DatasetAdded(old(root), root, DataPath(id, name), kind)
    {
      FullPathTokens(name, SDC_GROUP_DATA, id);
      var (groupPath, datasetName) := GetFullDataPath(name, SDC_GROUP_DATA, id);
      hide Tokens, Blocked, GroupsAdded, WellFormed, IsName, DatasetAdded, GetFullDataPath, Resolve;
      var current;
      current, ok := OpenCreate(groupPath);
      if ok {
        DatasetWritten(old(root), root, current, datasetName, kind);
        root := PutAt(root, current, datasetName, Dataset(kind));
      }
    }

    /** One round of the loop: the group of a token is opened, or created if it is not there. */
    method NextGroup(ghost before: Node, current: seq<string>, name: string, mustCreate: bool)
      returns (created: bool, ok: bool)
      requires Progress(before, root, current, mustCreate) && IsName(name)
      modifies this
      ensures ok ==> Progress(before, root, current + [name], created)
      ensures !ok ==> root == before && Blocked(before, current + [name])
    {
      created, ok := mustCreate, true;
      CreateStep(before, root, current, name, mustCreate);
      hide Progress, Resolve, Blocked;
      var next := current + [name];
      if mustCreate || Resolve(root, next).None? {
        root := PutAt(root, current, name, Group([]));
        created := true;
      } else if !Resolve(root, next).value.Group? {
        ok := false;
      } else {
        created := false;
      }
    }
  }

  lemma EndOfPath(a: Node, b: Node, path: seq<string>, created: bool)
    requires Progress(a, b, path, created)
    ensures GroupsAdded(a, b, path) && !Blocked(a, path) && b.Group? && WellFormed(b)
  {
    RootIsGroup(a, b, path);
  }

  lemma RootIsGroup(a: Node, b: Node, path: seq<string>)
    requires GroupsAdded(a, b, path)
    ensures b.Group? && WellFormed(b)
  {
    assert [] <= path;
    assert IsGroup(b, []);
  }

  // ---- Listing after writing ----------------------------------------------------------------------

  /** The entries of a group, if there is one. */
  ghost function Listing(root: Node, group: seq<string>): seq<Entry> {
    if IsGroup(root, group) then Entries("", Datasets(Resolve(root, group).value)) else []
  }

  lemma ListedAt(root: Node, group: seq<string>, e: Entry)
    requires WellFormed(root)
    ensures e in Listing(root, group) <==>
              && Tokens(e.name) != [] && e.name == Join(Tokens(e.name))
              && Resolve(root, group + Tokens(e.name)) == Some(Dataset(e.kind))
  {
    ResolveConcat(root, group, Tokens(e.name));
    if IsGroup(root, group) {
      ResolvedNames(root, group);
      GroupTree.ListedExactly(Resolve(root, group).value, e);
    }
  }

  lemma PrefixUnder(group: seq<string>, p: seq<string>, q: seq<string>)
    ensures group + p <= group + q <==> p <= q
    ensures group + p == group + q <==> p == q
  {
    if p <= q {
      assert group + q == (group + p) + q[|p|..];
    }
    if group + p <= group + q {
      assert p == (group + p)[|group|..] == (group + q)[|group|..|group| + |p|] == q[..|p|];
    }
  }

  /** Where datasets are below a group after adding one. */
  lemma DatasetsUnder(a: Node, b: Node, group: seq<string>, tokens: seq<string>, kind: int, q: seq<string>, k: int)
    requires DatasetAdded(a, b, group + tokens, kind)
    requires q <= tokens && q != tokens ==> Resolve(a, group + q) != Some(Dataset(k))
    ensures Resolve(b, group + q) == Some(Dataset(k)) <==>
            if tokens <= q then q == tokens && k == kind else Resolve(a, group + q) == Some(Dataset(k))
  {
    PrefixUnder(group, tokens, q);
    PrefixUnder(group, q, tokens);
    if q <= tokens && q != tokens {
      assert IsGroup(b, group + q);
    }
    hide Resolve;
  }

  /** On the way to a group that was there or could be made there is no dataset. */
  lemma NoDatasetOnTheWay(a: Node, id: nat, name: string, q: seq<string>, k: int)
    requires IsDataName(name) && !Blocked(a, Tokens(GetFullDataPath(name, SDC_GROUP_DATA, id).0))
    ensures q <= Tokens(name) && q != Tokens(name) ==> Resolve(a, [SDC_GROUP_DATA, Dec(id)] + q) != Some(Dataset(k))
  {
    FullPathTokens(name, SDC_GROUP_DATA, id);
    var group, path := [SDC_GROUP_DATA, Dec(id)], Tokens(GetFullDataPath(name, SDC_GROUP_DATA, id).0);
    var last := GetFullDataPath(name, SDC_GROUP_DATA, id).1;
    hide Tokens, Dec, GetFullDataPath;
    if q <= Tokens(name) && q != Tokens(name) {
      PrefixUnder(group, q, Tokens(name));
      PrefixOfNext(group + q, path, last);
      OpenOnTheWay(a, path, group + q);
    }
  }

  lemma OpenOnTheWay(a: Node, path: seq<string>, q: seq<string>)
    requires !Blocked(a, path) && q <= path
    ensures Resolve(a, q).Some? ==> Resolve(a, q).value.Group?
  {
    assert q == path[..|q|];
  }

  /**
   * After writing under a name, the listing of the iteration has that name with its repeated slashes
   * collapsed; it has none below it, and all other entries are as before.
   */
  lemma ListedAfterWrite(a: Node, b: Node, id: nat, name: string, kind: int, e: Entry)
    requires WellFormed(a) && WellFormed(b) && IsDataName(name)
    requires DatasetAdded(a, b, DataPath(id, name), kind)
    requires !Blocked(a, Tokens(GetFullDataPath(name, SDC_GROUP_DATA, id).0))
    ensures var group := [SDC_GROUP_DATA, Dec(id)];
            e in Listing(b, group) <==>
              if Tokens(name) <= Tokens(e.name) then e == Entry(Join(Tokens(name)), kind) else e in Listing(a, group)
  {
    var group, tokens, listed := [SDC_GROUP_DATA, Dec(id)], Tokens(name), Tokens(e.name);
    ListedAt(a, group, e);
    ListedAt(b, group, e);
    SplitTokens(name);
    TokensOfJoin(tokens);
    NoDatasetOnTheWay(a, id, name, listed, e.kind);
    DatasetsUnder(a, b, group, tokens, kind, listed, e.kind);
    hide *;
  }
}
