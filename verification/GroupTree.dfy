/** The groups and datasets of a file as a tree of links, and which datasets it has. */
module GroupTree {
  import opened Options
  import opened PathNames

  /** `kind` stands for the type of a dataset; `Other` is any object that is neither group nor dataset. */
  datatype Node = Dataset(kind: int) | Group(links: seq<Link>) | Other

  datatype Link = Link(name: string, node: Node)

  /** The order of HDF5's index by name. */
  predicate Before(a: string, b: string) {
    if b == "" then false
    else if a == "" then true
    else a[0] < b[0] || (a[0] == b[0] && Before(a[1..], b[1..]))
  }

  /** It orders all strings, so the index has one place for every name. */
  lemma {:induction false} BeforeIsOrder(a: string, b: string, c: string)
    ensures !(Before(a, b) && Before(b, a)) && (a != b ==> Before(a, b) || Before(b, a)) && (a == b ==> !Before(a, b))
    ensures Before(a, b) && Before(b, c) ==> Before(a, c)
    decreases |a|
  {
    if a != "" {
      BeforeIsOrder(a[1..], if b == "" then "" else b[1..], if c == "" then "" else c[1..]);
      assert b != "" && a[0] == b[0] && a[1..] == b[1..] ==> a == [a[0]] + a[1..] == b;
    }
  }

  /** The links of a group: in ascending order of their names, and no name twice. */
  ghost predicate Distinct(links: seq<Link>) {
    && (forall i | 0 <= i < |links| :: IsName(links[i].name))
    && (forall i, j | 0 <= i < j < |links| :: links[i].name != links[j].name)
    && (forall i, j | 0 <= i < j < |links| :: Before(links[i].name, links[j].name))
  }

  ghost predicate WellFormed(n: Node) {
    n.Group? ==> Distinct(n.links) && forall i | 0 <= i < |n.links| :: WellFormed(n.links[i].node)
  }

  /** The place of a link. */
  function Find(links: seq<Link>, name: string): (r: nat)
    ensures r <= |links| && (r < |links| ==> links[r].name == name)
    ensures forall k | 0 <= k < r :: links[k].name != name
  {
    if links == [] then 0
    else if links[0].name == name then 0
    else
      var r := Find(links[1..], name);
      assert forall k | 0 < k < r + 1 :: links[k] == links[1..][k - 1];
      r + 1
  }

  function Child(links: seq<Link>, name: string): Option<Node> {
    var k := Find(links, name);
    if k < |links| then Some(links[k].node) else None
  }

  /** What a path leads to. */
  function Resolve(n: Node, path: seq<string>): Option<Node>
    decreases |path|
  {
    if path == [] then Some(n)
    else if !n.Group? then None
    else
      var child := Child(n.links, path[0]);
      if child.None? then None else Resolve(child.value, path[1..])
  }

  lemma ResolveStep(n: Node, path: seq<string>)
    requires n.Group? && path != []
    ensures Resolve(n, path) ==
            if Child(n.links, path[0]).None? then None else Resolve(Child(n.links, path[0]).value, path[1..])
  {}

  lemma ChildAt(links: seq<Link>, k: nat)
    requires Distinct(links) && k < |links|
    ensures Child(links, links[k].name) == Some(links[k].node)
  {}

  lemma ChildLink(links: seq<Link>, name: string)
    requires Child(links, name).Some?
    ensures exists k :: 0 <= k < |links| && links[k] == Link(name, Child(links, name).value)
  {}

  // ---- Changing links -----------------------------------------------------------------------------

  /** Where a new link goes in the order of names. */
  function Place(links: seq<Link>, name: string): (k: nat)
    ensures k <= |links|
  {
    if links == [] || Before(name, links[0].name) then 0 else 1 + Place(links[1..], name)
  }

  /** A link to `node`, in place of one with the same name. */
  function PutLink(links: seq<Link>, name: string, node: Node): seq<Link> {
    var k := Find(links, name);
    if k < |links| then links[k := Link(name, node)]
    else
      var p := Place(links, name);
      links[..p] + [Link(name, node)] + links[p..]
  }

  lemma ReplaceDistinct(links: seq<Link>, k: nat, link: Link)
    requires Distinct(links) && k < |links| && links[k].name == link.name
    ensures var changed := links[k := link];
            && Distinct(changed) && link in changed
            && (forall l | l in changed :: l in links || l == link)
            && (forall l | l in links && l.name != link.name :: l in changed)
  {
    var changed := links[k := link];
    assert changed[k] == link;
    forall l | l in links && l.name != link.name ensures l in changed {
      var i :| 0 <= i < |links| && links[i] == l;
      assert changed[i] == l;
    }
  }

  /** The new name comes behind the names that are before it, and before the others. */
  lemma {:induction false} PlaceInOrder(links: seq<Link>, name: string)
    requires Distinct(links) && forall k | 0 <= k < |links| :: links[k].name != name
    ensures var p := Place(links, name);
            && (forall k | 0 <= k < p :: Before(links[k].name, name))
            && (forall k | p <= k < |links| :: Before(name, links[k].name))
    decreases |links|
  {
    if links != [] {
      if Before(name, links[0].name) {
        forall k | 0 <= k < |links| ensures Before(name, links[k].name) {
          BeforeIsOrder(name, links[0].name, links[k].name);
        }
      } else {
        BeforeIsOrder(name, links[0].name, "");
        PlaceInOrder(links[1..], name);
      }
    }
  }

  lemma InsertDistinct(links: seq<Link>, p: nat, link: Link)
    requires Distinct(links) && p <= |links| && IsName(link.name) && forall k | 0 <= k < |links| :: links[k].name != link.name
    requires forall k | 0 <= k < p :: Before(links[k].name, link.name)
    requires forall k | p <= k < |links| :: Before(link.name, links[k].name)
    ensures var changed := links[..p] + [link] + links[p..];
            && Distinct(changed) && link in changed
            && (forall l | l in changed :: l in links || l == link)
            && (forall l | l in links :: l in changed)
  {}

  lemma PutLinkDistinct(links: seq<Link>, name: string, node: Node)
    requires Distinct(links) && IsName(name)
    ensures Distinct(PutLink(links, name, node))
    ensures forall l | l in PutLink(links, name, node) :: l in links || l == Link(name, node)
    ensures Link(name, node) in PutLink(links, name, node)
    ensures forall l | l in links && l.name != name :: l in PutLink(links, name, node)
  {
    var k := Find(links, name);
    hide Distinct;
    if k < |links| {
      ReplaceDistinct(links, k, Link(name, node));
    } else {
      PlaceInOrder(links, name);
      InsertDistinct(links, Place(links, name), Link(name, node));
    }
  }

  lemma ChildAfterPut(links: seq<Link>, name: string, node: Node, other: string)
    requires Distinct(links) && IsName(name)
    ensures Child(PutLink(links, name, node), other) == if other == name then Some(node) else Child(links, other)
  {
    PutLinkDistinct(links, name, node);
    var changed := PutLink(links, name, node);
    hide PutLink, Distinct;
    if Child(links, other).Some? && other != name {
      ChildLink(links, other);
      var k :| 0 <= k < |links| && links[k] == Link(other, Child(links, other).value);
      InLinks(changed, links[k]);
    } else if other == name {
      InLinks(changed, Link(name, node));
    } else if Child(changed, other).Some? {
      ChildLink(changed, other);
      var k :| 0 <= k < |changed| && changed[k] == Link(other, Child(changed, other).value);
      assert changed[k] in changed;
      InLinks(links, changed[k]);
    }
  }

  lemma InLinks(links: seq<Link>, l: Link)
    requires Distinct(links) && l in links
    ensures Child(links, l.name) == Some(l.node)
  {}

  /** A link to `node` in the group at `path`. */
  function PutAt(n: Node, path: seq<string>, name: string, node: Node): Node
    requires Resolve(n, path).Some? && Resolve(n, path).value.Group?
    decreases |path|
  {
    if path == [] then Group(PutLink(n.links, name, node))
    else Group(PutLink(n.links, path[0], PutAt(Child(n.links, path[0]).value, path[1..], name, node)))
  }

  lemma ChildIsWellFormed(n: Node, name: string)
    requires WellFormed(n) && n.Group? && Child(n.links, name).Some?
    ensures IsName(name) && WellFormed(Child(n.links, name).value)
  {}

  lemma PutIsWellFormed(links: seq<Link>, name: string, node: Node)
    requires WellFormed(Group(links)) && IsName(name) && WellFormed(node)
    ensures WellFormed(Group(PutLink(links, name, node)))
  {
    PutLinkDistinct(links, name, node);
    var changed := PutLink(links, name, node);
    forall i | 0 <= i < |changed| ensures WellFormed(changed[i].node) {
      assert changed[i] in changed;
      if changed[i] in links {
        var k :| 0 <= k < |links| && links[k] == changed[i];
      }
    }
  }

  lemma {:induction false} PutAtIsWellFormed(n: Node, path: seq<string>, name: string, node: Node)
    requires WellFormed(n) && IsName(name) && WellFormed(node)
    requires Resolve(n, path).Some? && Resolve(n, path).value.Group?
    ensures WellFormed(PutAt(n, path, name, node))
    decreases |path|
  {
    if path == [] {
      PutIsWellFormed(n.links, name, node);
    } else {
      ChildIsWellFormed(n, path[0]);
      PutAtIsWellFormed(Child(n.links, path[0]).value, path[1..], name, node);
      PutIsWellFormed(n.links, path[0], PutAt(Child(n.links, path[0]).value, path[1..], name, node));
      hide WellFormed;
    }
  }

  /** A new link changes what its own path and the paths through it lead to, and nothing else. */
  lemma {:induction false} PutAtEffect(n: Node, path: seq<string>, name: string, node: Node, q: seq<string>)
    requires WellFormed(n) && IsName(name) && WellFormed(node)
    requires Resolve(n, path).Some? && Resolve(n, path).value.Group?
    ensures var t := PutAt(n, path, name, node);
            && (path + [name] <= q ==> Resolve(t, q) == Resolve(node, q[|path| + 1..]))
            && (q <= path ==> Resolve(t, q).Some? && Resolve(t, q).value.Group?)
            && (!(path + [name] <= q) && !(q <= path) ==> Resolve(t, q) == Resolve(n, q))
    decreases |path|
  {
    if q == [] {
    } else if path == [] {
      PutHere(n, name, node, q);
    } else {
      assert Distinct(n.links);
      hide WellFormed, Distinct, PutLink, IsName;
      ChildIsWellFormed(n, path[0]);
      var child := Child(n.links, path[0]).value;
      ChildAfterPut(n.links, path[0], PutAt(child, path[1..], name, node), q[0]);
      PutAtEffect(child, path[1..], name, node, q[1..]);
      ResolveStep(n, path);
      ResolveStep(n, q);
      ResolveStep(PutAt(n, path, name, node), q);
      hide Resolve;
      Prefixes(path, name, q);
    }
  }

  lemma PutHere(n: Node, name: string, node: Node, q: seq<string>)
    requires n.Group? && Distinct(n.links) && IsName(name) && q != []
    ensures var t := Group(PutLink(n.links, name, node));
            && ([name] <= q ==> Resolve(t, q) == Resolve(node, q[1..]))
            && (!([name] <= q) ==> Resolve(t, q) == Resolve(n, q))
  {
    hide Distinct, PutLink, IsName;
    ChildAfterPut(n.links, name, node, q[0]);
    assert [name] <= q <==> name == q[0];
  }

  lemma Prefixes(path: seq<string>, name: string, q: seq<string>)
    requires path != [] && q != []
    ensures q <= path <==> q[0] == path[0] && q[1..] <= path[1..]
    ensures path + [name] <= q <==> path[0] == q[0] && path[1..] + [name] <= q[1..]
    ensures |path| + 1 <= |q| ==> q[1..][|path[1..]| + 1..] == q[|path| + 1..]
  {}

  // ---- The datasets of a group --------------------------------------------------------------------

  datatype Found = Found(path: seq<string>, kind: int)

  function Under(name: string, found: seq<Found>): (r: seq<Found>)
    ensures |r| == |found|
  {
    seq(|found|, k requires 0 <= k < |found| => Found([name] + found[k].path, found[k].kind))
  }

  /** The datasets below the first i links, in the order in which the links are visited. */
  function DatasetsUpTo(n: Node, i: nat): seq<Found>
    requires n.Group? && i <= |n.links|
    decreases n, i
  {
    if i == 0 then [] else DatasetsUpTo(n, i - 1) + OfLink(n.links[i - 1])
  }

  function OfLink(link: Link): seq<Found>
    decreases link
  {
    match link.node
    case Dataset(kind) => [Found([link.name], kind)]
    case Group(links) => Under(link.name, DatasetsUpTo(link.node, |links|))
    case Other => []
  }

  function Datasets(n: Node): seq<Found>
    requires n.Group?
  {
    DatasetsUpTo(n, |n.links|)
  }

  /** Dataset f lies below the link. */
  ghost predicate LiesUnder(link: Link, f: Found) {
    f.path != [] && f.path[0] == link.name && Resolve(link.node, f.path[1..]) == Some(Dataset(f.kind))
  }

  lemma UnderLink(link: Link, f: Found)
    requires link.node.Group?
    requires forall g :: g in Datasets(link.node) <==> g.path != [] && Resolve(link.node, g.path) == Some(Dataset(g.kind))
    ensures f in Under(link.name, Datasets(link.node)) <==> LiesUnder(link, f)
  {
    var inner := Datasets(link.node);
    var under := Under(link.name, inner);
    if f in under {
      var k :| 0 <= k < |under| && under[k] == f;
      assert inner[k] in inner;
      assert f.path[1..] == inner[k].path;
    }
    if LiesUnder(link, f) {
      var g := Found(f.path[1..], f.kind);
      assert g.path != [];
      assert g in inner;
      var k :| 0 <= k < |inner| && inner[k] == g;
      assert f.path == [link.name] + g.path;
      assert under[k] == f;
    }
  }

  lemma DatasetBelow(link: Link, f: Found)
    requires link.node.Dataset?
    ensures f in OfLink(link) <==> LiesUnder(link, f)
  {
    var found := Found([link.name], link.node.kind);
    assert found.path[1..] == [];
    if LiesUnder(link, f) {
      assert f.path == [f.path[0]] + f.path[1..];
      assert f == found;
    }
  }

  lemma {:induction false} OfLinkBelow(link: Link, f: Found)
    requires WellFormed(link.node)
    ensures f in OfLink(link) <==> LiesUnder(link, f)
    decreases link
  {
    match link.node
    case Group(_) =>
      forall g ensures g in Datasets(link.node) <==> g.path != [] && Resolve(link.node, g.path) == Some(Dataset(g.kind)) {
        DatasetsExactly(link.node, g);
      }
      UnderLink(link, f);
    case Dataset(_) => DatasetBelow(link, f);
    case Other =>
  }

  lemma {:induction false} DatasetsBelow(n: Node, i: nat, f: Found)
    requires n.Group? && i <= |n.links|
    requires WellFormed(n)
    ensures f in DatasetsUpTo(n, i) <==> exists j :: 0 <= j < i && LiesUnder(n.links[j], f)
    decreases n, i
  {
    if i > 0 {
      assert WellFormed(n.links[i - 1].node);
      hide WellFormed, LiesUnder, OfLink;
      DatasetsBelow(n, i - 1, f);
      OfLinkBelow(n.links[i - 1], f);
    }
  }

  /** The list of datasets has exactly the paths that lead to one. */
  lemma {:induction false} DatasetsExactly(n: Node, f: Found)
    requires n.Group? && WellFormed(n)
    ensures f in Datasets(n) <==> f.path != [] && Resolve(n, f.path) == Some(Dataset(f.kind))
    decreases n, |n.links| + 1
  {
    DatasetsBelow(n, |n.links|, f);
    if f in Datasets(n) {
      var j :| 0 <= j < |n.links| && LiesUnder(n.links[j], f);
      ChildAt(n.links, j);
    }
    if f.path != [] && Resolve(n, f.path) == Some(Dataset(f.kind)) {
      ChildLink(n.links, f.path[0]);
      var j :| 0 <= j < |n.links| && n.links[j] == Link(f.path[0], Child(n.links, f.path[0]).value);
      assert LiesUnder(n.links[j], f);
    }
  }

  // ---- Nothing is listed twice, and in which order --------------------------------------------------

  /** Behind what the paths have in common, the first one goes on with the earlier name. */
  ghost predicate PathBefore(p: seq<string>, q: seq<string>) {
    exists k :: 0 <= k < |p| && k < |q| && p[..k] == q[..k] && Before(p[k], q[k])
  }

  lemma PathsDiffer(p: seq<string>, q: seq<string>)
    requires PathBefore(p, q)
    ensures p != q
  {
    var k :| 0 <= k < |p| && k < |q| && p[..k] == q[..k] && Before(p[k], q[k]);
    BeforeIsOrder(p[k], q[k], "");
  }

  ghost predicate OrderedPaths(found: seq<Found>) {
    forall a, b | 0 <= a < b < |found| :: PathBefore(found[a].path, found[b].path)
  }

  lemma OrderedAppend(front: seq<Found>, back: seq<Found>)
    requires OrderedPaths(front) && OrderedPaths(back)
    requires forall f, g | f in front && g in back :: PathBefore(f.path, g.path)
    ensures OrderedPaths(front + back)
  {
    hide PathBefore;
    var all := front + back;
    forall a, b | 0 <= a < b < |all| ensures PathBefore(all[a].path, all[b].path) {
      assert a < |front| ==> all[a] == front[a] && front[a] in front;
      assert a >= |front| ==> all[a] == back[a - |front|];
      assert b < |front| ==> all[b] == front[b];
      assert b >= |front| ==> all[b] == back[b - |front|] && back[b - |front|] in back;
    }
  }

  lemma OrderedUnder(name: string, found: seq<Found>)
    requires OrderedPaths(found)
    ensures OrderedPaths(Under(name, found))
  {
    var under := Under(name, found);
    forall a, b | 0 <= a < b < |under| ensures PathBefore(under[a].path, under[b].path) {
      var p, q := found[a].path, found[b].path;
      assert PathBefore(p, q);
      var k :| 0 <= k < |p| && k < |q| && p[..k] == q[..k] && Before(p[k], q[k]);
      assert ([name] + p)[..k + 1] == [name] + p[..k] == [name] + q[..k] == ([name] + q)[..k + 1];
      assert ([name] + p)[k + 1] == p[k] && ([name] + q)[k + 1] == q[k];
    }
  }

  lemma LinksInOrder(n: Node, i: nat, j: nat, f: Found, g: Found)
    requires n.Group? && WellFormed(n) && j < i < |n.links| && LiesUnder(n.links[j], f) && LiesUnder(n.links[i], g)
    ensures PathBefore(f.path, g.path)
  {
    assert f.path[..0] == g.path[..0];
    assert Before(f.path[0], g.path[0]);
  }

  /** The datasets are listed in the order of their paths, and so every one of them once. */
  lemma {:induction false} DatasetsInOrder(n: Node, i: nat)
    requires n.Group? && i <= |n.links| && WellFormed(n)
    ensures OrderedPaths(DatasetsUpTo(n, i))
    decreases n, i
  {
    if i > 0 {
      DatasetsInOrder(n, i - 1);
      var front, link := DatasetsUpTo(n, i - 1), n.links[i - 1];
      OfLinkInOrder(link);
      hide OfLink, OrderedPaths, PathBefore, LiesUnder;
      forall f, g | f in front && g in OfLink(link) ensures PathBefore(f.path, g.path) {
        DatasetsBelow(n, i - 1, f);
        var j :| 0 <= j < i - 1 && LiesUnder(n.links[j], f);
        OfLinkBelow(link, g);
        LinksInOrder(n, i - 1, j, f, g);
      }
      hide WellFormed;
      OrderedAppend(front, OfLink(link));
    }
  }

  lemma {:induction false} OfLinkInOrder(link: Link)
    requires WellFormed(link.node)
    ensures OrderedPaths(OfLink(link))
    decreases link
  {
    if link.node.Group? {
      DatasetsInOrder(link.node, |link.node.links|);
      OrderedUnder(link.name, Datasets(link.node));
    }
  }

  // ---- Entries ------------------------------------------------------------------------------------

  /** What a listing says of a dataset. */
  datatype Entry = Entry(name: string, kind: int)

  function EntryOf(baseName: string, f: Found): Entry {
    Entry(baseName + Join(f.path), f.kind)
  }

  function Entries(baseName: string, found: seq<Found>): (r: seq<Entry>)
    ensures |r| == |found|
  {
    seq(|found|, k requires 0 <= k < |found| => EntryOf(baseName, found[k]))
  }

  lemma EntriesAppend(baseName: string, front: seq<Found>, back: seq<Found>)
    ensures Entries(baseName, front + back) == Entries(baseName, front) + Entries(baseName, back)
  {}

  lemma EntriesUnder(baseName: string, name: string, found: seq<Found>)
    requires forall k | 0 <= k < |found| :: found[k].path != []
    ensures Entries(baseName, Under(name, found)) == Entries(baseName + name + "/", found)
  {
    forall k | 0 <= k < |found| ensures Entries(baseName, Under(name, found))[k] == Entries(baseName + name + "/", found)[k] {
      var path := found[k].path;
      assert ([name] + path)[1..] == path;
      assert Join([name] + path) == name + "/" + Join(path);
      assert baseName + (name + "/" + Join(path)) == baseName + name + "/" + Join(path);
    }
  }

  lemma {:induction false} ResolvedNames(n: Node, path: seq<string>)
    requires WellFormed(n) && Resolve(n, path).Some?
    ensures AreNames(path) && WellFormed(Resolve(n, path).value)
    decreases |path|
  {
    if path != [] {
      ChildIsWellFormed(n, path[0]);
      ResolvedNames(Child(n.links, path[0]).value, path[1..]);
      forall i | 0 <= i < |path| ensures IsName(path[i]) {
        assert i > 0 ==> path[i] == path[1..][i - 1];
      }
    }
  }

  /**
   * A listing has an entry exactly for each dataset of the tree: its name splits into the path that leads to
   * the dataset, and it has the dataset's type.
   */
  lemma ListedExactly(n: Node, e: Entry)
    requires n.Group? && WellFormed(n)
    ensures e in Entries("", Datasets(n)) <==>
              && Tokens(e.name) != [] && e.name == Join(Tokens(e.name))
              && Resolve(n, Tokens(e.name)) == Some(Dataset(e.kind))
  {
    var found := Datasets(n);
    var entries := Entries("", found);
    if e in entries {
      var k :| 0 <= k < |entries| && entries[k] == e;
      var f := found[k];
      assert f in found;
      DatasetsExactly(n, f);
      ResolvedNames(n, f.path);
      assert e.name == Join(f.path);
      TokensOfJoin(f.path);
    }
    var path := Tokens(e.name);
    if path != [] && e.name == Join(path) && Resolve(n, path) == Some(Dataset(e.kind)) {
      var f := Found(path, e.kind);
      DatasetsExactly(n, f);
      var k :| 0 <= k < |found| && found[k] == f;
      assert entries[k] == e;
    }
  }

  /**
   * A listing is in the order of names, component by component: what lies in a group follows where the group's name
   * stands. No name is listed twice.
   */
  lemma ListedInOrder(n: Node, j: nat, k: nat)
    requires n.Group? && WellFormed(n) && j < k < |Datasets(n)|
    ensures var p, q := Tokens(Entries("", Datasets(n))[j].name), Tokens(Entries("", Datasets(n))[k].name);
            exists m :: 0 <= m < |p| && m < |q| && p[..m] == q[..m] && Before(p[m], q[m])
    ensures Entries("", Datasets(n))[j].name != Entries("", Datasets(n))[k].name
  {
    var found := Datasets(n);
    DatasetsInOrder(n, |n.links|);
    assert PathBefore(found[j].path, found[k].path);
    PathsDiffer(found[j].path, found[k].path);
    assert found[j] in found && found[k] in found;
    DatasetsExactly(n, found[j]);
    DatasetsExactly(n, found[k]);
    ResolvedNames(n, found[j].path);
    ResolvedNames(n, found[k].path);
    hide Datasets, WellFormed, Join, AreNames;
    TokensOfJoin(found[j].path);
    TokensOfJoin(found[k].path);
    assert "" + Join(found[j].path) == Join(found[j].path) && "" + Join(found[k].path) == Join(found[k].path);
    if Join(found[j].path) == Join(found[k].path) {
      JoinInjective(found[j].path, found[k].path);
    }
  }
}
