/**
 * Which of the files that HandleMgr writes are found again: the names that it gives to iterations, and how
 * ParallelDataCollector::listFilesInDir reads them back from the directory.
 */
module FileListing {
  import opened Arithmetic
  import opened Options
  import opened Geometry
  import opened FileNames
  import opened HandleNames

  /** The file of an iteration under a base path, as get opens it for the collectors that write one file an iteration. */
  function FileOf(path: string, id: nat): string
    requires |path| < NPOS - 1
  {
    FileName(Naming(Iterations, ONE, path), [id, 0, 0])
  }

  /** Its entry in the directory. */
  function Entry(path: string, id: nat): (entry: string)
    requires |path| < NPOS - 1 && |FileOf(path, id)| < NPOS
    ensures |entry| <= |FileOf(path, id)|
  {
    SplitBase(FileOf(path, id)).1
  }

  lemma ReadBackExactly(id: nat)
    ensures ReadBack(id) == id <==> id < 0x8000_0000
  {}

  // ---- Paths --------------------------------------------------------------------------------------

  lemma SlashAt(s: string, k: nat)
    ensures OccursAt(s, "/", k) <==> k < |s| && s[k] == '/'
  {
    if k + 1 <= |s| {
      assert s[k..k + 1] == [s[k]];
    }
  }

  /** What follows without a slash goes to the name. */
  lemma SplitLonger(path: string, suffix: string)
    requires |path + suffix| < NPOS && '/' !in suffix
    ensures SplitBase(path + suffix) == (SplitBase(path).0, SplitBase(path).1 + suffix)
  {
    var r, r' := RFind(path, "/"), RFind(path + suffix, "/");
    if r != NPOS {
      SlashAt(path, r);
      SlashAt(path + suffix, r);
    }
    if r' != NPOS {
      SlashAt(path + suffix, r');
      SlashAt(path, r');
    }
    assert r == r';
    if r == NPOS {
      assert (path + suffix)[0..] == path + suffix;
    } else {
      assert (path + suffix)[..r] == path[..r] && (path + suffix)[r + 1..] == path[r + 1..] + suffix;
    }
  }

  lemma NoSlashInNumber(id: nat)
    ensures '/' !in "_" + Dec(id) + ".h5"
  {}

  // ---- One file -----------------------------------------------------------------------------------

  /**
   * The file lies in the directory that listing the same base path reads. Its name there is that of the iteration,
   * or just the base name if the path passes for a full file name.
   */
  lemma EntryOf(path: string, id: nat)
    requires |path| < NPOS - 1 && |FileOf(path, id)| < NPOS
    ensures SplitBase(FileOf(path, id)).0 == SplitBase(path).0
    ensures Entry(path, id) == if TakenAsFull(path) then SplitBase(path).1 else IterationName(SplitBase(path).1, id)
  {
    if !TakenAsFull(path) {
      var suffix := "_" + Dec(id) + ".h5";
      NoSlashInNumber(id);
      hide TakenAsFull, SplitBase, Dec;
      assert FileOf(path, id) == path + suffix;
      SplitLonger(path, suffix);
      assert IterationName(SplitBase(path).1, id) == SplitBase(path).1 + suffix;
    }
  }

  /** What a file contributes to the listing of any base name. */
  lemma ListedAs(base: string, path: string, id: nat)
    requires |base| < NPOS - 1 && |path| < NPOS - 1 && |FileOf(path, id)| < NPOS && |Entry(path, id)| < NPOS - 1
    ensures var name := SplitBase(path).1;
            Listed(base, Entry(path, id)) ==
            if TakenAsFull(path) then Listed(base, name)
            else if base == name then Some(ReadBack(id)) else None
  {
    EntryOf(path, id);
    if !TakenAsFull(path) {
      NamesReadBack(base, SplitBase(path).1, id);
    }
  }

  /** A name is never an iteration of itself. */
  lemma NotItsOwnIteration(name: string)
    requires |name| < NPOS - 1
    ensures Listed(name, name) == None
  {
    assert |name + "_"| > |name|;
  }

  /**
   * Listing a base path finds the file of an iteration under its id exactly when the path does not pass for a full
   * file name and the id fits 31 bits; otherwise it finds nothing or another number.
   */
  lemma ReadsBackExactly(path: string, id: nat)
    requires |path| < NPOS - 1 && |FileOf(path, id)| < NPOS - 1
    ensures Listed(SplitBase(path).1, Entry(path, id)) == Some(id) <==> !TakenAsFull(path) && id < 0x8000_0000
    ensures TakenAsFull(path) ==> Listed(SplitBase(path).1, Entry(path, id)) == None
  {
    ListedAs(SplitBase(path).1, path, id);
    NotItsOwnIteration(SplitBase(path).1);
    ReadBackExactly(id);
    hide Listed, TakenAsFull, ReadBack;
  }

  /**
   * It passes over the files of every other base name in the directory, except over those whose path passes for a
   * full file name and whose base name is itself a name that is listed.
   */
  lemma PassesOverExactly(base: string, path: string, id: nat)
    requires |base| < NPOS - 1 && |path| < NPOS - 1 && |FileOf(path, id)| < NPOS - 1 && base != SplitBase(path).1
    ensures var name := SplitBase(path).1;
            Listed(base, Entry(path, id)) == None
            <==> !(TakenAsFull(path) && (NamedAfter(base, name) || WrapsToNpos(base, name)))
  {
    ListedAs(base, path, id);
    ListedExactly(base, SplitBase(path).1);
    hide Listed, TakenAsFull, ReadBack, NamedAfter, WrapsToNpos;
  }

  /** Three base paths of which the collector writes files that listing misses or takes for an iteration of another. */
  lemma FullNamesConfuse(id: nat)
    requires id < 0x8000_0000
    ensures FileOf("ab", id) == "ab" && Listed("ab", Entry("ab", id)) == None
    ensures FileOf("a_", id) == "a_" && Listed("a", Entry("a_", id)) == Some(0)
    ensures FileOf("a_7.h5", id) == "a_7.h5" && Listed("a", Entry("a_7.h5", id)) == Some(7)
  {
    TakenAsFullExactly("ab");
    TakenAsFullExactly("a_");
    SevenPasses();
    NoDirectory("ab");
    NoDirectory("a_");
    NoDirectory("a_7.h5");
    hide Listed, TakenAsFull, SplitBase, OccursAt;
    ListedAs("ab", "ab", id);
    NotItsOwnIteration("ab");
    ListedAs("a", "a_", id);
    ListedWithoutExtension();
    ListedAs("a", "a_7.h5", id);
  }

  lemma NoDirectory(name: string)
    requires |name| < NPOS && '/' !in name
    ensures SplitBase(name) == (".", name)
  {
    if RFind(name, "/") != NPOS {
      SlashAt(name, RFind(name, "/"));
    }
  }

  lemma SevenPasses()
    ensures TakenAsFull("a_7.h5") && Listed("a", "a_7.h5") == Some(7)
  {
    var s := "a_7.h5";
    TakenAsFullExactly(s);
    OnlyDot(s, 3);
    NameDigit(7);
    assert IterationName("a", 7) == s;
    hide Listed, TakenAsFull, OccursAt, Dec;
    NamesReadBack("a", "a", 7);
    ReadBackExactly(7);
  }

  /** The extension occurs nowhere before its dot. */
  lemma OnlyDot(s: string, at: nat)
    requires at + 3 == |s| && forall k | 0 <= k < at :: s[k] != '.'
    ensures forall k | 0 <= k < at :: !OccursAt(s, ".h5", k)
  {
    forall k | 0 <= k < at ensures !OccursAt(s, ".h5", k) {
      assert s[k..k + 3][0] == s[k];
    }
  }

  lemma NameDigit(d: nat)
    requires d < 10
    ensures Dec(d) == ["0123456789"[d]]
  {}

  // ---- A directory --------------------------------------------------------------------------------

  /** A file that the manager wrote: a base path and an iteration. */
  datatype Written = Written(path: string, id: nat)

  ghost predicate Short(w: Written) {
    |w.path| < NPOS - 1 && |FileOf(w.path, w.id)| < NPOS - 1
  }

  ghost predicate AllShort(files: seq<Written>) {
    forall k | 0 <= k < |files| :: Short(files[k])
  }

  ghost function Entries(files: seq<Written>): (entries: seq<string>)
    requires AllShort(files)
    ensures |entries| == |files| && forall k | 0 <= k < |files| :: entries[k] == Entry(files[k].path, files[k].id)
    ensures forall f | f in entries :: |f| < NPOS - 1
  {
    seq(|files|, k requires 0 <= k < |files| => Entry(files[k].path, files[k].id))
  }

  /** What listing a base name finds among files of the manager. */
  lemma ListedAmong(base: string, files: seq<Written>, id: int)
    requires |base| < NPOS - 1 && AllShort(files)
    ensures id in ListedIds(base, Entries(files)) <==>
              exists k :: 0 <= k < |files| && Listed(base, Entries(files)[k]) == Some(id)
  {
    var entries := Entries(files);
    hide Listed, Entry, Entries;
    if id in ListedIds(base, entries) {
      var f :| f in entries && Listed(base, f).Some? && Listed(base, f).value == id;
      var k :| 0 <= k < |entries| && entries[k] == f;
    }
    if k :| 0 <= k < |files| && Listed(base, entries[k]) == Some(id) {
      assert entries[k] in entries;
    }
  }

  ghost predicate IsIteration(base: string, w: Written, id: int)
    requires |w.path| < NPOS
  {
    SplitBase(w.path).1 == base && w.id == id
  }

  /** Listing finds the iterations of this base name and nothing else. */
  ghost predicate ListsOwn(base: string, files: seq<Written>)
    requires |base| < NPOS - 1 && AllShort(files)
  {
    forall id :: id in ListedIds(base, Entries(files)) <==> exists k :: 0 <= k < |files| && IsIteration(base, files[k], id)
  }

  /** The path passes for a full file name, so that its file is missed by this base name or taken for an iteration. */
  predicate Confuses(base: string, path: string)
    requires |base| < NPOS - 1 && |path| < NPOS - 1
  {
    var name := SplitBase(path).1;
    TakenAsFull(path) && (name == base || NamedAfter(base, name) || WrapsToNpos(base, name))
  }

  lemma OneFile(base: string, w: Written, id: int)
    requires |base| < NPOS - 1 && Short(w) && w.id < 0x8000_0000 && !Confuses(base, w.path)
    ensures Listed(base, Entry(w.path, w.id)) == Some(id) <==> IsIteration(base, w, id)
  {
    ReadBackExactly(w.id);
    ListedAs(base, w.path, w.id);
    ListedExactly(base, SplitBase(w.path).1);
    hide Listed, TakenAsFull, ReadBack, NamedAfter, WrapsToNpos, SplitBase, Entry;
  }

  /** Listing a base name finds its own iterations among the files if none of them confuses it. */
  lemma ListsOwnIterations(base: string, files: seq<Written>)
    requires |base| < NPOS - 1 && AllShort(files)
    requires forall k | 0 <= k < |files| :: files[k].id < 0x8000_0000 && !Confuses(base, files[k].path)
    ensures ListsOwn(base, files)
  {
    forall id ensures id in ListedIds(base, Entries(files)) <==> exists k :: 0 <= k < |files| && IsIteration(base, files[k], id) {
      ListedAmong(base, files, id);
      forall k | 0 <= k < |files| ensures Listed(base, Entries(files)[k]) == Some(id) <==> IsIteration(base, files[k], id) {
        OneFile(base, files[k], id);
      }
    }
  }

  /** Files written under the given base paths, with ids of 31 bits. */
  ghost predicate Under(files: seq<Written>, paths: set<string>) {
    AllShort(files) && forall k | 0 <= k < |files| :: files[k].path in paths && files[k].id < 0x8000_0000
  }

  lemma ConfusedByOne(base: string, path: string)
    requires |base| < NPOS - 1 && |path| < NPOS - 8 && Confuses(base, path)
    ensures AllShort([Written(path, 0)]) && !ListsOwn(base, [Written(path, 0)])
  {
    var w := Written(path, 0);
    var name := SplitBase(path).1;
    ListedAs(base, path, 0);
    ListedExactly(base, name);
    NotItsOwnIteration(name);
    hide TakenAsFull, NamedAfter, WrapsToNpos, SplitBase, Entry, Listed;
    var id := if name == base then 0 else Listed(base, name).value;
    ListedAmong(base, [w], id);
    assert IsIteration(base, [w][0], id) <==> name == base;
    assert Entries([w])[0] == Entry(path, 0);
  }

  /**
   * So in a directory with files under a set of base paths, listing a base name finds exactly its own iterations, whatever
   * has been written, exactly when none of the paths passes for a full file name that confuses this base name.
   */
  lemma ListsOwnIterationsExactly(base: string, paths: set<string>)
    requires |base| < NPOS - 1 && forall path | path in paths :: |path| < NPOS - 8
    ensures (forall files | Under(files, paths) :: ListsOwn(base, files)) <==> forall path | path in paths :: !Confuses(base, path)
  {
    hide Confuses, ListsOwn, Short;
    if path :| path in paths && Confuses(base, path) {
      ConfusedByOne(base, path);
      assert Under([Written(path, 0)], paths);
    } else {
      forall files | Under(files, paths) ensures ListsOwn(base, files) {
        ListsOwnIterations(base, files);
      }
    }
  }
}
