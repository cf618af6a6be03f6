/**
 * The bounded cache of open files in HandleMgr, on values.
 *
 * The state of the manager and the effect of each call on it are functions here; the class Manager in
 * HandleMgr carries the calls out on its fields. What HDF5 answers is a parameter: whether a close
 * succeeds, and the identifier of the new file, which is negative on failure.
 */
module HandleCache {
  import opened Arithmetic
  import opened Options
  import opened Geometry
  import opened MpiGrid
  import opened FileNames
  import opened HandleNames
  import opened FileLog
  import opened EntryIds

  const ACC_RDWR := 1
  const ACC_TRUNC := 2

  predicate Truncates(flags: nat) {
    flags / 2 % 2 == 1
  }

  predicate Writes(flags: nat) {
    flags % 2 == 1
  }

  /** The bits in HDF5: H5F_ACC_RDONLY is 0, H5F_ACC_RDWR is 1, H5F_ACC_TRUNC is 2. */
  lemma AccessBits(flags: nat)
    requires flags < 4
    ensures Writes(flags) <==> flags == ACC_RDWR || flags == ACC_RDWR + ACC_TRUNC
    ensures Truncates(flags) <==> flags == ACC_TRUNC || flags == ACC_RDWR + ACC_TRUNC
    ensures ACC_RDWR == 1 && ACC_TRUNC == 2
  {}

  datatype Entry = Entry(handle: int, ctr: nat)

  /** leastAccIndex: the candidate for the next eviction. */
  datatype Least = Least(index: nat, ctr: nat)

  datatype Outcome = Handle(handle: int) | Done | CloseFailed | CreateFailed | OpenFailed | FullNameRefused | SchemeRefused

  /** `log` holds all events so far; the current session began at `start`. */
  datatype State = State(maxHandles: nat, naming: Naming, flags: nat, handles: map<nat, Entry>, least: Least,
                         created: set<nat>, log: seq<Event>, start: nat)

  function Initial(maxHandles: nat, scheme: Scheme): State {
    State(if maxHandles == 0 then UINT32 - 2 else maxHandles, Naming(scheme, ONE, ""), 0, map[], Least(0, 0), {}, [], 0)
  }

  // ---- Invariants ---------------------------------------------------------------------------------

  /** The cache keeps its bound, a full cache has its candidate, and the candidate's accesses are counted. */
  ghost predicate Bounded(s: State) {
    && s.maxHandles > 0 && |s.handles| <= s.maxHandles && s.least.ctr < UINT32
    && (if s.least.index in s.handles then s.handles[s.least.index].ctr == s.least.ctr
        else s.least.ctr == 0 && |s.handles| < s.maxHandles)
    && forall i | i in s.handles :: s.handles[i].ctr < UINT32
  }

  /** The identifiers in the cache. */
  ghost function Files(handles: map<nat, Entry>): map<nat, int> {
    map i | i in handles :: handles[i].handle
  }

  /** The cache holds exactly the files that are open, each once. */
  ghost predicate HoldsOpenFiles(files: map<nat, int>, log: seq<Event>) {
    && Proper(log)
    && (forall i | i in files :: files[i] in Live(log))
    && (forall h | h in Live(log) :: exists i :: i in files && files[i] == h)
    && (forall i, j | i in files && j in files && files[i] == files[j] :: i == j)
  }

  /** File h was opened in this session for a position with key i. */
  ghost predicate RightFile(n: Naming, log: seq<Event>, start: nat, i: nat, h: int) {
    var at := OpenedAt(log, h);
    at.Some? && start <= at.value && Key(n, log[at.value].pos) == i
  }

  ghost predicate RightFiles(n: Naming, files: map<nat, int>, log: seq<Event>, start: nat) {
    forall i | i in files :: RightFile(n, log, start, i, files[i])
  }

  /** A file opened in this session has the name for its position; reopening never truncates. */
  ghost predicate RightEvent(n: Naming, flags: nat, created: set<nat>, e: Event)
    requires ValidNaming(n)
  {
    && (e.Opens() ==> e.name == FileName(n, e.pos) && RightAccess(flags, e))
    && (e.Created? ==> Key(n, e.pos) in created && Truncates(flags))
    && (e.Opened? ==> !Truncates(e.flags))
  }

  /** H5Fcreate opens the file for writing, H5Fopen if its flags say so. */
  predicate GivesWriting(e: Event)
    requires e.Opens()
  {
    e.Created? || Writes(e.flags)
  }

  /**
   * A session that does not truncate opens its files with its own flags; a file can be written exactly if the session's
   * flags permit writing or truncate.
   */
  predicate RightAccess(flags: nat, e: Event)
    requires e.Opens()
  {
    && (!Truncates(flags) || e.Created? ==> e.flags == flags)
    && (GivesWriting(e) <==> Writes(flags) || Truncates(flags))
  }

  ghost predicate SameKeyCreated(n: Naming, e: Event, f: Event) {
    e.Created? && f.Created? && Key(n, e.pos) == Key(n, f.pos)
  }

  ghost predicate RightSession(n: Naming, flags: nat, created: set<nat>, log: seq<Event>, start: nat) {
    && ValidNaming(n) && start <= |log|
    && (forall k | start <= k < |log| :: RightEvent(n, flags, created, log[k]))
    && (forall j, k | start <= j < k < |log| :: !SameKeyCreated(n, log[j], log[k]))
  }

  ghost predicate Good(s: State) {
    && Bounded(s)
    && HoldsOpenFiles(Files(s.handles), s.log)
    && RightFiles(s.naming, Files(s.handles), s.log, s.start)
    && RightSession(s.naming, s.flags, s.created, s.log, s.start)
  }

  /** All files of this session were asked for by positions that have an index. */
  ghost predicate IndexedSession(s: State) {
    s.start <= |s.log| && forall k | s.start <= k < |s.log| && s.log[k].Opens() :: Indexed(s.naming, s.log[k].pos)
  }

  // ---- One event more -----------------------------------------------------------------------------

  lemma CloseHeld(files: map<nat, int>, log: seq<Event>, index: nat)
    requires HoldsOpenFiles(files, log) && index in files
    ensures HoldsOpenFiles(files - {index}, log + [Closed(files[index])])
  {
    var log', files' := log + [Closed(files[index])], files - {index};
    Extend(log, Closed(files[index]));
    hide FileLog.Live, FileLog.Proper;
    forall h | h in Live(log') ensures exists i :: i in files' && files'[i] == h {
      var i :| i in files && files[i] == h;
      assert i in files';
    }
  }

  lemma OpenHeld(files: map<nat, int>, log: seq<Event>, index: nat, e: Event)
    requires HoldsOpenFiles(files, log) && index !in files && e.Opens() && e.handle !in Issued(log)
    ensures HoldsOpenFiles(files[index := e.handle], log + [e])
  {
    var log', files' := log + [e], files[index := e.handle];
    Extend(log, e);
    LiveIsIssued(log);
    hide FileLog.Live, FileLog.Proper;
    forall h | h in Live(log') ensures exists i :: i in files' && files'[i] == h {
      if h == e.handle {
        assert index in files';
      } else {
        var i :| i in files && files[i] == h;
        assert i in files';
      }
    }
  }

  lemma FilesAfterClose(n: Naming, files: map<nat, int>, log: seq<Event>, start: nat, index: nat, h: int)
    requires RightFiles(n, files, log, start)
    ensures RightFiles(n, files - {index}, log + [Closed(h)], start)
  {}

  lemma FilesAfterOpen(n: Naming, files: map<nat, int>, log: seq<Event>, start: nat, e: Event)
    requires RightFiles(n, files, log, start) && start <= |log|
    requires e.Opens() && e.handle !in Issued(log)
    ensures RightFiles(n, files[Key(n, e.pos) := e.handle], log + [e], start)
  {}

  lemma SessionAfter(n: Naming, flags: nat, created: set<nat>, log: seq<Event>, start: nat, e: Event)
    requires RightSession(n, flags, created, log, start)
    requires e.Created? ==> Key(n, e.pos) !in created
    requires RightEvent(n, flags, if e.Created? then created + {Key(n, e.pos)} else created, e)
    ensures RightSession(n, flags, if e.Created? then created + {Key(n, e.pos)} else created, log + [e], start)
  {}

  // ---- get ----------------------------------------------------------------------------------------

  function Touch(s: State, index: nat): State
    requires index in s.handles
  {
    var entry := s.handles[index];
    s.(handles := s.handles[index := entry.(ctr := (entry.ctr + 1) % UINT32)],
       least := if s.least.index == index then s.least.(ctr := (s.least.ctr + 1) % UINT32) else s.least)
  }

  function Evict(s: State): State
    requires s.least.index in s.handles
  {
    s.(handles := s.handles - {s.least.index}, least := s.least.(ctr := 0),
       log := s.log + [Closed(s.handles[s.least.index].handle)])
  }

  function Insert(s: State, index: nat, handle: int): State {
    s.(handles := s.handles[index := Entry(handle, 1)],
       least := if s.least.ctr == 0 || 1 < s.least.ctr then Least(index, 1) else s.least)
  }

  predicate MustCreate(s: State, pos: Dims) {
    Truncates(s.flags) && Key(s.naming, pos) !in s.created
  }

  /** A truncating session creates a file the first time and opens it for reading and writing afterwards. */
  function OpeningEvent(s: State, pos: Dims, newHandle: int): Event
    requires |s.naming.filename| < NPOS - 1
  {
    var name := FileName(s.naming, pos);
    if MustCreate(s, pos) then Created(pos, name, s.flags, newHandle)
    else Opened(pos, name, if Truncates(s.flags) then ACC_RDWR else s.flags, newHandle)
  }

  function OpenFile(s: State, pos: Dims, newHandle: int): (State, Outcome)
    requires |s.naming.filename| < NPOS - 1
  {
    if newHandle < 0 then (s, if MustCreate(s, pos) then CreateFailed else OpenFailed)
    else
      var index := Key(s.naming, pos);
      (Insert(s.(created := if MustCreate(s, pos) then s.created + {index} else s.created,
                 log := s.log + [OpeningEvent(s, pos, newHandle)]), index, newHandle),
       Handle(newHandle))
  }

  function GetStep(s: State, pos: Dims, closeOk: bool, newHandle: int): (State, Outcome)
    requires ValidNaming(s.naming)
    requires |s.handles| + 1 > s.maxHandles ==> s.least.index in s.handles
  {
    var index := Key(s.naming, pos);
    if index in s.handles then (Touch(s, index), Handle(s.handles[index].handle))
    else if |s.handles| + 1 > s.maxHandles then
      if closeOk then OpenFile(Evict(s), pos, newHandle) else (s, CloseFailed)
    else OpenFile(s, pos, newHandle)
  }

  /** HDF5 gives out no identifier twice. */
  ghost predicate NewHandle(s: State, newHandle: int) {
    newHandle < 0 || newHandle !in Issued(s.log)
  }

  lemma TouchIsGood(s: State, index: nat)
    requires Good(s) && index in s.handles
    ensures Good(Touch(s, index)) && Touch(s, index).handles.Keys == s.handles.Keys
  {
    hide HoldsOpenFiles, RightFiles, RightSession;
    assert Files(Touch(s, index).handles) == Files(s.handles);
  }

  lemma OneFewer(m: map<nat, Entry>, i: nat)
    requires i in m
    ensures |m - {i}| == |m| - 1
  {}

  lemma EvictIsGood(s: State)
    requires Good(s) && |s.handles| + 1 > s.maxHandles
    ensures s.least.index in s.handles
    ensures Good(Evict(s)) && |Evict(s).handles| == s.maxHandles - 1 && Evict(s).least.ctr == 0
    ensures Evict(s).handles.Keys == s.handles.Keys - {s.least.index}
    ensures Issued(Evict(s).log) == Issued(s.log)
  {
    var index, files := s.least.index, Files(s.handles);
    var e := Closed(files[index]);
    Extend(s.log, e);
    OneFewer(s.handles, index);
    CloseHeld(files, s.log, index);
    FilesAfterClose(s.naming, files, s.log, s.start, index, files[index]);
    SessionAfter(s.naming, s.flags, s.created, s.log, s.start, e);
    hide HoldsOpenFiles, RightFiles, RightSession, FileLog.Issued;
    assert Files(Evict(s).handles) == files - {index};
  }

  lemma OpeningEventIsRight(s: State, pos: Dims, newHandle: int)
    requires ValidNaming(s.naming)
    ensures var e, index := OpeningEvent(s, pos, newHandle), Key(s.naming, pos);
            && e.Opens() && e.handle == newHandle && e.pos == pos && (e.Created? <==> MustCreate(s, pos))
            && RightEvent(s.naming, s.flags, if e.Created? then s.created + {index} else s.created, e)
  {}

  lemma InsertFiles(s: State, index: nat, handle: int)
    requires Bounded(s) && index !in s.handles && |s.handles| < s.maxHandles
    ensures Bounded(Insert(s, index, handle))
    ensures Files(Insert(s, index, handle).handles) == Files(s.handles)[index := handle]
  {}

  lemma OpenFileIsGood(s: State, pos: Dims, newHandle: int)
    requires Good(s) && NewHandle(s, newHandle)
    requires Key(s.naming, pos) !in s.handles && |s.handles| < s.maxHandles
    ensures Good(OpenFile(s, pos, newHandle).0)
  {
    if newHandle >= 0 {
      var index, files, e := Key(s.naming, pos), Files(s.handles), OpeningEvent(s, pos, newHandle);
      OpeningEventIsRight(s, pos, newHandle);
      OpenHeld(files, s.log, index, e);
      FilesAfterOpen(s.naming, files, s.log, s.start, e);
      SessionAfter(s.naming, s.flags, s.created, s.log, s.start, e);
      var created := if MustCreate(s, pos) then s.created + {index} else s.created;
      InsertFiles(s.(created := created, log := s.log + [e]), index, newHandle);
      hide HoldsOpenFiles, RightFiles, RightSession, FileLog.Issued, Key, OpeningEvent, MustCreate, Bounded, Files;
    }
  }

  /** Whatever HDF5 answers, a call of get keeps all invariants. */
  lemma GetIsGood(s: State, pos: Dims, closeOk: bool, newHandle: int)
    requires Good(s) && NewHandle(s, newHandle)
    ensures Good(GetStep(s, pos, closeOk, newHandle).0)
  {
    var index := Key(s.naming, pos);
    if index in s.handles {
      TouchIsGood(s, index);
    } else if |s.handles| + 1 > s.maxHandles {
      if closeOk {
        EvictIsGood(s);
        OpenFileIsGood(Evict(s), pos, newHandle);
      }
    } else {
      OpenFileIsGood(s, pos, newHandle);
    }
    hide Good, OpenFile, Touch, Key, NewHandle;
  }

  // ---- Agreement with opening the right file each time --------------------------------------------

  ghost predicate OpenOn(log: seq<Event>, h: int, name: string) {
    h in Live(log) && var at := OpenedAt(log, h); at.Some? && log[at.value].Opens() && log[at.value].name == name
  }

  lemma SameKeySameFile(n: Naming, p: Dims, q: Dims)
    requires ValidNaming(n) && Indexed(n, p) && Indexed(n, q) && Key(n, p) == Key(n, q)
    ensures FileName(n, p) == FileName(n, q)
  {
    if n.scheme != FullName {
      InverseExactly(n, p);
      InverseExactly(n, q);
    }
    hide Key, PosFromIndex, Indexed;
  }

  /** A handle in the cache is open on the file of every position with its key. */
  lemma CachedFileIsRight(s: State, pos: Dims)
    requires Good(s) && IndexedSession(s) && Indexed(s.naming, pos) && Key(s.naming, pos) in s.handles
    ensures OpenOn(s.log, s.handles[Key(s.naming, pos)].handle, FileName(s.naming, pos))
  {
    var index := Key(s.naming, pos);
    var h := Files(s.handles)[index];
    assert RightFile(s.naming, s.log, s.start, index, h);
    var at := OpenedAt(s.log, h).value;
    assert RightEvent(s.naming, s.flags, s.created, s.log[at]);
    SameKeySameFile(s.naming, pos, s.log[at].pos);
    hide Key, FileName, FileLog.Live, FileLog.OpenedAt, FileLog.Proper, Indexed, RightFiles, ValidNaming;
  }

  lemma GetIsCached(s: State, pos: Dims, closeOk: bool, newHandle: int)
    requires Good(s)
    ensures var (t, r) := GetStep(s, pos, closeOk, newHandle);
            && t.naming == s.naming && t.flags == s.flags && t.start == s.start && s.log <= t.log
            && (forall k | |s.log| <= k < |t.log| && t.log[k].Opens() :: t.log[k].pos == pos)
            && (r.Handle? ==> Key(s.naming, pos) in t.handles && t.handles[Key(s.naming, pos)].handle == r.handle)
            && (!r.Handle? ==> !closeOk || newHandle < 0)
  {}

  /** get for a cached position answers at once and counts one access more, in 32 bits. */
  lemma GetAgain(s: State, pos: Dims, closeOk: bool, newHandle: int)
    requires Good(s) && Key(s.naming, pos) in s.handles
    ensures var (t, r) := GetStep(s, pos, closeOk, newHandle);
            var index := Key(s.naming, pos);
            && r == Handle(s.handles[index].handle) && t.log == s.log && t.created == s.created
            && index in t.handles && t.handles - {index} == s.handles - {index}
            && t.handles[index].handle == s.handles[index].handle
            && (t.handles[index].ctr - s.handles[index].ctr - 1) % 0x1_0000_0000 == 0
            && t.least.index == s.least.index && (s.least.index != index ==> t.least == s.least)
  {
    hide HoldsOpenFiles, RightFiles, RightSession, Key;
  }

  /**
   * get for any other position: if the cache is full, the candidate is closed, also when the file cannot be opened
   * then. A truncating session fails to create a file the first time, and later, as any other session, to open it.
   */
  lemma GetNew(s: State, pos: Dims, closeOk: bool, newHandle: int)
    requires Good(s) && Key(s.naming, pos) !in s.handles
    ensures var (t, r) := GetStep(s, pos, closeOk, newHandle);
            var index, full, creates := Key(s.naming, pos), |s.handles| == s.maxHandles, s.flags / 2 % 2 == 1;
            if full && !closeOk then r == CloseFailed && t == s
            else if newHandle < 0 then
              && r == (if creates && index !in s.created then CreateFailed else OpenFailed)
              && t.handles == (if full then s.handles - {s.least.index} else s.handles) && t.created == s.created
            else
              && r == Handle(newHandle)
              && t.handles == (if full then s.handles - {s.least.index} else s.handles)[index := Entry(newHandle, 1)]
              && t.created == if creates then s.created + {index} else s.created
  {
    hide HoldsOpenFiles, RightFiles, RightSession, Key, FileName;
  }

  /** The event that opened the file gave it the access of a session with these flags. */
  ghost predicate OpenedFor(log: seq<Event>, h: int, flags: nat) {
    var at := OpenedAt(log, h); at.Some? && log[at.value].Opens() && RightAccess(flags, log[at.value])
  }

  /** A handle in the cache has the access of the session. */
  lemma CachedAccess(s: State, i: nat)
    requires Good(s) && i in s.handles
    ensures OpenedFor(s.log, s.handles[i].handle, s.flags)
  {
    var h := Files(s.handles)[i];
    assert RightFile(s.naming, s.log, s.start, i, h);
    var at := OpenedAt(s.log, h).value;
    assert RightEvent(s.naming, s.flags, s.created, s.log[at]);
    hide Key, FileName, FileLog.Live, FileLog.OpenedAt, FileLog.Proper, RightFiles, ValidNaming, RightAccess;
  }

  /**
   * get answers with an open handle on the file named for the position, with the access of the session, as if it
   * opened that file every time; it gives no handle only when HDF5 failed.
   */
  lemma GetOpensTheRightFile(s: State, pos: Dims, closeOk: bool, newHandle: int)
    requires Good(s) && NewHandle(s, newHandle) && IndexedSession(s) && Indexed(s.naming, pos)
    ensures var (t, r) := GetStep(s, pos, closeOk, newHandle);
            && IndexedSession(t)
            && (r.Handle? ==> OpenOn(t.log, r.handle, FileName(s.naming, pos)) && OpenedFor(t.log, r.handle, s.flags))
            && (!r.Handle? ==> !closeOk || newHandle < 0)
  {
    GetIsGood(s, pos, closeOk, newHandle);
    GetIsCached(s, pos, closeOk, newHandle);
    var (t, r) := GetStep(s, pos, closeOk, newHandle);
    hide GetStep, Good, Key, FileName, Indexed, OpenOn;
    forall k | t.start <= k < |t.log| && t.log[k].Opens() ensures Indexed(t.naming, t.log[k].pos) {
      assert k < |s.log| ==> t.log[k] == s.log[k];
    }
    if r.Handle? {
      CachedFileIsRight(t, pos);
      CachedAccess(t, Key(t.naming, pos));
    }
  }

  lemma GetGivesAccess(s: State, pos: Dims, closeOk: bool, newHandle: int)
    requires Good(s) && NewHandle(s, newHandle)
    ensures var (t, r) := GetStep(s, pos, closeOk, newHandle); r.Handle? ==> OpenedFor(t.log, r.handle, s.flags)
  {
    GetIsGood(s, pos, closeOk, newHandle);
    GetIsCached(s, pos, closeOk, newHandle);
    var (t, r) := GetStep(s, pos, closeOk, newHandle);
    hide GetStep, Good, Key, OpenedFor;
    if r.Handle? {
      CachedAccess(t, Key(t.naming, pos));
    }
  }

  // ---- No file is truncated twice -----------------------------------------------------------------

  /** All files that a session creates are different, unless the base name passes for a full file name. */
  lemma CreatedOnce(s: State, j: nat, k: nat)
    requires Good(s) && IndexedSession(s)
    requires s.naming.scheme == FullName || !TakenAsFull(s.naming.filename)
    requires s.start <= j < k < |s.log| && s.log[j].Created? && s.log[k].Created?
    ensures s.log[j].name != s.log[k].name
  {
    assert RightEvent(s.naming, s.flags, s.created, s.log[j]);
    assert RightEvent(s.naming, s.flags, s.created, s.log[k]);
    assert !SameKeyCreated(s.naming, s.log[j], s.log[k]);
    NamesDiffer(s.naming, s.log[j].pos, s.log[k].pos);
  }

  // ---- Which file is evicted ----------------------------------------------------------------------

  /** All places of the cache but one are taken by `keep`. */
  ghost predicate Pinned(s: State, keep: set<nat>) {
    && |keep| + 1 == s.maxHandles && s.least.index !in keep
    && ((s.handles.Keys == keep && s.least.ctr == 0) || s.handles.Keys == keep + {s.least.index})
  }

  ghost predicate Evicts(s: State, pos: Dims) {
    Key(s.naming, pos) !in s.handles && |s.handles| + 1 > s.maxHandles
  }

  /** After the first eviction the files left are pinned ... */
  lemma EvictionPins(s: State, pos: Dims, newHandle: int)
    requires Good(s) && Evicts(s, pos)
    ensures s.least.index in s.handles
    ensures Pinned(GetStep(s, pos, true, newHandle).0, s.handles.Keys - {s.least.index})
  {}

  ghost predicate SameHandles(s: State, t: State, keep: set<nat>) {
    forall i | i in keep :: i in s.handles && i in t.handles && t.handles[i].handle == s.handles[i].handle
  }

  lemma PinnedOpen(s: State, keep: set<nat>, pos: Dims, newHandle: int)
    requires |s.naming.filename| < NPOS - 1 && Pinned(s, keep) && s.handles.Keys == keep && s.least.ctr == 0
    requires Key(s.naming, pos) !in keep
    ensures Pinned(OpenFile(s, pos, newHandle).0, keep) && SameHandles(s, OpenFile(s, pos, newHandle).0, keep)
  {}

  lemma PinnedEvict(s: State, keep: set<nat>)
    requires Pinned(s, keep) && s.handles.Keys == keep + {s.least.index}
    ensures Pinned(Evict(s), keep) && SameHandles(s, Evict(s), keep)
    ensures Evict(s).handles.Keys == keep && Evict(s).least.ctr == 0
  {}

  lemma PinnedTouch(s: State, keep: set<nat>, index: nat)
    requires Pinned(s, keep) && index in s.handles
    ensures Pinned(Touch(s, index), keep) && SameHandles(s, Touch(s, index), keep)
  {}

  lemma PinnedSize(s: State, keep: set<nat>)
    requires Pinned(s, keep)
    ensures s.handles.Keys == keep || (s.handles.Keys == keep + {s.least.index} && |s.handles| == s.maxHandles)
    ensures s.handles.Keys == keep ==> |s.handles| + 1 == s.maxHandles && s.least.ctr == 0
  {}

  /** ... and stay open however rarely they are used: later evictions only hit the one other place. */
  lemma PinnedStays(s: State, keep: set<nat>, pos: Dims, closeOk: bool, newHandle: int)
    requires Good(s) && Pinned(s, keep)
    ensures Pinned(GetStep(s, pos, closeOk, newHandle).0, keep)
    ensures SameHandles(s, GetStep(s, pos, closeOk, newHandle).0, keep)
  {
    var index := Key(s.naming, pos);
    PinnedSize(s, keep);
    assert SameHandles(s, s, keep);
    if index in s.handles {
      PinnedTouch(s, keep, index);
    } else if |s.handles| + 1 > s.maxHandles {
      if closeOk {
        PinnedEvict(s, keep);
        PinnedOpen(Evict(s), keep, pos, newHandle);
        SameTwice(s, Evict(s), OpenFile(Evict(s), pos, newHandle).0, keep);
      }
    } else {
      PinnedOpen(s, keep, pos, newHandle);
    }
    hide Good, HoldsOpenFiles, RightFiles, RightSession, Key, FileName, SameHandles, OpenFile, Evict, Touch;
  }

  lemma SameTwice(s: State, t: State, u: State, keep: set<nat>)
    requires SameHandles(s, t, keep) && SameHandles(t, u, keep)
    ensures SameHandles(s, u, keep)
  {}

  // ---- open, close and the naming scheme ----------------------------------------------------------

  predicate IsLeastKey(keys: set<nat>, i: nat) {
    i in keys && forall j | j in keys :: i <= j
  }

  ghost function LeastKey(files: map<nat, int>): (i: nat)
    requires files != map[]
    ensures i in files && |files - {i}| < |files|
    ensures IsLeastKey(files.Keys, i)
  {
    LeastKeyExists(files.Keys);
    var i :| IsLeastKey(files.Keys, i);
    assert (files - {i}).Keys == files.Keys - {i};
    i
  }

  lemma LeastKeyExists(keys: set<nat>)
    requires keys != {}
    ensures exists i :: IsLeastKey(keys, i)
  {
    var i := LeastExists(keys);
    assert IsLeastKey(keys, i);
  }

  /** close() takes the handles in the order of their keys. */
  ghost function CloseAll(files: map<nat, int>, log: seq<Event>): seq<Event>
    decreases |files|
  {
    if files == map[] then log
    else
      var i := LeastKey(files);
      CloseAll(files - {i}, log + [Closed(files[i])])
  }

  lemma {:induction false} CloseAllHeld(files: map<nat, int>, log: seq<Event>)
    requires HoldsOpenFiles(files, log)
    ensures HoldsOpenFiles(map[], CloseAll(files, log)) && Issued(CloseAll(files, log)) == Issued(log)
    decreases |files|
  {
    hide HoldsOpenFiles, FileLog.Issued, LeastKey, IsLeastKey;
    if files != map[] {
      var i := LeastKey(files);
      CloseHeld(files, log, i);
      Extend(log, Closed(files[i]));
      CloseAllHeld(files - {i}, log + [Closed(files[i])]);
    }
  }

  lemma NoneHeld(log: seq<Event>)
    requires HoldsOpenFiles(map[], log)
    ensures Live(log) == {}
  {
    var files: map<nat, int> := map[];
    assert HoldsOpenFiles(files, log);
    HasMember(Live(log));
    hide FileLog.Live, FileLog.Proper;
    assert forall i :: i !in files;
  }

  ghost function CloseStep(s: State): State {
    var log := CloseAll(Files(s.handles), s.log);
    State(s.maxHandles, Naming(s.naming.scheme, ONE, ""), 0, map[], Least(0, 0), {}, log, |log|)
  }

  /** No session is under way. */
  predicate Idle(s: State) {
    s.handles == map[] && s.created == {}
  }

  /** A session starts. */
  function Begin(s: State, n: Naming, flags: nat): State {
    s.(naming := n, flags := flags, start := |s.log|)
  }

  /** The fields are set before the base name is checked. */
  function OpenStep(s: State, mpiSize: Dims, baseFilename: string, flags: nat): (State, Outcome)
    requires |baseFilename| < NPOS - 1
  {
    (Begin(s, Naming(s.naming.scheme, mpiSize, baseFilename), flags),
     if s.naming.scheme != FullName && TakenAsFull(baseFilename) && ScalarSize(mpiSize) > 1 then FullNameRefused else Done)
  }

  function SetSchemeStep(s: State, scheme: Scheme): (State, Outcome) {
    if s.naming.scheme == scheme then (s, Done)
    else if s.naming.filename != "" then (s, SchemeRefused)
    else (Begin(s, s.naming.(scheme := scheme), s.flags), Done)
  }

  function OpenFullStep(s: State, fullFilename: string, flags: nat): (State, Outcome) {
    if SetSchemeStep(s, FullName).1 == SchemeRefused then (s, SchemeRefused)
    else (Begin(s, Naming(FullName, ONE, fullFilename), flags), Done)
  }

  /** A session may begin with any naming while no file is open. */
  lemma BeginIsGood(s: State, n: Naming, flags: nat)
    requires Good(s) && Idle(s) && ValidNaming(n)
    ensures Good(Begin(s, n, flags)) && IndexedSession(Begin(s, n, flags))
  {}

  /** A close that succeeds leaves no file open, and by then every file ever opened has been closed exactly once. */
  lemma CloseDone(s: State)
    requires HoldsOpenFiles(Files(s.handles), s.log) && s.maxHandles > 0
    ensures Good(CloseStep(s)) && Idle(CloseStep(s)) && Live(CloseStep(s).log) == {}
    ensures Issued(CloseStep(s).log) == Issued(s.log)
    ensures forall h | h in Issued(s.log) :: TimesClosed(CloseStep(s).log, h) == 1
  {
    var files, t := Files(s.handles), CloseStep(s);
    hide Good, CloseAll, HoldsOpenFiles, FileLog.Live, FileLog.Proper, FileLog.Issued, FileLog.TimesClosed;
    CloseAllHeld(files, s.log);
    IdleLog(t);
    forall h | h in Issued(s.log) ensures TimesClosed(t.log, h) == 1 {
      LiveOrClosedOnce(t.log, h);
    }
  }

  lemma CloseIsGood(s: State)
    requires Good(s)
    ensures Good(CloseStep(s)) && Idle(CloseStep(s)) && Live(CloseStep(s).log) == {}
    ensures Issued(CloseStep(s).log) == Issued(s.log)
    ensures forall h | h in Issued(s.log) :: TimesClosed(CloseStep(s).log, h) == 1
  {
    assert HoldsOpenFiles(Files(s.handles), s.log) && s.maxHandles > 0;
    hide Good, HoldsOpenFiles, CloseStep;
    CloseDone(s);
  }

  /** A state with nothing open and no session is good. */
  lemma IdleLog(s: State)
    requires Idle(s) && HoldsOpenFiles(map[], s.log) && s.maxHandles > 0 && s.least == Least(0, 0)
    requires ValidNaming(s.naming) && s.start == |s.log|
    ensures Good(s) && Live(s.log) == {} && Proper(s.log)
  {
    assert Files(s.handles) == map[];
    NoneHeld(s.log);
  }

  // ---- A close that fails -------------------------------------------------------------------------

  /** The first k handles have been closed. */
  ghost function CloseSome(files: map<nat, int>, log: seq<Event>, k: nat): seq<Event>
    decreases k
  {
    if k == 0 || files == map[] then log
    else
      var i := LeastKey(files);
      CloseSome(files - {i}, log + [Closed(files[i])], k - 1)
  }

  /** The files behind the first k. */
  ghost function RestOf(files: map<nat, int>, k: nat): map<nat, int>
    decreases k
  {
    if k == 0 || files == map[] then files else RestOf(files - {LeastKey(files)}, k - 1)
  }

  /** How many calls of H5Fclose can succeed before one must fail: HDF5 closes open files only. */
  ghost function Closable(files: map<nat, int>, log: seq<Event>): (n: nat)
    ensures n <= |files|
    decreases |files|
  {
    if files == map[] then 0
    else
      var i := LeastKey(files);
      if files[i] !in Live(log) then 0 else 1 + Closable(files - {i}, log + [Closed(files[i])])
  }

  /** H5Fclose fails after `good` handles: the session is over, but all handles are still in the cache. */
  ghost function FailedCloseStep(s: State, good: nat): State {
    var log := CloseSome(Files(s.handles), s.log, good);
    State(s.maxHandles, Naming(s.naming.scheme, ONE, ""), 0, s.handles, Least(0, 0), {}, log, |log|)
  }

  /** One call of close, in which H5Fclose succeeds `good` times. */
  ghost function CloseTry(s: State, good: nat): (State, Outcome) {
    if good >= |s.handles| then (CloseStep(s), Done) else (FailedCloseStep(s, good), CloseFailed)
  }

  ghost predicate Distinct(files: map<nat, int>) {
    forall i, j | i in files && j in files && files[i] == files[j] :: i == j
  }

  /** All files in the cache but the first k are open. */
  ghost predicate OpenFrom(s: State, k: nat) {
    && s.maxHandles > 0 && k <= |s.handles| && Distinct(Files(s.handles))
    && HoldsOpenFiles(RestOf(Files(s.handles), k), s.log)
  }

  lemma AllOpen(s: State)
    requires Good(s)
    ensures OpenFrom(s, 0)
  {}

  lemma FilesSize(handles: map<nat, Entry>)
    ensures |Files(handles)| == |handles|
  {
    assert Files(handles).Keys == handles.Keys;
  }

  lemma {:induction false} CloseSomeHeld(files: map<nat, int>, log: seq<Event>, k: nat)
    requires HoldsOpenFiles(files, log)
    ensures HoldsOpenFiles(RestOf(files, k), CloseSome(files, log, k))
    decreases k
  {
    hide HoldsOpenFiles, LeastKey, IsLeastKey;
    if k > 0 && files != map[] {
      CloseHeld(files, log, LeastKey(files));
      CloseSomeHeld(files - {LeastKey(files)}, log + [Closed(files[LeastKey(files)])], k - 1);
    }
  }

  lemma {:induction false} AllClosable(files: map<nat, int>, log: seq<Event>)
    requires HoldsOpenFiles(files, log)
    ensures Closable(files, log) == |files|
    decreases |files|
  {
    if files != map[] {
      var i := LeastKey(files);
      assert files[i] in Live(log);
      CloseHeld(files, log, i);
      hide HoldsOpenFiles, FileLog.Live, LeastKey, IsLeastKey;
      AllClosable(files - {i}, log + [Closed(files[i])]);
      assert |files - {i}| + 1 == |files|;
    }
  }

  lemma {:induction false} RestIsPart(files: map<nat, int>, k: nat)
    ensures forall i | i in RestOf(files, k) :: i in files && RestOf(files, k)[i] == files[i]
    ensures k > 0 && files != map[] ==> LeastKey(files) !in RestOf(files, k)
    decreases k
  {
    hide LeastKey, IsLeastKey;
    if k > 0 && files != map[] {
      RestIsPart(files - {LeastKey(files)}, k - 1);
    }
  }

  /** Unless no file was closed before, H5Fclose fails with the first. */
  lemma ClosableExactly(s: State, k: nat)
    requires OpenFrom(s, k)
    ensures Closable(Files(s.handles), s.log) == if k == 0 then |s.handles| else 0
  {
    var files := Files(s.handles);
    FilesSize(s.handles);
    if k == 0 {
      AllClosable(files, s.log);
    } else {
      RestIsPart(files, k);
      var i := LeastKey(files);
      assert Distinct(files);
      assert forall h | h in Live(s.log) :: exists j :: j in RestOf(files, k) && RestOf(files, k)[j] == h;
      assert files[i] !in Live(s.log);
    }
  }

  /** A call of close after one that failed behind the first k files; it ends the matter only for k = 0. */
  lemma TryAgain(s: State, k: nat, good: nat)
    requires OpenFrom(s, k) && good <= Closable(Files(s.handles), s.log)
    ensures var (t, r) := CloseTry(s, good);
            if r == Done then k == 0 && Good(t) && Idle(t) && Live(t.log) == {}
            else OpenFrom(t, if k == 0 then good else k) && t.handles == s.handles && (k > 0 ==> t.log == s.log)
  {
    ClosableExactly(s, k);
    FilesSize(s.handles);
    hide HoldsOpenFiles, Good, Distinct;
    if k == 0 {
      CloseSomeHeld(Files(s.handles), s.log, good);
      CloseDone(s);
    }
  }

  /** Any number of calls of close, one after the other. */
  ghost predicate ValidTries(s: State, goods: seq<nat>)
    decreases |goods|
  {
    goods == [] || (goods[0] <= Closable(Files(s.handles), s.log) && ValidTries(CloseTry(s, goods[0]).0, goods[1..]))
  }

  ghost function Tries(s: State, goods: seq<nat>): State
    decreases |goods|
  {
    if goods == [] then s else Tries(CloseTry(s, goods[0]).0, goods[1..])
  }

  lemma {:induction false} StaysStuck(s: State, k: nat, goods: seq<nat>)
    requires OpenFrom(s, k) && k > 0 && ValidTries(s, goods)
    ensures var t := Tries(s, goods); OpenFrom(t, k) && t.handles == s.handles && t.log == s.log
    decreases |goods|
  {
    if goods != [] {
      TryAgain(s, k, goods[0]);
      hide OpenFrom, CloseTry, Good, Idle;
      StaysStuck(CloseTry(s, goods[0]).0, k, goods[1..]);
    }
  }

  ghost function Lower(files: map<nat, int>, i: nat): set<nat> {
    set j | j in files && j < i
  }

  /** The files from the k-th on, in the order of their keys. */
  lemma {:induction false} RestExactly(files: map<nat, int>, k: nat, i: nat)
    ensures i in RestOf(files, k) <==> i in files && |Lower(files, i)| >= k
    decreases k
  {
    if k > 0 && files != map[] {
      var least := LeastKey(files);
      RestExactly(files - {least}, k - 1, i);
      if i in files && i != least {
        assert least < i;
        assert Lower(files, i) == Lower(files - {least}, i) + {least};
      } else if i == least {
        assert Lower(files, i) == {};
      }
    }
  }

  /** close() closes a file behind all files with lower keys, each once. */
  lemma {:induction false} ClosedInOrder(files: map<nat, int>, log: seq<Event>, i: nat)
    requires i in files
    ensures |CloseAll(files, log)| == |log| + |files| && log <= CloseAll(files, log)
    ensures var k := |log| + |Lower(files, i)|; k < |CloseAll(files, log)| && CloseAll(files, log)[k] == Closed(files[i])
    decreases |files|
  {
    var least := LeastKey(files);
    var rest, next := files - {least}, log + [Closed(files[least])];
    assert rest.Keys == files.Keys - {least};
    if i == least {
      assert Lower(files, i) == {};
      if rest == map[] {
        assert |files| == 1 by { OnlyKey(files, least); }
      } else {
        ClosedInOrder(rest, next, LeastKey(rest));
        OneFileFewer(files, least);
      }
    } else {
      assert least < i;
      assert Lower(files, i) == Lower(rest, i) + {least};
      ClosedInOrder(rest, next, i);
      OneFileFewer(files, least);
    }
  }

  lemma OneFileFewer(files: map<nat, int>, i: nat)
    requires i in files
    ensures |files - {i}| == |files| - 1
  {}

  lemma OnlyKey(files: map<nat, int>, i: nat)
    requires i in files && files - {i} == map[]
    ensures |files| == 1
  {
    OneFileFewer(files, i);
  }

  ghost predicate IsFrom(files: map<nat, int>, k: nat, h: int) {
    exists i :: i in files && |Lower(files, i)| >= k && files[i] == h
  }

  /** Of these files exactly those from the k-th on are open, and no others. */
  ghost predicate LiveFrom(files: map<nat, int>, log: seq<Event>, k: nat) {
    forall h :: h in Live(log) <==> IsFrom(files, k, h)
  }

  lemma LiveExactly(s: State, k: nat)
    requires OpenFrom(s, k)
    ensures LiveFrom(Files(s.handles), s.log, k)
  {
    var files := Files(s.handles);
    RestIsPart(files, k);
    forall i ensures i in RestOf(files, k) <==> i in files && |Lower(files, i)| >= k {
      RestExactly(files, k, i);
    }
    hide RestOf, Lower, Files, FileLog.Live, FileLog.Proper;
  }

  /**
   * After a close that failed behind k files, calls of close can end the session if and only if no file had been
   * closed. Otherwise every further call fails at the first key and changes nothing, and the files from the k-th on
   * stay open for good.
   */
  lemma ClosesAgainExactly(s: State, k: nat)
    requires Good(s) && k < |s.handles|
    ensures var u := FailedCloseStep(s, k);
            && ((exists goods :: ValidTries(u, goods) && Idle(Tries(u, goods))) <==> k == 0)
            && (k > 0 ==> forall goods | ValidTries(u, goods) ::
                  Tries(u, goods).log == u.log && Tries(u, goods).handles == s.handles && LiveFrom(Files(s.handles), u.log, k))
  {
    var u := FailedCloseStep(s, k);
    FailedClose(s, k);
    assert s.handles != map[];
    hide Good, OpenFrom, FailedCloseStep, ValidTries, Tries, LiveFrom, Files, CloseTry, Closable;
    if k == 0 {
      ClosableExactly(u, 0);
      TryAgain(u, 0, |s.handles|);
      OneTry(u, |s.handles|);
    } else {
      LiveExactly(u, k);
      forall goods | ValidTries(u, goods) ensures Tries(u, goods).log == u.log && Tries(u, goods).handles == s.handles {
        StaysStuck(u, k, goods);
      }
    }
  }

  lemma FailedClose(s: State, k: nat)
    requires Good(s) && k < |s.handles|
    ensures var u := FailedCloseStep(s, k); OpenFrom(u, k) && u.handles == s.handles
    ensures var u := FailedCloseStep(s, k); CloseTry(u, |u.handles|).1 == Done
  {
    AllOpen(s);
    ClosableExactly(s, 0);
    hide Good, OpenFrom;
    TryAgain(s, 0, k);
  }

  lemma OneTry(s: State, good: nat)
    requires good <= Closable(Files(s.handles), s.log)
    ensures ValidTries(s, [good]) && Tries(s, [good]) == CloseTry(s, good).0
  {
    hide CloseTry, Closable;
    assert [good][1..] == [];
  }

  /** A first call of close that fails at once does no harm: the next can close every file, exactly once. */
  lemma SecondCloseIsGood(s: State)
    requires Good(s)
    ensures var u := FailedCloseStep(s, 0);
            && |s.handles| <= Closable(Files(u.handles), u.log)
            && var (t, r) := CloseTry(u, |s.handles|);
               r == Done && Good(t) && Idle(t) && Live(t.log) == {} && forall h | h in Issued(s.log) :: TimesClosed(t.log, h) == 1
  {
    var u := FailedCloseStep(s, 0);
    assert u.log == s.log && OpenFrom(u, 0);
    ClosableExactly(u, 0);
    hide Good, CloseStep;
    CloseDone(u);
  }

  /** Whatever fails, no file is closed twice: over every run and any calls of close behind it. */
  lemma {:induction false} ClosesOnce(s: State, k: nat, goods: seq<nat>, h: int)
    requires OpenFrom(s, k) && ValidTries(s, goods)
    ensures var t := Tries(s, goods); TimesClosed(t.log, h) == if h in Issued(t.log) && h !in Live(t.log) then 1 else 0
    decreases |goods|
  {
    if goods == [] {
      LiveOrClosedOnce(s.log, h);
    } else {
      TryAgain(s, k, goods[0]);
      var (t, r) := CloseTry(s, goods[0]);
      if r == Done {
        AllOpen(t);
      }
      hide OpenFrom, CloseTry, Good, Idle, FileLog.Live, FileLog.Issued, FileLog.TimesClosed;
      ClosesOnce(t, if r == Done then 0 else if k == 0 then goods[0] else k, goods[1..], h);
    }
  }

  // ---- Runs ---------------------------------------------------------------------------------------

  datatype Call =
    | Get(pos: Dims, closeOk: bool, newHandle: int)
    | Open(mpiSize: Dims, baseFilename: string, flags: nat)
    | OpenFull(fullFilename: string, flags: nat)
    | SetScheme(scheme: Scheme)
    | Close

  /** What the callers see to: open begins a session, and the scheme changes only between sessions. */
  ghost predicate Allowed(s: State, c: Call) {
    match c
    case Get(_, _, newHandle) => NewHandle(s, newHandle)
    case Open(mpiSize, baseFilename, _) => Idle(s) && ValidNaming(Naming(s.naming.scheme, mpiSize, baseFilename))
    case OpenFull(fullFilename, _) => Idle(s) && |fullFilename| < NPOS - 1
    case SetScheme(_) => Idle(s) || s.naming.filename != ""
    case Close => true
  }

  ghost function Step(s: State, c: Call): (State, Outcome)
    requires Good(s) && Allowed(s, c)
  {
    match c
    case Get(pos, closeOk, newHandle) => GetStep(s, pos, closeOk, newHandle)
    case Open(mpiSize, baseFilename, flags) => OpenStep(s, mpiSize, baseFilename, flags)
    case OpenFull(fullFilename, flags) => OpenFullStep(s, fullFilename, flags)
    case SetScheme(scheme) => SetSchemeStep(s, scheme)
    case Close => (CloseStep(s), Done)
  }

  lemma StepIsGood(s: State, c: Call)
    requires Good(s) && Allowed(s, c)
    ensures Good(Step(s, c).0)
  {
    match c
    case Get(pos, closeOk, newHandle) => GetIsGood(s, pos, closeOk, newHandle);
    case Open(mpiSize, baseFilename, flags) => BeginIsGood(s, Naming(s.naming.scheme, mpiSize, baseFilename), flags);
    case OpenFull(fullFilename, flags) => BeginIsGood(s, Naming(FullName, ONE, fullFilename), flags);
    case SetScheme(scheme) =>
      if Idle(s) {
        BeginIsGood(s, s.naming.(scheme := scheme), s.flags);
      }
    case Close => CloseIsGood(s);
  }

  ghost predicate ValidRun(s: State, calls: seq<Call>)
    requires Good(s)
    decreases |calls|
  {
    calls == [] || (Allowed(s, calls[0]) && (StepIsGood(s, calls[0]); ValidRun(Step(s, calls[0]).0, calls[1..])))
  }

  ghost function Run(s: State, calls: seq<Call>): State
    requires Good(s) && ValidRun(s, calls)
    decreases |calls|
  {
    if calls == [] then s
    else
      StepIsGood(s, calls[0]);
      Run(Step(s, calls[0]).0, calls[1..])
  }

  lemma InitialIsGood(maxHandles: nat, scheme: Scheme)
    requires maxHandles < UINT32
    ensures Good(Initial(maxHandles, scheme))
  {}

  /**
   * Over every run, also with failing opens and closes in get: the cache keeps its bound, its candidate for
   * eviction is there whenever it is full, and every file opened is in the cache or was closed exactly once.
   */
  lemma {:induction false} EveryRun(s: State, calls: seq<Call>, h: int)
    requires Good(s) && ValidRun(s, calls)
    ensures var t := Run(s, calls);
            && Good(t) && |t.handles| <= t.maxHandles
            && (|t.handles| == t.maxHandles ==> t.least.index in t.handles)
            && (h in Live(t.log) <==> exists i :: i in t.handles && t.handles[i].handle == h)
            && TimesClosed(t.log, h) == if h in Issued(t.log) && h !in Live(t.log) then 1 else 0
    decreases |calls|
  {
    if calls != [] {
      StepIsGood(s, calls[0]);
      EveryRun(Step(s, calls[0]).0, calls[1..], h);
      hide Good, Step;
    } else {
      LiveOrClosedOnce(s.log, h);
      CachedExactly(s, h);
      hide Good;
    }
  }

  /** Over every run each handle in the cache has the access that the flags of its session ask for. */
  lemma EveryAccess(s: State, calls: seq<Call>, i: nat)
    requires Good(s) && ValidRun(s, calls) && i in Run(s, calls).handles
    ensures var t := Run(s, calls); OpenedFor(t.log, t.handles[i].handle, t.flags)
  {
    EveryRun(s, calls, 0);
    hide Good, Run;
    CachedAccess(Run(s, calls), i);
  }

  lemma CachedExactly(s: State, h: int)
    requires Good(s)
    ensures h in Live(s.log) <==> exists i :: i in s.handles && s.handles[i].handle == h
    ensures |s.handles| <= s.maxHandles && (|s.handles| == s.maxHandles ==> s.least.index in s.handles)
  {
    var files := Files(s.handles);
    if h in Live(s.log) {
      var i :| i in files && files[i] == h;
      assert i in s.handles && s.handles[i].handle == h;
    }
    if i :| i in s.handles && s.handles[i].handle == h {
      assert files[i] == h;
    }
  }

  /** Over every run and any calls of close behind it, also failing ones, no file is closed twice. */
  lemma EveryEnding(s: State, calls: seq<Call>, goods: seq<nat>, h: int)
    requires Good(s) && ValidRun(s, calls) && ValidTries(Run(s, calls), goods)
    ensures var t := Tries(Run(s, calls), goods); TimesClosed(t.log, h) == if h in Issued(t.log) && h !in Live(t.log) then 1 else 0
  {
    EveryRun(s, calls, h);
    hide Good, Run, Tries, ValidTries;
    AllOpen(Run(s, calls));
    ClosesOnce(Run(s, calls), 0, goods, h);
  }

  // ---- Changing the scheme while files are open ---------------------------------------------------

  /** Every handle in the cache is open on the file of the positions it would be given for. */
  ghost predicate ServesRight(s: State)
    requires |s.naming.filename| < NPOS - 1
  {
    forall pos | Indexed(s.naming, pos) && Key(s.naming, pos) in s.handles ::
      OpenOn(s.log, s.handles[Key(s.naming, pos)].handle, FileName(s.naming, pos))
  }

  /** Without a base name, files of different schemes have different names. */
  lemma SchemesDiffer(n: Naming, m: Naming, p: Dims, q: Dims)
    requires n.filename == m.filename == "" && n.scheme != m.scheme
    ensures FileName(n, p) != FileName(m, q)
  {
    assert !TakenAsFull("");
    if n.scheme == Mpi && m.scheme == Iterations {
      MpiIsNoIteration(p, q[0]);
    } else if n.scheme == Iterations && m.scheme == Mpi {
      MpiIsNoIteration(q, p[0]);
    }
  }

  lemma MpiIsNoIteration(p: Dims, id: nat)
    ensures "" + "_" + Dec(p[0]) + "_" + Dec(p[1]) + "_" + Dec(p[2]) + ".h5" != IterationName("", id)
  {
    hide Dec;
    var rest := "_" + Dec(p[1]) + "_" + Dec(p[2]) + ".h5";
    assert "" + "_" + Dec(p[0]) + "_" + Dec(p[1]) + "_" + Dec(p[2]) + ".h5" == "_" + (Dec(p[0]) + rest);
    assert IterationName("", id) == "_" + (Dec(id) + ".h5");
    if "_" + (Dec(p[0]) + rest) == "_" + (Dec(id) + ".h5") {
      SameTail("_", Dec(p[0]) + rest, Dec(id) + ".h5");
      SplitNumbers(p[0], id, rest, ".h5");
    }
  }

  /** A handle of the old scheme is not on a file of the new one. */
  lemma StaleHandle(s: State, m: Naming, i: nat, q: Dims)
    requires Good(s) && i in s.handles && s.naming.filename == m.filename == "" && m.scheme != s.naming.scheme
    ensures i < UINT32 && !OpenOn(s.log, s.handles[i].handle, FileName(m, q))
  {
    var h := Files(s.handles)[i];
    assert RightFile(s.naming, s.log, s.start, i, h);
    var e := s.log[OpenedAt(s.log, h).value];
    assert RightEvent(s.naming, s.flags, s.created, e);
    SchemesDiffer(s.naming, m, e.pos, q);
    hide Key, FileName, FileLog.Live, FileLog.OpenedAt, FileLog.Proper;
  }

  /**
   * The guard of setFileNameScheme tests the file name and not the handles: a change while files are open is refused
   * exactly with a name. Without one, get goes on giving out handles of the old scheme for files of the new one, unless
   * the new scheme is FullName and key 0 is not in the cache.
   */
  lemma SchemeGuardExactly(s: State, scheme: Scheme)
    requires Good(s) && IndexedSession(s) && s.handles != map[] && scheme != s.naming.scheme
    ensures var (t, r) := SetSchemeStep(s, scheme);
            && (r == SchemeRefused <==> s.naming.filename != "") && |t.naming.filename| < NPOS - 1
            && (ServesRight(t) <==> s.naming.filename != "" || (scheme == FullName && 0 !in s.handles))
  {
    var (t, r) := SetSchemeStep(s, scheme);
    assert ValidNaming(s.naming);
    if s.naming.filename != "" {
      hide Good, Key, FileName, Indexed, OpenOn;
      forall pos | Indexed(t.naming, pos) && Key(t.naming, pos) in t.handles
        ensures OpenOn(t.log, t.handles[Key(t.naming, pos)].handle, FileName(t.naming, pos))
      {
        CachedFileIsRight(s, pos);
      }
    } else if scheme == FullName && 0 !in s.handles {
    } else {
      var i: nat :| i in s.handles && (scheme == FullName ==> i == 0);
      StaleHandle(s, t.naming, i, ZERO);
      KeyOfPos(t.naming, i);
      var pos := PosFromIndex(t.naming, i);
      StaleHandle(s, t.naming, i, pos);
      hide Good, Key, FileName, Indexed, OpenOn, PosFromIndex;
      assert Key(t.naming, pos) == i;
    }
  }

  // ---- Sessions -----------------------------------------------------------------------------------

  ghost predicate GetsIndexed(n: Naming, calls: seq<Call>) {
    forall k | 0 <= k < |calls| :: calls[k].Get? && Indexed(n, calls[k].pos)
  }

  ghost predicate GetsInRange(n: Naming, calls: seq<Call>) {
    forall k | 0 <= k < |calls| :: calls[k].Get? && InRange(n, calls[k].pos)
  }

  ghost predicate AskedFor(calls: seq<Call>, pos: Dims) {
    exists k :: 0 <= k < |calls| && calls[k].Get? && calls[k].pos == pos
  }

  /** What was opened since `before` had been asked for. */
  ghost predicate OpensAskedFor(before: seq<Event>, after: seq<Event>, calls: seq<Call>) {
    before <= after && forall k | |before| <= k < |after| && after[k].Opens() :: AskedFor(calls, after[k].pos)
  }

  lemma {:induction false} SessionRun(s: State, calls: seq<Call>)
    requires Good(s) && ValidRun(s, calls) && forall k | 0 <= k < |calls| :: calls[k].Get?
    ensures var t := Run(s, calls);
            Good(t) && t.naming == s.naming && t.start == s.start && OpensAskedFor(s.log, t.log, calls)
    decreases |calls|
  {
    if calls != [] {
      var c, rest := calls[0], calls[1..];
      StepIsGood(s, c);
      GetIsCached(s, c.pos, c.closeOk, c.newHandle);
      var t := Step(s, c).0;
      hide Good, GetStep, Key;
      SessionRun(t, rest);
      OneMoreAskedFor(s.log, t.log, Run(t, rest).log, calls);
    }
  }

  lemma OneMoreAskedFor(before: seq<Event>, between: seq<Event>, after: seq<Event>, calls: seq<Call>)
    requires calls != [] && calls[0].Get? && before <= between && OpensAskedFor(between, after, calls[1..])
    requires forall k | |before| <= k < |between| && between[k].Opens() :: between[k].pos == calls[0].pos
    ensures OpensAskedFor(before, after, calls)
  {}

  lemma IndexedRun(s: State, calls: seq<Call>)
    requires Good(s) && IndexedSession(s) && ValidRun(s, calls) && GetsIndexed(s.naming, calls)
    ensures Good(Run(s, calls)) && IndexedSession(Run(s, calls)) && Run(s, calls).naming == s.naming
  {
    SessionRun(s, calls);
    var t := Run(s, calls);
    hide Good, Run, Indexed;
    forall k | t.start <= k < |t.log| && t.log[k].Opens() ensures Indexed(t.naming, t.log[k].pos) {
      assert k < |s.log| ==> t.log[k] == s.log[k];
      assert k >= |s.log| ==> AskedFor(calls, t.log[k].pos);
    }
  }

  ghost predicate NeverTruncatedTwice(s: State) {
    forall j, k | 0 <= s.start <= j < k < |s.log| && s.log[j].Created? && s.log[k].Created? :: s.log[j].name != s.log[k].name
  }

  /** In a session of requests with an index no file is truncated twice, also when it is evicted and asked for again. */
  lemma TruncatesOnce(s: State, calls: seq<Call>)
    requires Good(s) && IndexedSession(s) && ValidRun(s, calls) && GetsIndexed(s.naming, calls)
    requires s.naming.scheme == FullName || !TakenAsFull(s.naming.filename)
    ensures NeverTruncatedTwice(Run(s, calls))
  {
    IndexedRun(s, calls);
    var t := Run(s, calls);
    hide Good, IndexedSession, Run, TakenAsFull;
    forall j, k | t.start <= j < k < |t.log| && t.log[j].Created? && t.log[k].Created?
      ensures t.log[j].name != t.log[k].name
    {
      CreatedOnce(t, j, k);
    }
  }

  lemma {:induction false} UnusedHandle(log: seq<Event>) returns (h: nat)
    ensures forall g | g in Issued(log) :: g < h
  {
    if log == [] {
      h := 0;
    } else {
      var below := UnusedHandle(log[..|log| - 1]);
      var e := log[|log| - 1];
      h := if e.Opens() && e.handle >= below then e.handle + 1 else below;
    }
  }

  /** A call of get that creates its file. */
  lemma CreatesNext(s: State, pos: Dims, newHandle: nat) returns (t: State)
    requires Good(s) && Truncates(s.flags)
    requires Key(s.naming, pos) !in s.created && Key(s.naming, pos) !in s.handles
    requires forall h | h in Issued(s.log) :: h < newHandle
    ensures t == GetStep(s, pos, true, newHandle).0
    ensures Good(t) && forall h | h in Issued(t.log) :: h <= newHandle
    ensures Allowed(s, Get(pos, true, newHandle)) && Step(s, Get(pos, true, newHandle)).0 == t
    ensures |s.log| < |t.log| && s.log <= t.log
    ensures t.log[|t.log| - 1] == Created(pos, FileName(s.naming, pos), s.flags, newHandle)
    ensures t.naming == s.naming && t.flags == s.flags && t.start == s.start
    ensures t.created == s.created + {Key(s.naming, pos)} && t.handles.Keys <= s.handles.Keys + {Key(s.naming, pos)}
  {
    t := GetStep(s, pos, true, newHandle).0;
    GetIsGood(s, pos, true, newHandle);
    IssuedByGet(s, pos, newHandle);
    hide HoldsOpenFiles, RightFiles, RightSession, Key, FileName, Truncates, FileLog.Issued;
  }

  /** Two positions that have one file although they are different: a base name that passes for a full file name. */
  ghost predicate SharesName(n: Naming)
    requires ValidNaming(n)
  {
    TakenAsFull(n.filename) && (n.scheme == Iterations || (n.scheme == Mpi && ScalarSize(n.mpiSize) > 1))
  }

  /** Under such a base name the second file truncates the first. */
  lemma TruncatedTwice(s: State) returns (calls: seq<Call>)
    requires Good(s) && Idle(s) && Truncates(s.flags) && s.start <= |s.log|
    requires SharesName(s.naming)
    ensures ValidRun(s, calls) && GetsInRange(s.naming, calls) && !NeverTruncatedTwice(Run(s, calls))
  {
    hide Good, GetStep, Step, Allowed, Truncates, Key, FileName, SharesName, FileLog.Issued, ValidRun, Run,
      NeverTruncatedTwice, InRange, ValidNaming, Idle;
    var c, d := TwoCreations(s);
    calls := [c, d];
    RunTwo(s, c, d);
  }

  lemma TwoCreations(s: State) returns (c: Call, d: Call)
    requires Good(s) && Idle(s) && Truncates(s.flags) && s.start <= |s.log|
    requires SharesName(s.naming)
    ensures c.Get? && d.Get? && InRange(s.naming, c.pos) && InRange(s.naming, d.pos)
    ensures Allowed(s, c) && Good(Step(s, c).0) && Allowed(Step(s, c).0, d)
    ensures !NeverTruncatedTwice(Step(Step(s, c).0, d).0)
  {
    assert s.handles == map[] && s.created == {} && ValidNaming(s.naming);
    hide *;
    var p, q := TwoPositions(s.naming);
    var h := UnusedHandle(s.log);
    var t := CreatesNext(s, p, h);
    var u := CreatesNext(t, q, h + 1);
    c, d := Get(p, true, h), Get(q, true, h + 1);
    SameNameTwice(t, u);
  }

  lemma TwoPositions(n: Naming) returns (p: Dims, q: Dims)
    requires ValidNaming(n) && SharesName(n)
    ensures InRange(n, p) && InRange(n, q) && Key(n, p) != Key(n, q) && FileName(n, p) == FileName(n, q)
  {
    p, q := PosFromIndex(n, 0), PosFromIndex(n, 1);
    KeyOfPos(n, 0);
    KeyOfPos(n, 1);
    if n.scheme == Mpi {
      OnGridExactly(n, 0);
      OnGridExactly(n, 1);
    }
    hide Key, PosFromIndex, Indexed, OnGrid;
  }

  lemma SameNameTwice(s: State, t: State)
    requires t.start < |s.log| < |t.log| && s.log <= t.log
    requires s.log[|s.log| - 1].Created? && t.log[|t.log| - 1].Created?
    requires s.log[|s.log| - 1].name == t.log[|t.log| - 1].name
    ensures !NeverTruncatedTwice(t)
  {}

  lemma RunTwo(s: State, c: Call, d: Call)
    requires Good(s) && Allowed(s, c)
    ensures Good(Step(s, c).0)
    ensures Allowed(Step(s, c).0, d) ==> ValidRun(s, [c, d]) && Run(s, [c, d]) == Step(Step(s, c).0, d).0
  {
    hide Good, Allowed, Step, ValidRun, Run;
    FirstCall(s, [c, d]);
    assert [c, d][1..] == [d];
    RunNone(s);
    assert [] + [d] == [d];
    var t := Step(s, c).0;
    RunNone(t);
    OneCallMore(t, [], d);
  }

  lemma RunNone(s: State)
    requires Good(s)
    ensures ValidRun(s, []) && Run(s, []) == s
  {}

  /** A run is its first call and the run from there. */
  lemma FirstCall(s: State, calls: seq<Call>)
    requires Good(s) && calls != []
    ensures ValidRun(s, calls) ==> Allowed(s, calls[0])
    ensures Allowed(s, calls[0]) ==>
              && Good(Step(s, calls[0]).0)
              && (ValidRun(s, calls) <==> ValidRun(Step(s, calls[0]).0, calls[1..]))
              && (ValidRun(s, calls) ==> Run(s, calls) == Run(Step(s, calls[0]).0, calls[1..]))
  {
    hide Good, Step, Allowed;
    if Allowed(s, calls[0]) {
      StepIsGood(s, calls[0]);
    }
  }

  lemma IssuedByGet(s: State, pos: Dims, newHandle: int)
    requires Good(s)
    ensures Issued(GetStep(s, pos, true, newHandle).0.log) <= Issued(s.log) + {newHandle}
  {}

  /** What a session creates was asked for in range. */
  lemma InRangeRun(s: State, calls: seq<Call>, j: nat)
    requires Good(s) && s.created == {} && ValidRun(s, calls) && GetsInRange(s.naming, calls)
    ensures Good(Run(s, calls)) && Run(s, calls).naming == s.naming && Run(s, calls).start == s.start
    ensures var t := Run(s, calls); t.start <= j < |t.log| && t.log[j].Created? ==> InRange(t.naming, t.log[j].pos)
  {
    SessionRun(s, calls);
    var t := Run(s, calls);
    assert s.start <= j < |s.log| ==> RightEvent(s.naming, s.flags, s.created, s.log[j]);
    hide Good, Run, InRange;
    assert |s.log| <= j < |t.log| && t.log[j].Opens() ==> AskedFor(calls, t.log[j].pos);
    assert j < |s.log| ==> t.log[j] == s.log[j];
  }

  /** On a grid of one position there is one key. */
  lemma OnePositionTruncatesOnce(s: State, calls: seq<Call>)
    requires Good(s) && s.created == {} && ValidRun(s, calls) && GetsInRange(s.naming, calls)
    requires s.naming.scheme == Mpi && ScalarSize(s.naming.mpiSize) <= 1
    ensures NeverTruncatedTwice(Run(s, calls))
  {
    var t := Run(s, calls);
    SessionRun(s, calls);
    assert ValidNaming(s.naming);
    hide ValidRun, Run, GetsInRange, ValidNaming;
    forall j, k | t.start <= j < k < |t.log| ensures !(t.log[j].Created? && t.log[k].Created?) {
      InRangeRun(s, calls, j);
      InRangeRun(s, calls, k);
      assert t.log[j].Created? ==> Key(t.naming, t.log[j].pos) == 0 by { OneKey(t.naming, t.log[j]); }
      assert t.log[k].Created? ==> Key(t.naming, t.log[k].pos) == 0 by { OneKey(t.naming, t.log[k]); }
      assert !SameKeyCreated(t.naming, t.log[j], t.log[k]);
    }
  }

  lemma OneKey(n: Naming, e: Event)
    requires ValidNaming(n) && n.scheme == Mpi && ScalarSize(n.mpiSize) <= 1
    ensures e.Opens() && InRange(n, e.pos) ==> Key(n, e.pos) == 0
  {}

  /**
   * So a truncating session never destroys what it wrote exactly when its base name does not pass for a full file
   * name that several positions share.
   */
  lemma TruncatesOnceExactly(s: State)
    requires Good(s) && Idle(s) && IndexedSession(s) && Truncates(s.flags)
    ensures (forall calls | ValidRun(s, calls) && GetsInRange(s.naming, calls) :: NeverTruncatedTwice(Run(s, calls)))
       <==> !SharesName(s.naming)
  {
    if SharesName(s.naming) {
      var calls := TruncatedTwice(s);
    } else {
      forall calls | ValidRun(s, calls) && GetsInRange(s.naming, calls) ensures NeverTruncatedTwice(Run(s, calls)) {
        if s.naming.scheme == Mpi && ScalarSize(s.naming.mpiSize) <= 1 {
          OnePositionTruncatesOnce(s, calls);
        } else {
          TruncatesOnce(s, calls);
        }
      }
    }
  }

  /** For a process grid open refuses exactly the sessions that would destroy what they wrote; for iterations it lets them pass. */
  lemma OpenGuards(s: State, mpiSize: Dims, baseFilename: string, flags: nat)
    requires Good(s) && Idle(s) && Truncates(flags) && ValidNaming(Naming(s.naming.scheme, mpiSize, baseFilename))
    ensures var (t, r) := OpenStep(s, mpiSize, baseFilename, flags);
            && Good(t)
            && var safe := forall calls | ValidRun(t, calls) && GetsInRange(t.naming, calls) :: NeverTruncatedTwice(Run(t, calls));
               && (s.naming.scheme == Mpi ==> (r == Done <==> safe))
               && (s.naming.scheme == Iterations && ScalarSize(mpiSize) == 1 && TakenAsFull(baseFilename) ==> r == Done && !safe)
  {
    var t := OpenStep(s, mpiSize, baseFilename, flags).0;
    BeginIsGood(s, t.naming, flags);
    assert Idle(t);
    hide Good, ValidRun, Run, GetsInRange, NeverTruncatedTwice, TakenAsFull, Truncates;
    TruncatesOnceExactly(t);
  }

  /** Pinned files stay open until close, with the same handles, in every session. */
  lemma {:induction false} PinnedUntilClose(s: State, keep: set<nat>, calls: seq<Call>)
    requires Good(s) && Pinned(s, keep) && ValidRun(s, calls) && forall k | 0 <= k < |calls| :: calls[k].Get?
    ensures Pinned(Run(s, calls), keep) && SameHandles(s, Run(s, calls), keep)
    decreases |calls|
  {
    hide Good, GetStep, Pinned;
    if calls != [] {
      var c := calls[0];
      var t := Step(s, c).0;
      StepIsGood(s, c);
      PinnedStays(s, keep, c.pos, c.closeOk, c.newHandle);
      PinnedUntilClose(t, keep, calls[1..]);
      SameTwice(s, t, Run(s, calls), keep);
    } else {
      PinnedHeld(s, keep);
    }
  }

  lemma PinnedHeld(s: State, keep: set<nat>)
    requires Pinned(s, keep)
    ensures SameHandles(s, s, keep)
  {}

  // ---- Is it the least accessed file? --------------------------------------------------------------

  /** Between s and t a file is closed that no other file in the cache was accessed less often than. */
  ghost predicate ClosesLeast(s: State, t: State) {
    exists i :: i in s.handles && ClosesNext(s, t, s.handles[i].handle) && LeastAccesses(s, i)
  }

  ghost predicate ClosesNext(s: State, t: State, h: int) {
    |s.log| < |t.log| && t.log[|s.log|] == Closed(h)
  }

  ghost predicate LeastAccesses(s: State, i: nat)
    requires i in s.handles
  {
    forall j | j in s.handles :: s.handles[i].ctr <= s.handles[j].ctr
  }

  /** Every eviction in this state closes a least accessed file. */
  ghost predicate EvictsLeast(s: State)
    requires Good(s)
  {
    forall pos, newHandle | Evicts(s, pos) :: ClosesLeast(s, GetStep(s, pos, true, newHandle).0)
  }

  lemma EvictionCloses(s: State, pos: Dims, newHandle: int)
    requires Good(s) && Evicts(s, pos)
    ensures s.least.index in s.handles
    ensures ClosesNext(s, GetStep(s, pos, true, newHandle).0, s.handles[s.least.index].handle)
  {}

  /** With room for one file, that file is the least accessed. */
  lemma OnlyFileIsLeast(s: State)
    requires Good(s) && s.maxHandles == 1
    ensures EvictsLeast(s)
  {
    forall pos, newHandle | Evicts(s, pos) ensures ClosesLeast(s, GetStep(s, pos, true, newHandle).0) {
      EvictionCloses(s, pos, newHandle);
      OneFewer(s.handles, s.least.index);
      assert |s.handles - {s.least.index}| == 0;
      forall j | j in s.handles ensures j == s.least.index {
        assert j != s.least.index ==> j in s.handles - {s.least.index};
      }
      hide Good, GetStep;
      assert LeastAccesses(s, s.least.index);
    }
  }

  lemma MaxStays(s: State, c: Call)
    requires Good(s) && Allowed(s, c)
    ensures Step(s, c).0.maxHandles == s.maxHandles
  {}

  lemma {:induction false} MaxStaysInRun(s: State, calls: seq<Call>)
    requires Good(s) && ValidRun(s, calls)
    ensures Good(Run(s, calls)) && Run(s, calls).maxHandles == s.maxHandles
    decreases |calls|
  {
    if calls != [] {
      StepIsGood(s, calls[0]);
      MaxStays(s, calls[0]);
      hide Good, Step, Allowed;
      MaxStaysInRun(Step(s, calls[0]).0, calls[1..]);
    }
  }

  lemma OneCallMore(s: State, calls: seq<Call>, c: Call)
    requires Good(s) && ValidRun(s, calls)
    ensures Good(Run(s, calls))
    ensures Allowed(Run(s, calls), c) ==> ValidRun(s, calls + [c]) && Run(s, calls + [c]) == Step(Run(s, calls), c).0
  {
    hide Good, Step, Allowed, ValidRun, Run;
    RunsJoin(s, calls, [c]);
    var t := Run(s, calls);
    FirstCall(t, [c]);
    if Allowed(t, c) {
      assert [c][1..] == [];
      RunNone(Step(t, c).0);
    }
  }

  /** A session over iterations before its first file. */
  ghost predicate Fresh(s: State) {
    && Good(s) && s.naming == Naming(Iterations, ONE, "data") && s.flags == ACC_RDWR
    && s.handles == map[] && s.least.ctr == 0 && Issued(s.log) == {}
  }

  /** The cache after keys 0 to k-1 were asked for once. */
  function OpenedOnce(k: nat): map<nat, Entry> {
    map i: nat | i < k :: Entry(i, 1)
  }

  lemma OpenedOneMore(k: nat)
    ensures OpenedOnce(k)[k := Entry(k, 1)] == OpenedOnce(k + 1) && |OpenedOnce(k)| == k && |OpenedOnce(0)| == 0
  {
    assert OpenedOnce(k)[k := Entry(k, 1)] == OpenedOnce(k + 1);
    if k == 0 {
      assert OpenedOnce(0) == map[];
    } else {
      OpenedOneMore(k - 1);
      assert k - 1 !in OpenedOnce(k - 1);
    }
  }

  lemma {:induction false} Fill(s: State, k: nat) returns (calls: seq<Call>)
    requires Fresh(s) && k <= s.maxHandles && k < UINT32
    ensures ValidRun(s, calls)
    ensures var t := Run(s, calls);
            && Good(t) && t.naming == s.naming && t.flags == s.flags && t.maxHandles == s.maxHandles
            && t.handles == OpenedOnce(k) && (k > 0 ==> t.least == Least(0, 1))
            && (k == 0 ==> t.least.ctr == 0) && forall h | h in Issued(t.log) :: h < k
    decreases k
  {
    hide Good, ValidRun, Run, GetStep, Step, Allowed, FileLog.Issued;
    if k == 0 {
      RunNone(s);
      calls := [];
      assert OpenedOnce(0) == map[];
    } else {
      calls := Fill(s, k - 1);
      var t := Run(s, calls);
      OpenedOneMore(k - 1);
      var u := GetNext(t, k - 1, k - 1);
      OneCallMore(s, calls, Get([k - 1, 0, 0], true, k - 1));
      calls := calls + [Get([k - 1, 0, 0], true, k - 1)];
    }
  }

  /**
   * With room for more, the first eviction can go wrong: when the cache is full and the first file was asked
   * for twice, it is that file that goes, and all others were accessed once.
   */
  lemma FirstEvictionIsWrong(s: State) returns (calls: seq<Call>)
    requires Fresh(s) && 2 <= s.maxHandles < UINT32
    ensures ValidRun(s, calls)
    ensures var t := Run(s, calls);
            && Good(t) && !EvictsLeast(t)
            && t.handles == OpenedOnce(s.maxHandles)[0 := Entry(0, 2)] && t.least == Least(0, 2)
  {
    var m := s.maxHandles;
    calls := Fill(s, m);
    hide Good, ValidRun, Run, GetStep, Step, Allowed, FileLog.Issued, EvictsLeast;
    var t := Run(s, calls);
    var u := GetNext(t, 0, m);
    OneCallMore(s, calls, Get([0, 0, 0], true, m));
    calls := calls + [Get([0, 0, 0], true, m)];
    OpenedOneMore(m);
    WrongFileGoes(u, m);
  }

  lemma WrongFileGoes(s: State, m: nat)
    requires Good(s) && s.naming == Naming(Iterations, ONE, "data") && 2 <= m < UINT32 && s.maxHandles == m
    requires s.handles == OpenedOnce(m)[0 := Entry(0, 2)] && s.least == Least(0, 2)
    ensures !EvictsLeast(s)
  {
    var pos: Dims := [m, 0, 0];
    OpenedOneMore(m);
    IndexOfRow(m, ONE);
    assert Key(s.naming, pos) == m;
    hide Key;
    assert |s.handles| == m by {
      assert s.handles.Keys == OpenedOnce(m).Keys;
    }
    assert Evicts(s, pos);
    EvictionCloses(s, pos, m);
    var t := GetStep(s, pos, true, m).0;
    hide Good, GetStep;
    assert 1 in s.handles && s.handles[1].ctr == 1;
    forall i | i in s.handles && ClosesNext(s, t, s.handles[i].handle) ensures !LeastAccesses(s, i) {
      assert s.handles[i].handle == i;
    }
  }

  /** A session over iterations can begin whatever the scheme was. */
  lemma SessionBegins(maxHandles: nat, scheme: Scheme) returns (calls: seq<Call>)
    requires maxHandles < UINT32
    ensures var s := Initial(maxHandles, scheme);
            Good(s) && ValidRun(s, calls) && Fresh(Run(s, calls)) && Run(s, calls).maxHandles == s.maxHandles
  {
    var s := Initial(maxHandles, scheme);
    InitialIsGood(maxHandles, scheme);
    var c, d := SetScheme(Iterations), Open(ONE, "data", ACC_RDWR);
    assert Allowed(s, c) && Step(s, c).0.naming == Naming(Iterations, ONE, "") && Step(s, c).0.handles == map[];
    RunTwo(s, c, d);
    var t := Step(s, c).0;
    StepIsGood(s, c);
    StepIsGood(t, d);
    var u := Step(t, d).0;
    assert Issued(u.log) == {};
    hide Good, ValidRun, Run, Begin, TakenAsFull;
    calls := [c, d];
  }

  lemma Rejoined<T>(x: seq<T>, y: seq<T>)
    requires x != []
    ensures (x + y)[0] == x[0] && (x + y)[1..] == x[1..] + y
  {}

  lemma {:induction false} RunsJoin(s: State, x: seq<Call>, y: seq<Call>)
    requires Good(s) && ValidRun(s, x)
    ensures Good(Run(s, x))
    ensures ValidRun(Run(s, x), y) ==> ValidRun(s, x + y) && Run(s, x + y) == Run(Run(s, x), y)
    decreases |x|
  {
    hide Good, Step, Allowed, ValidRun, Run;
    if |x| == 0 {
      RunNone(s);
      assert x == [] && x + y == y;
    } else {
      FirstCall(s, x);
      FirstCall(s, x + y);
      Rejoined(x, y);
      RunsJoin(Step(s, x[0]).0, x[1..], y);
    }
  }

  /**
   * The promise that the file with the lowest number of accesses is closed holds over all runs exactly for a
   * cache of one file.
   */
  lemma EvictsLeastExactly(maxHandles: nat, scheme: Scheme)
    requires maxHandles < UINT32
    ensures var s := Initial(maxHandles, scheme);
            && Good(s)
            && ((forall calls | ValidRun(s, calls) :: Good(Run(s, calls)) && EvictsLeast(Run(s, calls))) <==> maxHandles == 1)
  {
    var s := Initial(maxHandles, scheme);
    InitialIsGood(maxHandles, scheme);
    assert s.maxHandles == 1 <==> maxHandles == 1;
    hide Good, ValidRun, Run, EvictsLeast;
    if maxHandles == 1 {
      forall calls | ValidRun(s, calls) ensures Good(Run(s, calls)) && EvictsLeast(Run(s, calls)) {
        MaxStaysInRun(s, calls);
        OnlyFileIsLeast(Run(s, calls));
      }
    } else {
      var x := SessionBegins(maxHandles, scheme);
      var y := FirstEvictionIsWrong(Run(s, x));
      RunsJoin(s, x, y);
    }
  }

  lemma GetNext(s: State, k: nat, newHandle: nat) returns (t: State)
    requires Good(s) && s.naming == Naming(Iterations, ONE, "data") && s.flags == ACC_RDWR && k < UINT32
    requires forall h | h in Issued(s.log) :: h < newHandle
    ensures t == GetStep(s, [k, 0, 0], true, newHandle).0
    ensures Good(t) && forall h | h in Issued(t.log) :: h <= newHandle
    ensures Allowed(s, Get([k, 0, 0], true, newHandle)) && Step(s, Get([k, 0, 0], true, newHandle)).0 == t
    ensures t.naming == s.naming && t.flags == s.flags && t.maxHandles == s.maxHandles
    ensures k in s.handles ==>
              && t.handles == s.handles[k := Entry(s.handles[k].handle, (s.handles[k].ctr + 1) % UINT32)]
              && t.least == if s.least.index == k then Least(k, (s.least.ctr + 1) % UINT32) else s.least
    ensures k !in s.handles && |s.handles| < s.maxHandles ==>
              && t.handles == s.handles[k := Entry(newHandle, 1)]
              && t.least == if s.least.ctr == 0 || 1 < s.least.ctr then Least(k, 1) else s.least
    ensures k !in s.handles && |s.handles| == s.maxHandles ==>
              && s.least.index in s.handles
              && t.handles == (s.handles - {s.least.index})[k := Entry(newHandle, 1)]
              && t.least == Least(k, 1)
  {
    IndexOfRow(k, ONE);
    assert Key(s.naming, [k, 0, 0]) == k;
    hide Key, HoldsOpenFiles, RightFiles, RightSession, OpeningEvent, FileLog.Issued, FileName, IndexOf, ScalarSize;
    t := GetStep(s, [k, 0, 0], true, newHandle).0;
    GetIsGood(s, [k, 0, 0], true, newHandle);
    IssuedByGet(s, [k, 0, 0], newHandle);
  }
}
