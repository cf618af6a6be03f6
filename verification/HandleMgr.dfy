/** HandleMgr: the cache of open files, carried out on the fields of an object. */
module HandleMgr {
  import opened Arithmetic
  import opened Geometry
  import opened MpiGrid
  import opened FileNames
  import opened HandleNames
  import opened FileLog
  import opened HandleCache

  class Manager {
    const maxHandles: nat
    var mpiSize: Dims
    var filename: string
    var fileNameScheme: Scheme
    var fileFlags: nat
    var handles: map<nat, Entry>
    var leastAccIndex: Least
    var createdFiles: set<nat>
    ghost var log: seq<Event>
    ghost var start: nat

    ghost function Abstract(): State
      reads this
    {
      State(maxHandles, Naming(fileNameScheme, mpiSize, filename), fileFlags, handles, leastAccIndex, createdFiles, log, start)
    }

    ghost predicate Valid()
      reads this
    {
      Good(Abstract())
    }

    /** The constructor; a maximum of 0 stands for as many handles as 32 bits count. */
    constructor (maxHandles: nat, fileNameScheme: Scheme)
      requires maxHandles < UINT32
      ensures Valid() && Abstract() == Initial(maxHandles, fileNameScheme)
      ensures this.maxHandles == if maxHandles == 0 then 0xFFFF_FFFE else maxHandles
      ensures this.fileNameScheme == fileNameScheme && filename == "" && fileFlags == 0 && handles == map[] && createdFiles == {}
    {
      this.maxHandles := if maxHandles == 0 then UINT32 - 2 else maxHandles;
      mpiSize, filename, this.fileNameScheme, fileFlags := ONE, "", fileNameScheme, 0;
      handles, leastAccIndex, createdFiles := map[], Least(0, 0), {};
      log, start := [], 0;
      new;
      InitialIsGood(maxHandles, fileNameScheme);
    }

    /** setFileNameScheme: refused while a file name is set. */
    method SetFileNameScheme(scheme: Scheme) returns (r: Outcome)
      modifies this
      ensures (Abstract(), r) == SetSchemeStep(old(Abstract()), scheme)
      ensures r == SchemeRefused <==> old(fileNameScheme) != scheme && old(filename) != ""
      ensures r == SchemeRefused ==> unchanged(this)
      ensures r != SchemeRefused ==> r == Done && fileNameScheme == scheme
      ensures mpiSize == old(mpiSize) && filename == old(filename) && fileFlags == old(fileFlags) && handles == old(handles)
      ensures createdFiles == old(createdFiles) && leastAccIndex == old(leastAccIndex)
      ensures old(Valid()) && Allowed(old(Abstract()), SetScheme(scheme)) ==> Valid()
    {
      ghost var s := Abstract();
      if Good(s) && Allowed(s, SetScheme(scheme)) {
        StepIsGood(s, SetScheme(scheme));
      }
      if fileNameScheme == scheme {
        return Done;
      }
      if filename != "" {
        return SchemeRefused;
      }
      fileNameScheme := scheme;
      start := |log|;
      return Done;
    }

    /** open for a base name, which refuses a full file name only after it has set the fields. */
    method OpenBase(mpiSize: Dims, baseFilename: string, flags: nat) returns (r: Outcome)
      requires |baseFilename| < NPOS - 1
      modifies this
      ensures (Abstract(), r) == OpenStep(old(Abstract()), mpiSize, baseFilename, flags)
      ensures this.mpiSize == mpiSize && filename == baseFilename && fileFlags == flags
      ensures r == if fileNameScheme != FullName && TakenAsFull(baseFilename) && mpiSize[0] * mpiSize[1] * mpiSize[2] > 1 then FullNameRefused else Done
      ensures fileNameScheme == old(fileNameScheme) && handles == old(handles) && createdFiles == old(createdFiles)
      ensures leastAccIndex == old(leastAccIndex)
      ensures old(Valid()) && Allowed(old(Abstract()), Open(mpiSize, baseFilename, flags)) ==> Valid()
    {
      ghost var s := Abstract();
      if Good(s) && Allowed(s, Open(mpiSize, baseFilename, flags)) {
        StepIsGood(s, Open(mpiSize, baseFilename, flags));
      }
      this.mpiSize := mpiSize;
      filename := baseFilename;
      fileFlags := flags;
      start := |log|;
      if fileNameScheme != FullName && Find(baseFilename, ".h5") == Minus(|baseFilename|, 3) {
        if ScalarSize(mpiSize) > 1 {
          return FullNameRefused;
        }
      }
      return Done;
    }

    /** open for one full file name. */
    method OpenFile(fullFilename: string, flags: nat) returns (r: Outcome)
      requires |fullFilename| < NPOS - 1
      modifies this
      ensures (Abstract(), r) == OpenFullStep(old(Abstract()), fullFilename, flags)
      ensures if old(fileNameScheme) == FullName || old(filename) == "" then
                r == Done && fileNameScheme == FullName && mpiSize == ONE && filename == fullFilename && fileFlags == flags
              else r == SchemeRefused && unchanged(this)
      ensures handles == old(handles) && createdFiles == old(createdFiles) && leastAccIndex == old(leastAccIndex)
      ensures old(Valid()) && Allowed(old(Abstract()), OpenFull(fullFilename, flags)) ==> Valid()
    {
      ghost var s := Abstract();
      if Good(s) && Allowed(s, OpenFull(fullFilename, flags)) {
        StepIsGood(s, OpenFull(fullFilename, flags));
      }
      r := SetFileNameScheme(FullName);
      if r == Done {
        mpiSize := ONE;
        filename := fullFilename;
        fileFlags := flags;
        start := |log|;
      }
    }

    /** The part of get that opens or creates the file, when the cache has a place for it. */
    method OpenAt(index: nat, mpiPos: Dims, newHandle: int) returns (r: Outcome)
      requires |filename| < NPOS - 1 && index == Key(Abstract().naming, mpiPos)
      modifies this
      ensures (Abstract(), r) == HandleCache.OpenFile(old(Abstract()), mpiPos, newHandle)
    {
      hide Key, FileName, Truncates;
      var fullFilename := FileName(Naming(fileNameScheme, mpiSize, filename), mpiPos);
      if Truncates(fileFlags) && index !in createdFiles {
        if newHandle < 0 {
          return CreateFailed;
        }
        log := log + [Created(mpiPos, fullFilename, fileFlags, newHandle)];
        createdFiles := createdFiles + {index};
      } else {
        var tmpFlags := fileFlags;
        if Truncates(fileFlags) {
          tmpFlags := ACC_RDWR;
        }
        if newHandle < 0 {
          return OpenFailed;
        }
        log := log + [Opened(mpiPos, fullFilename, tmpFlags, newHandle)];
      }
      handles := handles[index := Entry(newHandle, 1)];
      if leastAccIndex.ctr == 0 || 1 < leastAccIndex.ctr {
        leastAccIndex := Least(index, 1);
      }
      return Handle(newHandle);
    }

    /** The part of get that makes room. */
    method CloseLeast()
      requires leastAccIndex.index in handles
      modifies this
      ensures Abstract() == Evict(old(Abstract()))
    {
      log := log + [Closed(handles[leastAccIndex.index].handle)];
      handles := handles - {leastAccIndex.index};
      leastAccIndex := leastAccIndex.(ctr := 0);
    }

    /** get: the handle of the file for a position, which is opened or created if it is not in the cache. */
    method Get(mpiPos: Dims, closeOk: bool, newHandle: int) returns (r: Outcome)
      requires Valid() && NewHandle(Abstract(), newHandle)
      modifies this
      ensures Valid() && (Abstract(), r) == GetStep(old(Abstract()), mpiPos, closeOk, newHandle)
      ensures r.Handle? ==> OpenedFor(log, r.handle, old(fileFlags))
    {
      ghost var s := Abstract();
      GetIsGood(s, mpiPos, closeOk, newHandle);
      GetGivesAccess(s, mpiPos, closeOk, newHandle);
      assert |handles| + 1 > maxHandles ==> leastAccIndex.index in handles;
      assert |filename| < NPOS - 1;
      hide Good, IndexOf, NewHandle, HandleCache.OpenFile, OpenedFor, Evict;
      var index: nat := 0;
      if fileNameScheme != FullName {
        index := IndexOf(mpiPos, mpiSize) % UINT32;
      }
      if index !in handles {
        if |handles| + 1 > maxHandles {
          if !closeOk {
            return CloseFailed;
          }
          CloseLeast();
        }
        r := OpenAt(index, mpiPos, newHandle);
      } else {
        var entry := handles[index];
        handles := handles[index := entry.(ctr := (entry.ctr + 1) % UINT32)];
        if leastAccIndex.index == index {
          leastAccIndex := leastAccIndex.(ctr := (leastAccIndex.ctr + 1) % UINT32);
        }
        assert Abstract() == Touch(s, index);
        return Handle(entry.handle);
      }
    }

    /** get for a rank or an iteration: always a position in range. */
    method GetByIndex(index: nat, closeOk: bool, newHandle: int) returns (r: Outcome)
      requires Valid() && NewHandle(Abstract(), newHandle) && IndexedSession(Abstract()) && index < UINT32
      modifies this
      ensures Valid() && IndexedSession(Abstract())
      ensures var n := old(Abstract()).naming;
              && Abstract().naming == n
              && (r.Handle? ==> OpenOn(log, r.handle, FileName(n, PosFromIndex(n, index))) && OpenedFor(log, r.handle, old(fileFlags)))
              && (!r.Handle? ==> !closeOk || newHandle < 0)
    {
      ghost var s := Abstract();
      var pos := PosFromIndex(Naming(fileNameScheme, mpiSize, filename), index);
      KeyOfPos(s.naming, index);
      GetOpensTheRightFile(s, pos, closeOk, newHandle);
      GetIsCached(s, pos, closeOk, newHandle);
      r := Get(pos, closeOk, newHandle);
    }

    /** The loop of close over the handles in the order of their keys; `good` calls of H5Fclose succeed. */
    method CloseFiles(good: nat) returns (ok: bool)
      modifies this`log
      ensures ok <==> good >= |handles|
      ensures log == if ok then CloseAll(Files(handles), old(log)) else CloseSome(Files(handles), old(log), good)
    {
      hide CloseAll, CloseSome, Files, LeastKey, IsLeastKey;
      var rest, n := handles, 0;
      while rest != map[]
        invariant n <= good && |rest| + n == |handles|
        invariant CloseAll(Files(rest), log) == CloseAll(Files(handles), old(log))
        invariant CloseSome(Files(rest), log, good - n) == CloseSome(Files(handles), old(log), good)
        decreases |rest|
      {
        if n == good {
          NoneLeft(Files(rest), log);
          return false;
        }
        LeastKeyExists(rest.Keys);
        var i :| IsLeastKey(rest.Keys, i);
        CloseOne(rest, i, log, good - n);
        log := log + [Closed(rest[i].handle)];
        rest, n := rest - {i}, n + 1;
      }
      NoFiles(log);
      return true;
    }

    /**
     * close: ends the session; if a file cannot be closed, all handles stay in the cache, also those that are closed,
     * and only calling close again is left. H5Fclose succeeds `good` times, only on open files.
     */
    method Close(good: nat, ghost k: nat) returns (r: Outcome)
      requires OpenFrom(Abstract(), k) && good <= Closable(Files(handles), log)
      modifies this
      ensures (Abstract(), r) == CloseTry(old(Abstract()), good)
      ensures r == Done ==> k == 0 && Valid() && Live(log) == {} && handles == map[]
      ensures mpiSize == ONE && filename == "" && fileFlags == 0 && createdFiles == {} && fileNameScheme == old(fileNameScheme)
      ensures r == (if good >= |old(handles)| then Done else CloseFailed) && handles == (if r == Done then map[] else old(handles))
      ensures r != Done ==> OpenFrom(Abstract(), if k == 0 then good else k)
    {
      ghost var s := Abstract();
      hide Good, CloseAll, CloseSome, Files, OpenFrom, Closable, FileLog.Live;
      TryAgain(s, k, good);
      createdFiles, filename, fileFlags := {}, "", 0;
      leastAccIndex, mpiSize := Least(0, 0), ONE;
      var ok := CloseFiles(good);
      start := |log|;
      if !ok {
        return CloseFailed;
      }
      handles := map[];
      r := Done;
    }
  }

  lemma CloseOne(m: map<nat, Entry>, i: nat, log: seq<Event>, good: nat)
    requires IsLeastKey(m.Keys, i) && good > 0
    ensures |m - {i}| + 1 == |m| && CloseAll(Files(m), log) == CloseAll(Files(m - {i}), log + [Closed(m[i].handle)])
    ensures CloseSome(Files(m), log, good) == CloseSome(Files(m - {i}), log + [Closed(m[i].handle)], good - 1)
  {
    assert Files(m).Keys == m.Keys;
    assert LeastKey(Files(m)) == i;
    assert Files(m) - {i} == Files(m - {i});
    OneFewer(m, i);
  }

  lemma NoneLeft(files: map<nat, int>, log: seq<Event>)
    ensures CloseSome(files, log, 0) == log
  {}

  lemma NoFiles(log: seq<Event>)
    ensures CloseAll(Files(map[]), log) == log
  {}
}
