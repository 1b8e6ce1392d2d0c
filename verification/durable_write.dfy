/** The writer: create_parent_path, then save_obj_contents (temporary file,
    write, optional fsync, close, and a rename into place), as driven by
    obj_backend_fs_write.

    Every system call that can fail takes its outcome from a WriteFaults
    record, and a write reports the state at every step boundary, so that
    what a crash at any point would leave behind can be stated. */
module DurableWrite {
  import opened FileSystem
  import opened Layout

  /** What one fsync call reports. */
  datatype SyncResult = SyncOk | SyncEinval | SyncError

  /** The outcome of each fallible system call of one write. */
  datatype WriteFaults = WriteFaults(
    mkdirBudget: nat,           // mkdir calls g_mkdir_with_parents is granted
    tmpSuffix: string,          // what g_mkstemp puts in place of XXXXXX
    tmpCreates: bool,           // g_mkstemp succeeds, unless the name is taken or the directory is missing
    writeErrorAt: Option<nat>,  // writen fails after this many bytes, when fewer than the payload
    fileSync: SyncResult,       // fsync of the temporary file
    closeOk: bool,              // close of the temporary file
    renameOk: bool,             // rename succeeds, unless a directory is in the way
    dirOpens: bool,             // the parent directory opens for its own fsync
    dirSync: SyncResult,        // fsync of the parent directory
    unlinkOk: bool)             // unlink of the old object in the non-durable mode

  /** Which branch ended the write. */
  datatype Stage =
    | Committed
    | ParentFailed
    | TempFailed
    | WriteFailed
    | FileSyncFailed
    | CloseFailed
    | RenameFailed
    | DirSyncFailed

  /** A write's C return value, the branch that produced it, and the state at
      each step boundary: trace[0] before the write, the last one after it. */
  datatype Run = Run(ret: int, stage: Stage, trace: seq<FS>)

  function Final(r: Run): FS
    requires |r.trace| > 0
  {
    r.trace[|r.trace| - 1]
  }

  /** "%s.XXXXXX": the temporary file is a sibling of the object file whose
      name is the object's name, a dot and the substituted characters. */
  function TempPath(path: Path, suffix: string): (t: Path)
    requires |path| > 0
    ensures |t| == |path| && Parent(t) == Parent(path) && t != path
    ensures t[|t| - 1] == path[|path| - 1] + "." + suffix
  {
    var t := Parent(path) + [path[|path| - 1] + "." + suffix];
    assert t[|t| - 1] != path[|path| - 1] by {
      assert |t[|t| - 1]| > |path[|path| - 1]|;
    }
    t
  }

  /** Nothing but the old content, the complete new content, or (in the
      non-durable mode only) no entry at all is ever found at the object path. */
  predicate NeverPartial(before: FS, now: FS, path: Path, data: seq<Byte>, needSync: bool) {
    || Lookup(now, path) == Lookup(before, path)
    || Lookup(now, path) == Some(File(data))
    || (!needSync && Lookup(now, path) == None)
  }

  /** Only the object path, its temporary file and new directories on the way
      down to the object differ between the two states. */
  ghost predicate OnlyTouches(before: FS, now: FS, path: Path, tmp: Path) {
    forall q :: Lookup(now, q) != Lookup(before, q) ==>
      q == path || q == tmp || (q !in before && q in now && now[q] == Dir && IsStrictPrefix(q, path))
  }

  /** fsync_obj_contents as built for Linux: a filesystem that does not
      support fsync reports EINVAL, which is not an error. */
  function FsyncObjContents(res: SyncResult): (ret: int)
    ensures ret == 0 || ret == -1
    ensures ret == -1 <==> res == SyncError
  {
    if res == SyncError then -1 else 0
  }

  /** create_parent_path: a parent that exists in any form is left alone,
      otherwise it is created with all its missing ancestors. */
  function CreateParentPath(fs: FS, path: Path, budget: nat): (r: Step)
    requires |path| > 0
    ensures r.ret == 0 || r.ret == -1
    ensures Present(fs, Parent(path)) ==> r == Step(fs, 0)
    ensures r.ret == 0 <==> Present(r.fs, Parent(path))
    ensures !Present(fs, Parent(path)) && budget < MissingFrom(fs, Parent(path), 0) ==> r.ret == -1
    ensures r.ret == 0 && !Present(fs, Parent(path)) ==> IsDir(r.fs, Parent(path))
    ensures AddsDirsOnto(fs, r.fs, Parent(path))
    ensures WellFormed(fs) ==> WellFormed(r.fs)
  {
    var dir := Parent(path);
    if Present(fs, dir) then Step(fs, 0)
    else
      var m := MkdirWithParents(fs, dir, budget);
      assert dir[..|dir|] == dir;
      MkdirWithParentsKeepsWellFormed(fs, dir, budget);
      m
  }

  /** rename_and_sync as built for Linux: the rename is the commit point; once
      it is done, an unopenable directory or an EINVAL from the directory
      fsync still counts as success, any other fsync error as failure. */
  function RenameAndSync(fs: FS, tmp: Path, path: Path, f: WriteFaults): (r: Run)
    requires IsFile(fs, tmp) && tmp != path
    ensures |r.trace| > 0 && r.trace[0] == fs
    ensures r.stage == Committed || r.stage == RenameFailed || r.stage == DirSyncFailed
    ensures r.ret == 0 <==> r.stage == Committed
    ensures r.ret == 0 || r.ret == -1
    ensures r.stage == RenameFailed ==> Final(r) == fs
    ensures r.stage != RenameFailed ==> Lookup(Final(r), path) == Some(fs[tmp]) && tmp !in Final(r)
    ensures r.stage == RenameFailed <==> !f.renameOk || IsDir(fs, path)
    ensures r.stage == DirSyncFailed <==>
              f.renameOk && !IsDir(fs, path) && f.dirOpens && f.dirSync == SyncError
    ensures forall i | 0 <= i < |r.trace| ::
      Lookup(r.trace[i], path) == Lookup(fs, path) || Lookup(r.trace[i], path) == Some(fs[tmp])
    ensures forall i, q | 0 <= i < |r.trace| && q != path && q != tmp :: Lookup(r.trace[i], q) == Lookup(fs, q)
  {
    if !f.renameOk || IsDir(fs, path) then Run(-1, RenameFailed, [fs])
    else
      var moved := Rename(fs, tmp, path);
      if f.dirOpens && f.dirSync == SyncError then Run(-1, DirSyncFailed, [fs, moved])
      else Run(0, Committed, [fs, moved])
  }

  /** The last step of save_obj_contents, once the temporary file is complete
      and closed: rename_and_sync in the durable mode; otherwise unlink the
      old object if there is one (its failure is ignored) and rename. */
  function CommitTemp(filled: FS, tmp: Path, path: Path, needSync: bool, f: WriteFaults): (r: Run)
    requires IsFile(filled, tmp) && tmp != path
    ensures |r.trace| > 0 && r.trace[0] == filled
    ensures r.ret == 0 || r.ret == -1
    ensures r.ret == 0 <==> r.stage == Committed
    ensures r.stage == Committed || r.stage == RenameFailed || r.stage == DirSyncFailed
    ensures r.ret == 0 ==> Lookup(Final(r), path) == Some(filled[tmp]) && tmp !in Final(r)
    ensures r.stage == RenameFailed <==> !f.renameOk || IsDir(filled, path)
    ensures r.stage == DirSyncFailed <==>
              needSync && f.renameOk && !IsDir(filled, path) && f.dirOpens && f.dirSync == SyncError
    ensures !needSync && f.unlinkOk && IsFile(filled, path) ==> |r.trace| > 1 && Lookup(r.trace[1], path) == None
  {
    if needSync then RenameAndSync(filled, tmp, path, f)
    else
      var cleared := if f.unlinkOk && IsFile(filled, path) then filled - {path} else filled;
      if !f.renameOk || IsDir(cleared, path) then Run(-1, RenameFailed, [filled, cleared])
      else Run(0, Committed, [filled, cleared, Rename(cleared, tmp, path)])
  }

  /** save_obj_contents: create the temporary file next to the object, fill
      it, flush it when asked to, close it and move it into place; the
      temporary file is not removed on any error path. */
  function SaveObjContents(fs: FS, path: Path, data: seq<Byte>, needSync: bool, f: WriteFaults): (r: Run)
    requires |path| > 0
    ensures |r.trace| > 0 && r.trace[0] == fs
    ensures r.ret == 0 || r.ret == -1
    ensures r.ret == 0 <==> r.stage == Committed
    ensures r.stage != ParentFailed
    ensures r.ret == 0 ==> Lookup(Final(r), path) == Some(File(data))
  {
    var tmp := TempPath(path, f.tmpSuffix);
    if !f.tmpCreates || !IsDir(fs, Parent(path)) || Present(fs, tmp) then Run(-1, TempFailed, [fs])
    else
      var created := fs[tmp := File([])];
      if f.writeErrorAt.Some? && f.writeErrorAt.value < |data| then
        Run(-1, WriteFailed, [fs, created, created[tmp := File(data[..f.writeErrorAt.value])]])
      else
        var filled := created[tmp := File(data)];
        if needSync && FsyncObjContents(f.fileSync) < 0 then Run(-1, FileSyncFailed, [fs, created, filled])
        else if !f.closeOk then Run(-1, CloseFailed, [fs, created, filled])
        else
          var c := CommitTemp(filled, tmp, path, needSync, f);
          Run(c.ret, c.stage, [fs, created] + c.trace)
  }

  /** obj_backend_fs_write: resolve the path, make sure its directory exists,
      then save.  The source takes the payload length as a C int. */
  function Write(b: Backend, fs: FS, id: string, repo: string, version: int,
                 data: seq<Byte>, needSync: bool, f: WriteFaults): (r: Run)
    requires ValidObjId(id) && |data| <= IntMax
    ensures |r.trace| > 0 && r.trace[0] == fs
    ensures r.ret == 0 || r.ret == -1
    ensures r.ret == 0 <==> r.stage == Committed
    ensures r.ret == 0 ==> Lookup(Final(r), IdToPath(b, id, repo, version)) == Some(File(data))
  {
    WriteAt(fs, IdToPath(b, id, repo, version), data, needSync, f)
  }

  /** A write once the object path is resolved: create the parent
      directories, then save the contents. */
  function WriteAt(fs: FS, path: Path, data: seq<Byte>, needSync: bool, f: WriteFaults): (r: Run)
    requires |path| > 0 && |data| <= IntMax
    ensures |r.trace| > 0 && r.trace[0] == fs
    ensures r.ret == 0 || r.ret == -1
    ensures r.ret == 0 <==> r.stage == Committed
    ensures r.ret == 0 ==> Lookup(Final(r), path) == Some(File(data))
  {
    var cp := CreateParentPath(fs, path, f.mkdirBudget);
    if cp.ret < 0 then
      Run(-1, ParentFailed, [fs, cp.fs])
    else
      var s := SaveObjContents(cp.fs, path, data, needSync, f);
      Prepend(fs, s)
  }

  /** A run that starts one step earlier, in state `fs`. */
  function Prepend(fs: FS, s: Run): (r: Run)
    requires |s.trace| > 0
    ensures r.ret == s.ret && r.stage == s.stage
    ensures |r.trace| == |s.trace| + 1 && r.trace[0] == fs && Final(r) == Final(s)
    ensures forall i | 0 <= i < |s.trace| :: r.trace[i + 1] == s.trace[i]
  {
    Run(s.ret, s.stage, [fs] + s.trace)
  }

  /** Nothing but the object path and its temporary file differ. */
  ghost predicate Frame(before: FS, now: FS, path: Path, tmp: Path) {
    forall q | q != path && q != tmp :: Lookup(now, q) == Lookup(before, q)
  }

  /** What the commit step leaves at the object path and the temporary path
      when it fails. */
  lemma CommitOutcome(filled: FS, tmp: Path, path: Path, needSync: bool, f: WriteFaults)
    requires IsFile(filled, tmp) && tmp != path
    ensures var c := CommitTemp(filled, tmp, path, needSync, f);
      && (c.stage == RenameFailed ==>
            && IsFile(Final(c), tmp)
            && Lookup(Final(c), path) == if !needSync && f.unlinkOk && IsFile(filled, path) then None else Lookup(filled, path))
      && (c.stage == DirSyncFailed ==> needSync && Lookup(Final(c), path) == Some(filled[tmp]))
  {
    if !needSync {
      var cleared := if f.unlinkOk && IsFile(filled, path) then filled - {path} else filled;
      assert Lookup(cleared, tmp) == Lookup(filled, tmp);
    }
  }

  /** What save_obj_contents leaves at the object path and at the temporary
      path, branch by branch. */
  lemma SaveOutcome(fs: FS, path: Path, data: seq<Byte>, needSync: bool, f: WriteFaults)
    requires |path| > 0
    ensures var r := SaveObjContents(fs, path, data, needSync, f);
            var tmp := TempPath(path, f.tmpSuffix);
      && (r.stage in {TempFailed, WriteFailed, FileSyncFailed, CloseFailed} ==>
            Lookup(Final(r), path) == Lookup(fs, path))
      && (r.stage == RenameFailed ==>
            Lookup(Final(r), path) == if !needSync && f.unlinkOk && IsFile(fs, path) then None else Lookup(fs, path))
      && (r.stage == DirSyncFailed ==> needSync && Lookup(Final(r), path) == Some(File(data)))
      && (r.ret == 0 ==> tmp !in Final(r))
      && (r.stage in {WriteFailed, FileSyncFailed, CloseFailed, RenameFailed} ==> IsFile(Final(r), tmp))
      && (r.stage != TempFailed ==> !Present(fs, tmp))
  {
    var r := SaveObjContents(fs, path, data, needSync, f);
    var tmp := TempPath(path, f.tmpSuffix);
    if !f.tmpCreates || !IsDir(fs, Parent(path)) || Present(fs, tmp) {
      return;
    }
    var created := fs[tmp := File([])];
    if f.writeErrorAt.Some? && f.writeErrorAt.value < |data| {
      return;
    }
    var filled := created[tmp := File(data)];
    if (needSync && FsyncObjContents(f.fileSync) < 0) || !f.closeOk {
      return;
    }
    var c := CommitTemp(filled, tmp, path, needSync, f);
    assert r == Run(c.ret, c.stage, [fs, created] + c.trace);
    assert Final(r) == Final(c);
    assert Lookup(filled, path) == Lookup(fs, path) && filled[tmp] == File(data);
    CommitOutcome(filled, tmp, path, needSync, f);
  }

  /** A state a write may pass through: the object path holds no partial
      content and nothing but the object and its temporary file has changed. */
  ghost predicate Admissible(fs: FS, now: FS, path: Path, tmp: Path, data: seq<Byte>, needSync: bool) {
    NeverPartial(fs, now, path, data, needSync) && Frame(fs, now, path, tmp)
  }

  /** Changing the temporary file alone is admissible. */
  lemma TempOnlyAdmissible(fs: FS, now: FS, path: Path, tmp: Path, data: seq<Byte>, needSync: bool)
    requires tmp != path
    requires forall q | q != tmp :: Lookup(now, q) == Lookup(fs, q)
    ensures Admissible(fs, now, path, tmp, data, needSync)
  {
    assert Lookup(now, path) == Lookup(fs, path);
  }

  /** Every state the commit step passes through differs from the closed
      temporary file's state only at the two paths, and holds at the object
      path its old entry, the temporary file's content or, without sync,
      nothing. */
  lemma CommitTrace(filled: FS, tmp: Path, path: Path, needSync: bool, f: WriteFaults)
    requires IsFile(filled, tmp) && tmp != path
    ensures var c := CommitTemp(filled, tmp, path, needSync, f);
      forall i | 0 <= i < |c.trace| ::
        && Frame(filled, c.trace[i], path, tmp)
        && (|| Lookup(c.trace[i], path) == Lookup(filled, path)
            || Lookup(c.trace[i], path) == Some(filled[tmp])
            || (!needSync && Lookup(c.trace[i], path) == None))
  {
    if !needSync {
      var cleared := if f.unlinkOk && IsFile(filled, path) then filled - {path} else filled;
      assert Frame(filled, cleared, path, tmp);
      if f.renameOk && !IsDir(cleared, path) {
        assert Frame(filled, Rename(cleared, tmp, path), path, tmp);
      }
    }
  }

  /** Every intermediate state of save_obj_contents holds the old content or
      the complete new content at the object path (or, without sync, nothing),
      and differs from the start only at the object and temporary paths. */
  lemma SaveTrace(fs: FS, path: Path, data: seq<Byte>, needSync: bool, f: WriteFaults)
    requires |path| > 0
    ensures var r := SaveObjContents(fs, path, data, needSync, f);
            var tmp := TempPath(path, f.tmpSuffix);
      forall i | 0 <= i < |r.trace| :: Admissible(fs, r.trace[i], path, tmp, data, needSync)
  {
    var r := SaveObjContents(fs, path, data, needSync, f);
    var tmp := TempPath(path, f.tmpSuffix);
    TempOnlyAdmissible(fs, fs, path, tmp, data, needSync);
    if !f.tmpCreates || !IsDir(fs, Parent(path)) || Present(fs, tmp) {
      assert r.trace == [fs];
      return;
    }
    var created := fs[tmp := File([])];
    TempOnlyAdmissible(fs, created, path, tmp, data, needSync);
    if f.writeErrorAt.Some? && f.writeErrorAt.value < |data| {
      var partial := created[tmp := File(data[..f.writeErrorAt.value])];
      TempOnlyAdmissible(fs, partial, path, tmp, data, needSync);
      assert r.trace == [fs, created, partial];
      return;
    }
    var filled := created[tmp := File(data)];
    TempOnlyAdmissible(fs, filled, path, tmp, data, needSync);
    if (needSync && FsyncObjContents(f.fileSync) < 0) || !f.closeOk {
      assert r.trace == [fs, created, filled];
      return;
    }
    var c := CommitTemp(filled, tmp, path, needSync, f);
    assert r.trace == [fs, created] + c.trace;
    CommitAdmissible(fs, filled, tmp, path, data, needSync, f);
  }

  /** Every state of the commit step is admissible for a save that started in
      `fs` and differs from it only at the filled temporary file. */
  lemma CommitAdmissible(fs: FS, filled: FS, tmp: Path, path: Path, data: seq<Byte>, needSync: bool, f: WriteFaults)
    requires tmp != path && IsFile(filled, tmp) && filled[tmp] == File(data)
    requires Frame(fs, filled, tmp, tmp) && Lookup(filled, path) == Lookup(fs, path)
    ensures var c := CommitTemp(filled, tmp, path, needSync, f);
      forall i | 0 <= i < |c.trace| :: Admissible(fs, c.trace[i], path, tmp, data, needSync)
  {
    var c := CommitTemp(filled, tmp, path, needSync, f);
    CommitTrace(filled, tmp, path, needSync, f);
    forall i | 0 <= i < |c.trace|
      ensures Admissible(fs, c.trace[i], path, tmp, data, needSync)
    {
      assert Frame(filled, c.trace[i], path, tmp);
    }
  }

  /** Creating the parent directory never changes the object path itself nor
      its temporary path. */
  lemma ParentCreationSparesObject(fs: FS, path: Path, suffix: string, budget: nat)
    requires |path| > 0
    ensures var cp := CreateParentPath(fs, path, budget);
      && Lookup(cp.fs, path) == Lookup(fs, path)
      && Lookup(cp.fs, TempPath(path, suffix)) == Lookup(fs, TempPath(path, suffix))
  {
  }

  /** What a write leaves at the object path, for each way it can end, and
      where it leaves its temporary file. */
  lemma WriteOutcome(b: Backend, fs: FS, id: string, repo: string, version: int,
                     data: seq<Byte>, needSync: bool, f: WriteFaults)
    requires ValidObjId(id) && |data| <= IntMax
    ensures var r := Write(b, fs, id, repo, version, data, needSync, f);
            var path := IdToPath(b, id, repo, version);
            var tmp := TempPath(path, f.tmpSuffix);
      && (r.stage in {ParentFailed, TempFailed, WriteFailed, FileSyncFailed, CloseFailed} ==>
            Lookup(Final(r), path) == Lookup(fs, path))
      && (r.stage == RenameFailed ==>
            Lookup(Final(r), path) == if !needSync && f.unlinkOk && IsFile(fs, path) then None else Lookup(fs, path))
      && (r.stage == DirSyncFailed ==> needSync && Lookup(Final(r), path) == Some(File(data)))
      && (r.ret == 0 ==> tmp !in Final(r))
      && (r.stage in {WriteFailed, FileSyncFailed, CloseFailed, RenameFailed} ==> IsFile(Final(r), tmp))
  {
    var path := IdToPath(b, id, repo, version);
    var cp := CreateParentPath(fs, path, f.mkdirBudget);
    ParentCreationSparesObject(fs, path, f.tmpSuffix, f.mkdirBudget);
    if cp.ret == 0 {
      SaveOutcome(cp.fs, path, data, needSync, f);
    }
  }

  /** Crash safety: at every step boundary of a write the object path holds
      its old content or the complete new content (in the non-durable mode it
      may also be briefly absent), and nothing but the object, its temporary
      file and new directories on the way down to it has changed. */
  lemma WriteTrace(b: Backend, fs: FS, id: string, repo: string, version: int,
                   data: seq<Byte>, needSync: bool, f: WriteFaults)
    requires ValidObjId(id) && |data| <= IntMax
    ensures var r := Write(b, fs, id, repo, version, data, needSync, f);
            var path := IdToPath(b, id, repo, version);
            var tmp := TempPath(path, f.tmpSuffix);
      forall i | 0 <= i < |r.trace| ::
        NeverPartial(fs, r.trace[i], path, data, needSync) && OnlyTouches(fs, r.trace[i], path, tmp)
  {
    PlacedWriteTrace(fs, IdToPath(b, id, repo, version), data, needSync, f);
  }

  /** WriteTrace for the resolved path. */
  lemma PlacedWriteTrace(fs: FS, path: Path, data: seq<Byte>, needSync: bool, f: WriteFaults)
    requires |path| > 0 && |data| <= IntMax
    ensures var r := WriteAt(fs, path, data, needSync, f);
            var tmp := TempPath(path, f.tmpSuffix);
      forall i | 0 <= i < |r.trace| ::
        NeverPartial(fs, r.trace[i], path, data, needSync) && OnlyTouches(fs, r.trace[i], path, tmp)
  {
    var r := WriteAt(fs, path, data, needSync, f);
    var tmp := TempPath(path, f.tmpSuffix);
    var cp := CreateParentPath(fs, path, f.mkdirBudget);
    ParentCreationSparesObject(fs, path, f.tmpSuffix, f.mkdirBudget);
    ParentStepTouches(fs, path, f.tmpSuffix, f.mkdirBudget);
    if cp.ret < 0 {
      assert r.trace == [fs, cp.fs];
      return;
    }
    var s := SaveObjContents(cp.fs, path, data, needSync, f);
    SaveTrace(cp.fs, path, data, needSync, f);
    assert r.trace == [fs] + s.trace;
    forall i | 0 <= i < |s.trace|
      ensures NeverPartial(fs, s.trace[i], path, data, needSync) && OnlyTouches(fs, s.trace[i], path, tmp)
    {
      TouchesCompose(fs, cp.fs, s.trace[i], path, tmp, data, needSync);
    }
  }

  /** Parent creation only adds directories on the way down to the object. */
  lemma ParentStepTouches(fs: FS, path: Path, suffix: string, budget: nat)
    requires |path| > 0
    ensures OnlyTouches(fs, CreateParentPath(fs, path, budget).fs, path, TempPath(path, suffix))
  {
    var cp := CreateParentPath(fs, path, budget);
    ParentCreationSparesObject(fs, path, suffix, budget);
    forall q | Lookup(cp.fs, q) != Lookup(fs, q)
      ensures q !in fs && q in cp.fs && cp.fs[q] == Dir && IsStrictPrefix(q, path)
    {
    }
  }

  /** A step admissible after a state that only added directories on the way
      down keeps the whole write within what it may touch. */
  lemma TouchesCompose(fs: FS, mid: FS, t: FS, path: Path, tmp: Path, data: seq<Byte>, needSync: bool)
    requires OnlyTouches(fs, mid, path, tmp) && Lookup(mid, path) == Lookup(fs, path)
    requires Admissible(mid, t, path, tmp, data, needSync)
    ensures NeverPartial(fs, t, path, data, needSync) && OnlyTouches(fs, t, path, tmp)
  {
    forall q | Lookup(t, q) != Lookup(fs, q)
      ensures q == path || q == tmp || (q !in fs && q in t && t[q] == Dir && IsStrictPrefix(q, path))
    {
      if q != path && q != tmp {
        assert Lookup(t, q) == Lookup(mid, q);
      }
    }
  }

  /** Moving a file onto a path that is not a directory, in the same
      directory, keeps the tree well formed. */
  lemma RenameKeepsWellFormed(fs: FS, tmp: Path, path: Path)
    requires IsFile(fs, tmp) && tmp != path && |path| > 0
    requires IsDir(fs, Parent(path)) && Parent(path) != tmp && !IsDir(fs, path)
    ensures WellFormed(fs) ==> WellFormed(Rename(fs, tmp, path))
  {
    RemoveFileKeepsWellFormed(fs, tmp);
    PutFileKeepsWellFormed(fs - {tmp}, path, fs[tmp].data);
    assert Rename(fs, tmp, path) == (fs - {tmp})[path := File(fs[tmp].data)];
  }

  /** The commit step keeps the tree well formed at every step boundary,
      given that the object's directory exists and is not the temporary file. */
  lemma CommitKeepsWellFormed(filled: FS, tmp: Path, path: Path, needSync: bool, f: WriteFaults)
    requires IsFile(filled, tmp) && tmp != path && |path| > 0 && WellFormed(filled)
    requires IsDir(filled, Parent(path)) && Parent(path) != tmp
    ensures var c := CommitTemp(filled, tmp, path, needSync, f);
      forall i | 0 <= i < |c.trace| :: WellFormed(c.trace[i])
  {
    var c := CommitTemp(filled, tmp, path, needSync, f);
    if needSync {
      if !f.renameOk || IsDir(filled, path) {
        assert c.trace == [filled];
      } else {
        RenameKeepsWellFormed(filled, tmp, path);
        assert c.trace == [filled, Rename(filled, tmp, path)];
      }
    } else {
      var cleared := if f.unlinkOk && IsFile(filled, path) then filled - {path} else filled;
      if f.unlinkOk && IsFile(filled, path) {
        RemoveFileKeepsWellFormed(filled, path);
      }
      assert IsFile(cleared, tmp) && IsDir(cleared, Parent(path));
      if !f.renameOk || IsDir(cleared, path) {
        assert c.trace == [filled, cleared];
      } else {
        RenameKeepsWellFormed(cleared, tmp, path);
        assert c.trace == [filled, cleared, Rename(cleared, tmp, path)];
      }
    }
  }

  /** save_obj_contents keeps the tree well formed at every step boundary. */
  lemma SaveKeepsWellFormed(fs: FS, path: Path, data: seq<Byte>, needSync: bool, f: WriteFaults)
    requires |path| > 0 && WellFormed(fs)
    ensures var s := SaveObjContents(fs, path, data, needSync, f);
      forall i | 0 <= i < |s.trace| :: WellFormed(s.trace[i])
  {
    var s := SaveObjContents(fs, path, data, needSync, f);
    var tmp := TempPath(path, f.tmpSuffix);
    if !f.tmpCreates || !IsDir(fs, Parent(path)) || Present(fs, tmp) {
      assert s.trace == [fs];
      return;
    }
    var created := fs[tmp := File([])];
    PutFileKeepsWellFormed(fs, tmp, []);
    if f.writeErrorAt.Some? && f.writeErrorAt.value < |data| {
      var partial := created[tmp := File(data[..f.writeErrorAt.value])];
      PutFileKeepsWellFormed(created, tmp, data[..f.writeErrorAt.value]);
      assert s.trace == [fs, created, partial];
      return;
    }
    var filled := created[tmp := File(data)];
    PutFileKeepsWellFormed(created, tmp, data);
    if (needSync && FsyncObjContents(f.fileSync) < 0) || !f.closeOk {
      assert s.trace == [fs, created, filled];
      return;
    }
    var c := CommitTemp(filled, tmp, path, needSync, f);
    assert s.trace == [fs, created] + c.trace;
    assert IsDir(filled, Parent(path)) && Parent(path) != tmp;
    CommitKeepsWellFormed(filled, tmp, path, needSync, f);
  }


  /** A write keeps the tree well formed at every step boundary. */
  lemma WriteKeepsWellFormed(b: Backend, fs: FS, id: string, repo: string, version: int,
                             data: seq<Byte>, needSync: bool, f: WriteFaults)
    requires ValidObjId(id) && |data| <= IntMax
    requires WellFormed(fs)
    ensures var r := Write(b, fs, id, repo, version, data, needSync, f);
      forall i | 0 <= i < |r.trace| :: WellFormed(r.trace[i])
  {
    var r := Write(b, fs, id, repo, version, data, needSync, f);
    var path := IdToPath(b, id, repo, version);
    var cp := CreateParentPath(fs, path, f.mkdirBudget);
    if cp.ret < 0 {
      assert r.trace == [fs, cp.fs];
    } else {
      SaveKeepsWellFormed(cp.fs, path, data, needSync, f);
      assert r.trace == [fs] + SaveObjContents(cp.fs, path, data, needSync, f).trace;
    }
  }

  /** The failure points of the write protocol: a failing temporary-file
      creation, writen, file fsync (other than EINVAL) or close aborts with -1
      and leaves the object path as it was; and when the parent directory and
      every call succeed, the write succeeds. */
  lemma WriteFailurePoints(b: Backend, fs: FS, id: string, repo: string, version: int,
                           data: seq<Byte>, needSync: bool, f: WriteFaults)
    requires ValidObjId(id) && |data| <= IntMax
    ensures var r := Write(b, fs, id, repo, version, data, needSync, f);
            var path := IdToPath(b, id, repo, version);
            var tmp := TempPath(path, f.tmpSuffix);
            var cp := CreateParentPath(fs, path, f.mkdirBudget);
      && (r.stage == ParentFailed <==> cp.ret < 0)
      && (!Present(fs, Parent(path)) && f.mkdirBudget < MissingFrom(fs, Parent(path), 0) ==> r.stage == ParentFailed)
      && (|| cp.ret < 0
          || !f.tmpCreates
          || (f.writeErrorAt.Some? && f.writeErrorAt.value < |data|)
          || (needSync && f.fileSync == SyncError)
          || !f.closeOk
          ==> r.ret == -1 && Lookup(Final(r), path) == Lookup(fs, path))
      && (&& IsDir(fs, Parent(path)) && !Present(fs, tmp) && !IsDir(fs, path)
          && f.tmpCreates && (f.writeErrorAt.None? || f.writeErrorAt.value >= |data|)
          && (!needSync || f.fileSync != SyncError) && f.closeOk && f.renameOk
          && (!needSync || !f.dirOpens || f.dirSync != SyncError)
          ==> r.ret == 0)
  {
    var path := IdToPath(b, id, repo, version);
    ParentFailurePoint(fs, path, data, needSync, f);
    SaveFailurePoints(fs, path, data, needSync, f);
    PlacedWriteSucceeds(fs, path, data, needSync, f);
  }

  /** A write stops at parent creation exactly when create_parent_path fails,
      which too few granted mkdir calls force, and then leaves the object
      path alone. */
  lemma ParentFailurePoint(fs: FS, path: Path, data: seq<Byte>, needSync: bool, f: WriteFaults)
    requires |path| > 0 && |data| <= IntMax
    ensures var r := WriteAt(fs, path, data, needSync, f);
            var cp := CreateParentPath(fs, path, f.mkdirBudget);
      && (r.stage == ParentFailed <==> cp.ret < 0)
      && (!Present(fs, Parent(path)) && f.mkdirBudget < MissingFrom(fs, Parent(path), 0) ==> r.stage == ParentFailed)
      && (cp.ret < 0 ==> r.ret == -1 && Lookup(Final(r), path) == Lookup(fs, path))
  {
    var cp := CreateParentPath(fs, path, f.mkdirBudget);
    ParentCreationSparesObject(fs, path, f.tmpSuffix, f.mkdirBudget);
    if cp.ret == 0 {
      SaveOutcome(cp.fs, path, data, needSync, f);
    }
  }

  /** The failure points of the save: each ends the write with -1 and leaves
      the object path alone. */
  lemma SaveFailurePoints(fs: FS, path: Path, data: seq<Byte>, needSync: bool, f: WriteFaults)
    requires |path| > 0 && |data| <= IntMax
    ensures var r := WriteAt(fs, path, data, needSync, f);
      || !f.tmpCreates
      || (f.writeErrorAt.Some? && f.writeErrorAt.value < |data|)
      || (needSync && f.fileSync == SyncError)
      || !f.closeOk
      ==> r.ret == -1 && Lookup(Final(r), path) == Lookup(fs, path)
  {
    var cp := CreateParentPath(fs, path, f.mkdirBudget);
    ParentCreationSparesObject(fs, path, f.tmpSuffix, f.mkdirBudget);
    if cp.ret == 0 {
      SaveOutcome(cp.fs, path, data, needSync, f);
    }
  }

  /** In an existing directory, with a free temporary name, no directory at
      the object path and every call granted, the write returns 0. */
  lemma PlacedWriteSucceeds(fs: FS, path: Path, data: seq<Byte>, needSync: bool, f: WriteFaults)
    requires |path| > 0 && |data| <= IntMax
    ensures && IsDir(fs, Parent(path)) && !Present(fs, TempPath(path, f.tmpSuffix)) && !IsDir(fs, path)
            && f.tmpCreates && (f.writeErrorAt.None? || f.writeErrorAt.value >= |data|)
            && (!needSync || f.fileSync != SyncError) && f.closeOk && f.renameOk
            && (!needSync || !f.dirOpens || f.dirSync != SyncError)
            ==> WriteAt(fs, path, data, needSync, f).ret == 0
  {
    if && IsDir(fs, Parent(path)) && !Present(fs, TempPath(path, f.tmpSuffix)) && !IsDir(fs, path)
       && f.tmpCreates && (f.writeErrorAt.None? || f.writeErrorAt.value >= |data|)
       && (!needSync || f.fileSync != SyncError) && f.closeOk && f.renameOk
       && (!needSync || !f.dirOpens || f.dirSync != SyncError) {
      SaveSucceeds(fs, path, data, needSync, f);
    }
  }

  /** What a committed write leaves behind: the new content at the object
      path, no temporary file, a well-formed tree, and otherwise only new
      directories on the way down to the object. */
  lemma WriteCommitted(b: Backend, fs: FS, id: string, repo: string, version: int,
                       data: seq<Byte>, needSync: bool, f: WriteFaults)
    requires ValidObjId(id) && |data| <= IntMax && WellFormed(fs)
    requires Write(b, fs, id, repo, version, data, needSync, f).ret == 0
    ensures var fs1 := Final(Write(b, fs, id, repo, version, data, needSync, f));
            var path := IdToPath(b, id, repo, version);
            var tmp := TempPath(path, f.tmpSuffix);
      && WellFormed(fs1)
      && Lookup(fs1, path) == Some(File(data))
      && tmp !in fs1
      && OnlyTouches(fs, fs1, path, tmp)
  {
    var w := Write(b, fs, id, repo, version, data, needSync, f);
    assert Final(w) == w.trace[|w.trace| - 1];
    WriteKeepsWellFormed(b, fs, id, repo, version, data, needSync, f);
    WriteOutcome(b, fs, id, repo, version, data, needSync, f);
    WriteTrace(b, fs, id, repo, version, data, needSync, f);
  }

  /** With no file on the way down and enough mkdir budget, the object's
      directory is there afterwards. */
  lemma CreateParentSucceeds(fs: FS, path: Path, budget: nat)
    requires |path| > 0 && budget >= |path|
    requires forall k | 0 < k < |path| :: !IsFile(fs, path[..k])
    ensures var cp := CreateParentPath(fs, path, budget);
      cp.ret == 0 && IsDir(cp.fs, Parent(path))
  {
    var parent := Parent(path);
    forall k | 0 < k <= |parent|
      ensures !IsFile(fs, parent[..k])
    {
      assert parent[..k] == path[..k];
    }
    if !Present(fs, parent) {
      MkdirWithParentsSucceeds(fs, parent, budget);
    } else {
      assert parent[..|parent|] == parent;
    }
  }

  /** Inside an existing directory, with a free temporary name, no directory
      at the object path and every call granted, the save commits. */
  lemma SaveSucceeds(fs: FS, path: Path, data: seq<Byte>, needSync: bool, f: WriteFaults)
    requires |path| > 0 && IsDir(fs, Parent(path))
    requires !Present(fs, TempPath(path, f.tmpSuffix)) && !IsDir(fs, path)
    requires && f.tmpCreates && (f.writeErrorAt.None? || f.writeErrorAt.value >= |data|)
             && (!needSync || f.fileSync != SyncError) && f.closeOk && f.renameOk
             && (!needSync || !f.dirOpens || f.dirSync != SyncError)
    ensures SaveObjContents(fs, path, data, needSync, f).ret == 0
  {
    var tmp := TempPath(path, f.tmpSuffix);
    var filled := fs[tmp := File([])][tmp := File(data)];
    assert !IsDir(filled, path);
  }

  /** How the commit step decides a run that reached it, judged on the state
      `before` the run: a refused rename, or a directory at the object path,
      ends it with RenameFailed; in the durable mode an fsync error (other
      than EINVAL) on a directory that opened ends it with DirSyncFailed,
      after the rename; anything else commits.  In the non-durable mode an old
      object file that may be unlinked is absent in some intermediate state. */
  predicate CommitDecided(r: Run, before: FS, path: Path, needSync: bool, f: WriteFaults) {
    && (r.stage == RenameFailed <==> !f.renameOk || IsDir(before, path))
    && (r.stage == DirSyncFailed <==>
          needSync && f.renameOk && !IsDir(before, path) && f.dirOpens && f.dirSync == SyncError)
    && (r.ret == 0 <==>
          f.renameOk && !IsDir(before, path) && !(needSync && f.dirOpens && f.dirSync == SyncError))
    && (!needSync && f.unlinkOk && IsFile(before, path) ==>
          exists i | 0 <= i < |r.trace| :: Lookup(r.trace[i], path) == None)
  }

  /** The commit step decides the run it starts. */
  lemma CommitTempDecided(filled: FS, tmp: Path, path: Path, needSync: bool, f: WriteFaults)
    requires IsFile(filled, tmp) && tmp != path
    ensures CommitDecided(CommitTemp(filled, tmp, path, needSync, f), filled, path, needSync, f)
  {
    var c := CommitTemp(filled, tmp, path, needSync, f);
    if !needSync && f.unlinkOk && IsFile(filled, path) {
      assert Lookup(c.trace[1], path) == None;
    }
  }

  /** A run that copies another's result after some extra leading states,
      starting from a state that agrees at the object path, is decided the
      same way. */
  lemma DecidedAfterPrefix(r: Run, s: Run, before: FS, mid: FS, pre: seq<FS>, path: Path,
                           needSync: bool, f: WriteFaults)
    requires CommitDecided(s, mid, path, needSync, f)
    requires r.ret == s.ret && r.stage == s.stage && r.trace == pre + s.trace
    requires Lookup(mid, path) == Lookup(before, path)
    ensures CommitDecided(r, before, path, needSync, f)
  {
    assert IsDir(mid, path) == IsDir(before, path) && IsFile(mid, path) == IsFile(before, path);
    if !needSync && f.unlinkOk && IsFile(before, path) {
      var i :| 0 <= i < |s.trace| && Lookup(s.trace[i], path) == None;
      assert r.trace[|pre| + i] == s.trace[i];
    }
  }

  /** Once save_obj_contents reaches its commit step (the temporary file was
      created, filled, flushed when asked to and closed), the rename and the
      directory fsync alone decide the outcome. */
  lemma SaveCommitStep(fs: FS, path: Path, data: seq<Byte>, needSync: bool, f: WriteFaults)
    requires |path| > 0 && IsDir(fs, Parent(path)) && !Present(fs, TempPath(path, f.tmpSuffix))
    requires && f.tmpCreates && (f.writeErrorAt.None? || f.writeErrorAt.value >= |data|)
             && (!needSync || f.fileSync != SyncError) && f.closeOk
    ensures CommitDecided(SaveObjContents(fs, path, data, needSync, f), fs, path, needSync, f)
  {
    var tmp := TempPath(path, f.tmpSuffix);
    var created := fs[tmp := File([])];
    var filled := created[tmp := File(data)];
    SaveReachesCommit(fs, path, data, needSync, f);
    CommitTempDecided(filled, tmp, path, needSync, f);
    DecidedAfterPrefix(SaveObjContents(fs, path, data, needSync, f), CommitTemp(filled, tmp, path, needSync, f),
                       fs, filled, [fs, created], path, needSync, f);
  }

  /** A save whose calls before the rename are all granted ends as its commit
      step does, after the two states of creating and filling the temporary
      file; the object path is as it was when the commit step starts. */
  lemma SaveReachesCommit(fs: FS, path: Path, data: seq<Byte>, needSync: bool, f: WriteFaults)
    requires |path| > 0 && IsDir(fs, Parent(path)) && !Present(fs, TempPath(path, f.tmpSuffix))
    requires && f.tmpCreates && (f.writeErrorAt.None? || f.writeErrorAt.value >= |data|)
             && (!needSync || f.fileSync != SyncError) && f.closeOk
    ensures var tmp := TempPath(path, f.tmpSuffix);
            var created := fs[tmp := File([])];
            var filled := created[tmp := File(data)];
            var c := CommitTemp(filled, tmp, path, needSync, f);
            var r := SaveObjContents(fs, path, data, needSync, f);
      && r.ret == c.ret && r.stage == c.stage && r.trace == [fs, created] + c.trace
      && IsFile(filled, tmp) && Lookup(filled, path) == Lookup(fs, path)
  {
  }

  /** The commit step of a whole write: with no file among the object's
      ancestors, enough mkdir budget, a free temporary name and every call
      before the rename granted, the rename and the directory fsync decide
      the outcome, judged on the state before the write. */
  lemma WriteCommitStep(b: Backend, fs: FS, id: string, repo: string, version: int,
                        data: seq<Byte>, needSync: bool, f: WriteFaults)
    requires ValidObjId(id) && |data| <= IntMax
    requires var path := IdToPath(b, id, repo, version);
      && (forall k | 0 < k < |path| :: !IsFile(fs, path[..k]))
      && !Present(fs, TempPath(path, f.tmpSuffix))
      && f.mkdirBudget >= |path|
    requires && f.tmpCreates && (f.writeErrorAt.None? || f.writeErrorAt.value >= |data|)
             && (!needSync || f.fileSync != SyncError) && f.closeOk
    ensures CommitDecided(Write(b, fs, id, repo, version, data, needSync, f),
                          fs, IdToPath(b, id, repo, version), needSync, f)
  {
    var path := IdToPath(b, id, repo, version);
    var cp := CreateParentPath(fs, path, f.mkdirBudget);
    WriteReachesSave(b, fs, id, repo, version, data, needSync, f);
    SaveCommitStep(cp.fs, path, data, needSync, f);
    DecidedAfterPrefix(Write(b, fs, id, repo, version, data, needSync, f),
                       SaveObjContents(cp.fs, path, data, needSync, f), fs, cp.fs, [fs], path, needSync, f);
  }

  /** With no file among the object's ancestors, enough mkdir budget and a
      free temporary name, a write is the save that follows a successful
      parent creation, which leaves the object and temporary paths alone. */
  lemma WriteReachesSave(b: Backend, fs: FS, id: string, repo: string, version: int,
                         data: seq<Byte>, needSync: bool, f: WriteFaults)
    requires ValidObjId(id) && |data| <= IntMax
    requires var path := IdToPath(b, id, repo, version);
      && (forall k | 0 < k < |path| :: !IsFile(fs, path[..k]))
      && !Present(fs, TempPath(path, f.tmpSuffix))
      && f.mkdirBudget >= |path|
    ensures var r := Write(b, fs, id, repo, version, data, needSync, f);
            var path := IdToPath(b, id, repo, version);
            var cp := CreateParentPath(fs, path, f.mkdirBudget);
            var s := SaveObjContents(cp.fs, path, data, needSync, f);
      && r.ret == s.ret && r.stage == s.stage && r.trace == [fs] + s.trace
      && IsDir(cp.fs, Parent(path)) && !Present(cp.fs, TempPath(path, f.tmpSuffix))
      && Lookup(cp.fs, path) == Lookup(fs, path)
  {
    var path := IdToPath(b, id, repo, version);
    CreateParentSucceeds(fs, path, f.mkdirBudget);
    ParentCreationSparesObject(fs, path, f.tmpSuffix, f.mkdirBudget);
  }

  /** When the system grants every call, a write succeeds, provided no
      ancestor of the object is a file, nothing sits at the temporary path,
      no directory sits at the object path, and the mkdir budget covers every
      component of the object's directory. */
  lemma WriteSucceeds(b: Backend, fs: FS, id: string, repo: string, version: int,
                      data: seq<Byte>, needSync: bool, f: WriteFaults)
    requires ValidObjId(id) && |data| <= IntMax
    requires var path := IdToPath(b, id, repo, version);
      && (forall k | 0 < k < |path| :: !IsFile(fs, path[..k]))
      && !Present(fs, TempPath(path, f.tmpSuffix)) && !IsDir(fs, path)
      && f.mkdirBudget >= |path|
    requires && f.tmpCreates && (f.writeErrorAt.None? || f.writeErrorAt.value >= |data|)
             && (!needSync || f.fileSync != SyncError) && f.closeOk && f.renameOk
             && (!needSync || !f.dirOpens || f.dirSync != SyncError)
    ensures Write(b, fs, id, repo, version, data, needSync, f).ret == 0
  {
    var path := IdToPath(b, id, repo, version);
    var cp := CreateParentPath(fs, path, f.mkdirBudget);
    CreateParentSucceeds(fs, path, f.mkdirBudget);
    ParentCreationSparesObject(fs, path, f.tmpSuffix, f.mkdirBudget);
    SaveSucceeds(cp.fs, path, data, needSync, f);
  }
}
