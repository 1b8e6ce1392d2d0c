/** Properties that relate several operations of the backend: what a write
    means for later reads, probes, walks and other objects, and what
    remove_store means for the objects of a store. */
module Properties {
  import opened FileSystem
  import opened Layout
  import opened ObjectOps
  import opened DurableWrite
  import opened Walks

  /** Round trip: after a successful write, a read of the same object (in
      either build) hands back exactly the written bytes with their length,
      and the object exists. */
  lemma WriteThenRead(b: Backend, fs: FS, env: Env, id: string, repo: string, version: int,
                      data: seq<Byte>, needSync: bool, f: WriteFaults, migration: bool)
    requires ValidObjId(id) && |data| <= IntMax
    ensures var r := Write(b, fs, id, repo, version, data, needSync, f);
            var p := IdToPath(b, id, repo, version);
      && (r.ret == 0 ==> Exists(b, Final(r), id, repo, version))
      && (r.ret == 0 && p !in env.unreadable ==> Read(b, Final(r), env, id, repo, version, migration) == Loaded(data, |data|))
      && (r.ret == 0 && p in env.unreadable && !migration ==> Read(b, Final(r), env, id, repo, version, migration).ReadFailed?)
  {
    var r := Write(b, fs, id, repo, version, data, needSync, f);
    if r.ret == 0 {
      var p := IdToPath(b, id, repo, version);
      assert IsFile(Final(r), p) && Final(r)[p] == File(data);
    }
  }

  /** Another object's path is neither the temporary file of this object nor
      one of the directories above it. */
  lemma OtherObjectPathApart(b: Backend, seafDir: Path, objType: string,
                             id: string, repo: string, version: int, suffix: string,
                             id2: string, repo2: string, version2: int)
    requires BuiltFrom(b, seafDir, objType)
    requires ValidObjId(id) && ValidObjId(id2)
    requires IdToPath(b, id2, repo2, version2) != IdToPath(b, id, repo, version)
    ensures var path := IdToPath(b, id, repo, version);
            var p2 := IdToPath(b, id2, repo2, version2);
      p2 != TempPath(path, suffix) && !IsStrictPrefix(p2, path)
  {
    var path := IdToPath(b, id, repo, version);
    var tmp := TempPath(path, suffix);
    var p2 := IdToPath(b, id2, repo2, version2);
    PathLayout(b, id, repo, version);
    PathLayout(b, id2, repo2, version2);
    assert p2 != tmp by {
      assert |tmp[|tmp| - 1]| > 38;
    }
    assert !IsStrictPrefix(p2, path) by {
      if version2 <= 0 < version {
        LayoutsDisjoint(b, seafDir, objType, id2, repo2, version2, id, repo, version);
      }
    }
  }

  /** A write changes no other object: at every step boundary, the entry at
      any other object path of the same backend is as it was before. */
  lemma WriteSparesOtherObjects(b: Backend, seafDir: Path, objType: string, fs: FS, env: Env,
                                id: string, repo: string, version: int,
                                data: seq<Byte>, needSync: bool, f: WriteFaults,
                                id2: string, repo2: string, version2: int)
    requires BuiltFrom(b, seafDir, objType)
    requires ValidObjId(id) && ValidObjId(id2) && |data| <= IntMax
    requires IdToPath(b, id2, repo2, version2) != IdToPath(b, id, repo, version)
    ensures var r := Write(b, fs, id, repo, version, data, needSync, f);
            var p2 := IdToPath(b, id2, repo2, version2);
      forall i | 0 <= i < |r.trace| ::
        && Lookup(r.trace[i], p2) == Lookup(fs, p2)
        && Exists(b, r.trace[i], id2, repo2, version2) == Exists(b, fs, id2, repo2, version2)
        && Read(b, r.trace[i], env, id2, repo2, version2, false) == Read(b, fs, env, id2, repo2, version2, false)
  {
    var r := Write(b, fs, id, repo, version, data, needSync, f);
    var path := IdToPath(b, id, repo, version);
    var tmp := TempPath(path, f.tmpSuffix);
    var p2 := IdToPath(b, id2, repo2, version2);
    WriteTrace(b, fs, id, repo, version, data, needSync, f);
    OtherObjectPathApart(b, seafDir, objType, id, repo, version, f.tmpSuffix, id2, repo2, version2);
    forall i | 0 <= i < |r.trace|
      ensures && Lookup(r.trace[i], p2) == Lookup(fs, p2)
              && Exists(b, r.trace[i], id2, repo2, version2) == Exists(b, fs, id2, repo2, version2)
              && Read(b, r.trace[i], env, id2, repo2, version2, false) == Read(b, fs, env, id2, repo2, version2, false)
    {
      assert OnlyTouches(fs, r.trace[i], path, tmp);
      SameEntrySameObject(b, fs, r.trace[i], env, id2, repo2, version2);
    }
  }

  /** Existence and reading depend on nothing but the entry at the object
      path. */
  lemma SameEntrySameObject(b: Backend, fs: FS, fs': FS, env: Env, id: string, repo: string, version: int)
    requires ValidObjId(id)
    requires Lookup(fs', IdToPath(b, id, repo, version)) == Lookup(fs, IdToPath(b, id, repo, version))
    ensures Exists(b, fs', id, repo, version) == Exists(b, fs, id, repo, version)
    ensures Read(b, fs', env, id, repo, version, false) == Read(b, fs, env, id, repo, version, false)
  {
  }

  /** Version isolation: writing an object in one layout does not change
      whether it exists, or what a read returns, in the other layout. */
  lemma VersionIsolation(b: Backend, seafDir: Path, objType: string, fs: FS, env: Env,
                         id: string, repo: string, version: int,
                         data: seq<Byte>, needSync: bool, f: WriteFaults, otherVersion: int)
    requires BuiltFrom(b, seafDir, objType)
    requires ValidObjId(id) && |data| <= IntMax
    requires (version <= 0) != (otherVersion <= 0)
    ensures var r := Write(b, fs, id, repo, version, data, needSync, f);
      && Exists(b, Final(r), id, repo, otherVersion) == Exists(b, fs, id, repo, otherVersion)
      && Read(b, Final(r), env, id, repo, otherVersion, false) == Read(b, fs, env, id, repo, otherVersion, false)
  {
    assert |IdToPath(b, id, repo, version)| != |IdToPath(b, id, repo, otherVersion)|;
    WriteSparesOtherObjects(b, seafDir, objType, fs, env, id, repo, version, data, needSync, f, id, repo, otherVersion);
  }

  /** A successful write is enumerated: with faithful listings afterwards and
      directories that open, a walk that never stops visits the identifier. */
  lemma WriteThenForeach(b: Backend, fs: FS, env: Env, id: string, repo: string, version: int,
                         data: seq<Byte>, needSync: bool, f: WriteFaults, visit: Visitor)
    requires ValidObjId(id) && |data| <= IntMax
    requires WellFormed(fs)
    requires WellListed(Final(Write(b, fs, id, repo, version, data, needSync, f)), env)
    requires forall h, x :: visit(h, x)
    requires var root := LayoutRoot(b, repo, version);
      root !in env.unopenable && root + [id[..2]] !in env.unopenable
    ensures var r := Write(b, fs, id, repo, version, data, needSync, f);
      r.ret == 0 ==> id in ForeachObj(b, Final(r), env, repo, version, visit).walk.visited
  {
    var r := Write(b, fs, id, repo, version, data, needSync, f);
    if r.ret == 0 {
      var root := LayoutRoot(b, repo, version);
      var path := IdToPath(b, id, repo, version);
      var fin := Final(r);
      WriteCommitted(b, fs, id, repo, version, data, needSync, f);
      PathPrefixes(b, id, repo, version);
      ForeachObjFindsEntry(b, fin, env, repo, version, visit, path);
    }
  }

  /** A write that fails after its temporary file was created leaves that
      file in the fan-out directory, and a later walk hands the callback its
      name as an identifier: the object identifier followed by a dot and the
      temporary suffix, which is not a valid identifier. */
  lemma LeftoverTempIsEnumerated(b: Backend, fs: FS, env: Env, id: string, repo: string, version: int,
                                 data: seq<Byte>, needSync: bool, f: WriteFaults, visit: Visitor)
    requires ValidObjId(id) && |data| <= IntMax
    requires WellFormed(fs)
    requires WellListed(Final(Write(b, fs, id, repo, version, data, needSync, f)), env)
    requires forall h, x :: visit(h, x)
    requires var root := LayoutRoot(b, repo, version);
      root !in env.unopenable && root + [id[..2]] !in env.unopenable
    ensures var r := Write(b, fs, id, repo, version, data, needSync, f);
            var tmpId := id + "." + f.tmpSuffix;
      && !ValidObjId(tmpId)
      && (r.stage in {WriteFailed, FileSyncFailed, CloseFailed, RenameFailed} ==>
            tmpId in ForeachObj(b, Final(r), env, repo, version, visit).walk.visited)
  {
    var r := Write(b, fs, id, repo, version, data, needSync, f);
    if r.stage in {WriteFailed, FileSyncFailed, CloseFailed, RenameFailed} {
      var root := LayoutRoot(b, repo, version);
      var path := IdToPath(b, id, repo, version);
      var tmp := TempPath(path, f.tmpSuffix);
      var fin := Final(r);
      assert WellFormed(fin) by {
        WriteKeepsWellFormed(b, fs, id, repo, version, data, needSync, f);
        assert fin == r.trace[|r.trace| - 1];
      }
      assert tmp in fin by {
        WriteOutcome(b, fs, id, repo, version, data, needSync, f);
      }
      TempPathLayout(b, id, repo, version, f.tmpSuffix);
      ForeachObjFindsEntry(b, fin, env, repo, version, visit, tmp);
    }
  }

  /** The temporary file of an object sits in the object's fan-out
      directory, and the identifier a walk rebuilds from it is the object
      identifier followed by a dot and the suffix. */
  lemma TempPathLayout(b: Backend, id: string, repo: string, version: int, suffix: string)
    requires ValidObjId(id)
    ensures var root := LayoutRoot(b, repo, version);
            var tmp := TempPath(IdToPath(b, id, repo, version), suffix);
      && |tmp| == |root| + 2 && tmp[..|root|] == root && tmp[..|root| + 1] == root + [id[..2]]
      && IdOfPath(tmp) == id + "." + suffix
  {
    var root := LayoutRoot(b, repo, version);
    var tmp := TempPath(IdToPath(b, id, repo, version), suffix);
    PathLayout(b, id, repo, version);
    assert tmp == root + [id[..2]] + [id[2..] + "." + suffix];
    assert id[..2] + id[2..] == id;
    assert id[..2] + (id[2..] + "." + suffix) == (id[..2] + id[2..]) + "." + suffix;
  }

  /** After remove_store succeeds on an opened root with faithful listings,
      no object of that store that was stored as a file exists any more,
      unless its unlink was refused. */
  lemma RemoveStoreErasesObjects(b: Backend, fs: FS, env: Env, store: string, id: string, version: int)
    requires WellFormed(fs) && WellListed(fs, env)
    requires ValidObjId(id) && version > 0
    requires IdToPath(b, id, store, version) !in env.undeletable
    ensures var r := RemoveStore(b, fs, env, store);
      r.ret == 0 && Opens(fs, env, b.objDir + [store]) && IsFile(fs, IdToPath(b, id, store, version)) ==>
        !Exists(b, r.fs, id, store, version) && Read(b, r.fs, env, id, store, version, false).ReadFailed?
  {
    var root := b.objDir + [store];
    var p := IdToPath(b, id, store, version);
    RemoveStoreClears(b, fs, env, store);
    assert IsStrictPrefix(root, p) && |p| == |root| + 2;
  }

  /** remove_store never touches the legacy root, a legacy object, or an
      object of another store. */
  lemma RemoveStoreSparesOthers(b: Backend, seafDir: Path, objType: string, fs: FS, env: Env,
                                store: string, id: string, repo: string, version: int)
    requires BuiltFrom(b, seafDir, objType)
    requires ValidObjId(id) && (version <= 0 || repo != store)
    ensures var r := RemoveStore(b, fs, env, store);
      && Lookup(r.fs, b.v0ObjDir) == Lookup(fs, b.v0ObjDir)
      && Lookup(r.fs, IdToPath(b, id, repo, version)) == Lookup(fs, IdToPath(b, id, repo, version))
      && Exists(b, r.fs, id, repo, version) == Exists(b, fs, id, repo, version)
      && Read(b, r.fs, env, id, repo, version, false) == Read(b, fs, env, id, repo, version, false)
  {
    var root := b.objDir + [store];
    var p := IdToPath(b, id, repo, version);
    PathLayout(b, id, repo, version);
    if version <= 0 {
      assert !IsPrefix(root, p) by {
        if objType == "storage" {
          assert root[|seafDir| + 1] != p[|seafDir| + 1];
        } else {
          assert root[|seafDir|] != p[|seafDir|];
        }
      }
    } else {
      assert root[|b.objDir|] != p[|b.objDir|];
    }
  }

  const ExampleId := "aa00000000000000000000000000000000000000"
  const Hello: seq<Byte> := [104, 101, 108, 108, 111]
  const AllGranted := WriteFaults(6, "Xy12Zq", true, None, SyncOk, true, true, true, SyncOk, true)
  const ExampleBackend := Backend(["top", "blocks"], ["top", "storage", "blocks"])

  /** Construction adds only directories on the way to the two roots, so a
      tree of directories no deeper than the storage root stays one. */
  lemma NewKeepsShallow(fs: FS, seafDir: Path, objType: string, legacyBudget: nat, storageBudget: nat, n: nat)
    requires forall p | p in fs :: fs[p] == Dir && |p| <= n
    requires |StorageRoot(seafDir, objType)| <= n
    ensures var c := New(fs, seafDir, objType, legacyBudget, storageBudget);
      forall p | p in c.fs :: c.fs[p] == Dir && |p| <= n
  {
    var c := New(fs, seafDir, objType, legacyBudget, storageBudget);
    forall p | p in c.fs
      ensures c.fs[p] == Dir && |p| <= n
    {
      if p !in fs {
        assert IsPrefix(p, LegacyRoot(seafDir, objType)) || IsPrefix(p, StorageRoot(seafDir, objType));
      }
    }
  }

  /** Worked example, first step: a backend for "blocks" under a top
      directory that holds nothing else; it only adds directories of depth at
      most three. */
  lemma ExampleConstruction(fs0: FS, top: Path)
    requires top == ["top"] && fs0 == map[top := Dir]
    ensures var c := New(fs0, top, "blocks", 3, 3);
      && c.backend == Some(ExampleBackend)
      && WellFormed(c.fs)
      && forall p | p in c.fs :: c.fs[p] == Dir && |p| <= 3
  {
    assert LegacyRoot(top, "blocks") == ["top", "blocks"];
    assert StorageRoot(top, "blocks") == ["top", "storage", "blocks"];
    assert New(fs0, top, "blocks", 3, 3).backend == Some(ExampleBackend) by {
      NewSucceeds(fs0, top, "blocks", 3, 3);
    }
    assert WellFormed(fs0) by {
      forall p | p in fs0
        ensures HangsOff(fs0, p)
      {
        assert Parent(p) == [];
      }
    }
    NewKeepsShallow(fs0, top, "blocks", 3, 3, 3);
  }

  /** The example identifier is well formed and lives in bucket "aa". */
  lemma ExampleIdShape(id: string)
    requires id == ExampleId
    ensures ValidObjId(id) && id[..2] == "aa"
  {
    assert id[..2] == [id[0], id[1]];
  }

  /** Worked example, second step: one durable write of "hello" into store
      "repo1" with every system call succeeding, on a tree of directories no
      deeper than three; a read and a probe then see the object. */
  lemma ExampleWrite(fs: FS, env: Env, b: Backend, id: string, data: seq<Byte>, f: WriteFaults)
    requires b == ExampleBackend && ValidObjId(id) && id[..2] == "aa"
    requires data == Hello && f == AllGranted && env.unreadable == {}
    requires forall p | p in fs :: fs[p] == Dir && |p| <= 3
    ensures var w := Write(b, fs, id, "repo1", 1, data, true, f);
            var fs1 := Final(w);
      && w.ret == 0
      && Lookup(fs1, ["top", "storage", "blocks", "repo1", "aa", id[2..]]) == Some(File(data))
      && Read(b, fs1, env, id, "repo1", 1, false) == Loaded(data, 5)
      && Exists(b, fs1, id, "repo1", 1)
  {
    var path := IdToPath(b, id, "repo1", 1);
    assert path == ["top", "storage", "blocks", "repo1", "aa", id[2..]];
    assert forall k | 0 < k < |path| :: !IsFile(fs, path[..k]);
    assert !Present(fs, TempPath(path, f.tmpSuffix));
    WriteSucceeds(b, fs, id, "repo1", 1, data, true, f);
    WriteThenRead(b, fs, env, id, "repo1", 1, data, true, f, false);
  }

  /** A store that a single write created on a tree of shallow directories
      has the two-level shape: bucket directories under the store root and
      object files under them, with nothing refused by a faithful system. */
  lemma FreshStoreIsTwoLevel(fs: FS, fs1: FS, root: Path, path: Path, tmp: Path)
    requires forall p | p in fs :: fs[p].Dir? && |p| < |root|
    requires |path| == |root| + 2 && path[..|root|] == root
    requires OnlyTouches(fs, fs1, path, tmp) && tmp !in fs1
    requires IsFile(fs1, path)
    ensures TwoLevel(fs1, FaithfulEnv(fs1), root) && !IsFile(fs1, root)
  {
    forall q | q in fs1 && IsStrictPrefix(root, q)
      ensures (|q| == |root| + 1 && fs1[q].Dir?) || (|q| == |root| + 2 && fs1[q].File?)
    {
      assert Lookup(fs1, q) != Lookup(fs, q);
    }
    if root in fs1 {
      assert Lookup(fs1, root) != Lookup(fs, root);
      assert IsStrictPrefix(root, path);
    }
  }

  /** With faithful listings, remove_store clears a two-level store root. */
  lemma FaithfulRemovalClears(b: Backend, fs: FS, repo: string)
    requires WellFormed(fs)
    requires TwoLevel(fs, FaithfulEnv(fs), b.objDir + [repo]) && !IsFile(fs, b.objDir + [repo])
    ensures var gone := RemoveStore(b, fs, FaithfulEnv(fs), repo);
      && gone.ret == 0
      && forall q | IsPrefix(b.objDir + [repo], q) :: q !in gone.fs
  {
    FaithfulEnvListed(fs);
    RemoveStoreComplete(b, fs, FaithfulEnv(fs), repo);
  }

  /** After a successful write of a versioned object into a tree of
      directories no deeper than the store root's parent, removing the store
      with faithful listings and nothing refused succeeds and leaves nothing
      at or below the store root; the object is gone. */
  lemma RemoveFreshStore(b: Backend, fs: FS, id: string, repo: string, version: int,
                         data: seq<Byte>, needSync: bool, f: WriteFaults)
    requires ValidObjId(id) && |data| <= IntMax && version > 0
    requires WellFormed(fs)
    requires forall p | p in fs :: fs[p].Dir? && |p| <= |b.objDir|
    requires Write(b, fs, id, repo, version, data, needSync, f).ret == 0
    ensures var fs1 := Final(Write(b, fs, id, repo, version, data, needSync, f));
            var gone := RemoveStore(b, fs1, FaithfulEnv(fs1), repo);
      && gone.ret == 0
      && !Exists(b, gone.fs, id, repo, version)
      && forall q | IsPrefix(b.objDir + [repo], q) :: q !in gone.fs
  {
    var w := Write(b, fs, id, repo, version, data, needSync, f);
    var fs1 := Final(w);
    var path := IdToPath(b, id, repo, version);
    var tmp := TempPath(path, f.tmpSuffix);
    var root := b.objDir + [repo];
    WriteCommitted(b, fs, id, repo, version, data, needSync, f);
    PathPrefixes(b, id, repo, version);
    FreshStoreIsTwoLevel(fs, fs1, root, path, tmp);
    FaithfulRemovalClears(b, fs1, repo);
    assert IsPrefix(root, path);
  }
}
