/** Where objects live: the two roots of a backend (FsPriv), the two-level
    fan-out below them (id_to_path), and backend construction
    (obj_backend_fs_new). */
module Layout {
  import opened FileSystem

  const HexDigits := "0123456789abcdef"

  /** The largest value of a C `int`, the type of the byte counts the store
      exchanges with its callers. */
  const IntMax := 0x7fff_ffff

  /** An object identifier as callers hand it over: a 40-character lowercase
      hexadecimal digest.  id_to_path copies its first 2 characters and then
      39 bytes from offset 2 (the last 38 characters and the terminating NUL),
      so nothing shorter can be resolved. */
  predicate ValidObjId(id: string) {
    |id| == 40 && forall i | 0 <= i < |id| :: id[i] in HexDigits
  }

  /** FsPriv: the legacy (version 0) root and the per-store root. */
  datatype Backend = Backend(v0ObjDir: Path, objDir: Path)

  function LegacyRoot(seafDir: Path, objType: string): Path {
    seafDir + [objType]
  }

  function StorageRoot(seafDir: Path, objType: string): Path {
    seafDir + ["storage", objType]
  }

  predicate BuiltFrom(b: Backend, seafDir: Path, objType: string) {
    b.v0ObjDir == LegacyRoot(seafDir, objType) && b.objDir == StorageRoot(seafDir, objType)
  }

  /** The directory whose entries are the fan-out directories of one
      (store, version): what foreach_obj opens first. */
  function LayoutRoot(b: Backend, repo: string, version: int): (root: Path)
    ensures version <= 0 ==> root == b.v0ObjDir
    ensures version > 0 ==> IsStrictPrefix(b.objDir, root) && |root| == |b.objDir| + 1 && root[|b.objDir|] == repo
  {
    if version > 0 then b.objDir + [repo] else b.v0ObjDir
  }

  /** id_to_path: `obj_dir/repo/ab/cdef...` for a positive version, and
      `v0_obj_dir/ab/cdef...` otherwise. */
  function IdToPath(b: Backend, id: string, repo: string, version: int): (p: Path)
    requires ValidObjId(id)
    ensures |p| >= 2 && IdOfPath(p) == id
  {
    assert id[..2] + id[2..] == id;
    if version > 0 then b.objDir + [repo, id[..2], id[2..]]
    else b.v0ObjDir + [id[..2], id[2..]]
  }

  /** The identifier a walk rebuilds from the last two components of a path. */
  function IdOfPath(p: Path): string
    requires |p| >= 2
  {
    p[|p| - 2] + p[|p| - 1]
  }

  /** The object path is the layout root followed by the 2-character fan-out
      directory and the 38-character remainder, both proper names, and the
      identifier is recovered by concatenating the two. */
  lemma PathLayout(b: Backend, id: string, repo: string, version: int)
    requires ValidObjId(id)
    ensures var p := IdToPath(b, id, repo, version);
      && p == LayoutRoot(b, repo, version) + [id[..2]] + [id[2..]]
      && |p[|p| - 2]| == 2 && |p[|p| - 1]| == 38
      && ValidName(p[|p| - 2]) && ValidName(p[|p| - 1])
      && IdOfPath(p) == id
  {
    var p := IdToPath(b, id, repo, version);
    assert id[..2] + id[2..] == id;
    assert id[..2][0] == id[0] && id[0] in HexDigits;
    if version > 0 {
      assert p == b.objDir + [repo] + [id[..2]] + [id[2..]];
    }
  }

  /** The object path's prefixes are the layout root and its fan-out
      directory. */
  lemma PathPrefixes(b: Backend, id: string, repo: string, version: int)
    requires ValidObjId(id)
    ensures var p := IdToPath(b, id, repo, version);
            var root := LayoutRoot(b, repo, version);
      && |p| == |root| + 2
      && p[..|root|] == root
      && p[..|root| + 1] == root + [id[..2]]
      && IdOfPath(p) == id
  {
    PathLayout(b, id, repo, version);
  }

  /** In the legacy layout the store is ignored: every store and every
      non-positive version resolve an identifier to the same path. */
  lemma LegacyIgnoresStore(b: Backend, id: string, repo1: string, repo2: string, v1: int, v2: int)
    requires ValidObjId(id) && v1 <= 0 && v2 <= 0
    ensures IdToPath(b, id, repo1, v1) == IdToPath(b, id, repo2, v2)
    ensures IdToPath(b, id, repo1, v1) == b.v0ObjDir + [id[..2], id[2..]]
  {
  }

  /** Within one layout the path determines the identifier, and in the
      per-store layout also the store. */
  lemma {:induction false} IdToPathInjective(b: Backend, id1: string, id2: string, repo1: string, repo2: string, version: int)
    requires ValidObjId(id1) && ValidObjId(id2)
    requires IdToPath(b, id1, repo1, version) == IdToPath(b, id2, repo2, version)
    ensures id1 == id2
    ensures version > 0 ==> repo1 == repo2
  {
    var p := IdToPath(b, id1, repo1, version);
    PathLayout(b, id1, repo1, version);
    PathLayout(b, id2, repo2, version);
    if version > 0 {
      assert p[|b.objDir|] == repo1;
      assert IdToPath(b, id2, repo2, version)[|b.objDir|] == repo2;
    }
  }

  /** For a backend built from one top-level directory, a legacy object path is
      two components shorter than any per-store object path and is not a
      prefix of it, whatever the object type: the two layouts never share a
      path, and neither lies inside the other. */
  lemma LayoutsDisjoint(b: Backend, seafDir: Path, objType: string,
                        id0: string, repo0: string, v0: int,
                        id1: string, repo1: string, v1: int)
    requires BuiltFrom(b, seafDir, objType)
    requires ValidObjId(id0) && ValidObjId(id1) && v0 <= 0 < v1
    ensures var p0 := IdToPath(b, id0, repo0, v0);
            var p1 := IdToPath(b, id1, repo1, v1);
      |p1| == |p0| + 2 && !IsPrefix(p0, p1)
  {
    var p0 := IdToPath(b, id0, repo0, v0);
    var p1 := IdToPath(b, id1, repo1, v1);
    assert |p1| == |p0| + 2;
    assert p1[|seafDir|] == "storage" && p0[|seafDir| + 1] == id0[..2];
  }

  /** In the per-store layout every object path of a store lies below
      `obj_dir/store`, so paths of two different stores never meet. */
  lemma StoreOwnsItsPaths(b: Backend, id: string, repo: string, version: int)
    requires ValidObjId(id) && version > 0
    ensures var p := IdToPath(b, id, repo, version);
      IsPrefix(b.objDir + [repo], p) && p[|b.objDir|] == repo && |p| == |b.objDir| + 3
  {
  }

  /** The result of obj_backend_fs_new: the state after directory creation and
      the backend, or None for the NULL return. */
  datatype Construction = Construction(fs: FS, backend: Option<Backend>)

  /** obj_backend_fs_new: computes both roots and creates them (with their
      parents); either creation failing yields no backend.  The budgets say how
      many mkdir calls the system grants each g_mkdir_with_parents call. */
  function New(fs: FS, seafDir: Path, objType: string, legacyBudget: nat, storageBudget: nat): (r: Construction)
    ensures var legacy := LegacyRoot(seafDir, objType);
            var storage := StorageRoot(seafDir, objType);
      && (r.backend.Some? <==>
            (forall k | 0 <= k <= |legacy| :: IsDir(r.fs, legacy[..k]))
            && (forall k | 0 <= k <= |storage| :: IsDir(r.fs, storage[..k])))
      && (r.backend.Some? ==> BuiltFrom(r.backend.value, seafDir, objType))
      && ((forall k | 0 <= k <= |legacy| :: IsDir(fs, legacy[..k]))
          && (forall k | 0 <= k <= |storage| :: IsDir(fs, storage[..k]))
          ==> r.fs == fs && r.backend.Some?)
      && (forall p | p in fs :: p in r.fs && r.fs[p] == fs[p])
      && (forall p | p in r.fs && p !in fs :: r.fs[p] == Dir && (IsPrefix(p, legacy) || IsPrefix(p, storage)))
    ensures WellFormed(fs) ==> WellFormed(r.fs)
  {
    var legacy := LegacyRoot(seafDir, objType);
    var storage := StorageRoot(seafDir, objType);
    var m1 := MkdirWithParents(fs, legacy, legacyBudget);
    MkdirWithParentsKeepsWellFormed(fs, legacy, legacyBudget);
    if m1.ret < 0 then Construction(m1.fs, None)
    else
      var m2 := MkdirWithParents(m1.fs, storage, storageBudget);
      MkdirWithParentsKeepsWellFormed(m1.fs, storage, storageBudget);
      if m2.ret < 0 then Construction(m2.fs, None)
      else Construction(m2.fs, Some(Backend(legacy, storage)))
  }

  /** Construction succeeds when no component of either root is a file and
      the system grants a mkdir call for every component. */
  lemma NewSucceeds(fs: FS, seafDir: Path, objType: string, legacyBudget: nat, storageBudget: nat)
    requires legacyBudget >= |LegacyRoot(seafDir, objType)| && storageBudget >= |StorageRoot(seafDir, objType)|
    requires forall k | 0 < k <= |LegacyRoot(seafDir, objType)| :: !IsFile(fs, LegacyRoot(seafDir, objType)[..k])
    requires forall k | 0 < k <= |StorageRoot(seafDir, objType)| :: !IsFile(fs, StorageRoot(seafDir, objType)[..k])
    ensures New(fs, seafDir, objType, legacyBudget, storageBudget).backend
              == Some(Backend(LegacyRoot(seafDir, objType), StorageRoot(seafDir, objType)))
  {
    var legacy := LegacyRoot(seafDir, objType);
    var storage := StorageRoot(seafDir, objType);
    MkdirWithParentsSucceeds(fs, legacy, legacyBudget);
    var m1 := MkdirWithParents(fs, legacy, legacyBudget);
    forall k | 0 < k <= |storage|
      ensures !IsFile(m1.fs, storage[..k])
    {
      assert storage[..k] in m1.fs && storage[..k] !in fs ==> m1.fs[storage[..k]] == Dir;
    }
    MkdirWithParentsSucceeds(m1.fs, storage, storageBudget);
  }
}
