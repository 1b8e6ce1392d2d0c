/** The single-object operations that only look at, or remove, the resolved
    path: obj_backend_fs_read, obj_backend_fs_exists, obj_backend_fs_delete. */
module ObjectOps {
  import opened FileSystem
  import opened Layout

  /** The `(int)` cast the reader applies to the gsize length it gets back:
      two's-complement wrap-around into 32 bits. */
  function ToCInt(n: nat): (r: int)
    ensures -0x8000_0000 <= r <= IntMax
    ensures n <= IntMax ==> r == n
    ensures r % 0x1_0000_0000 == n % 0x1_0000_0000
  {
    var m := n % 0x1_0000_0000;
    if m <= IntMax then m else m - 0x1_0000_0000
  }

  /** What a read hands back: the contents and `*len` (return value 0), or
      nothing (return value -1). */
  datatype ReadResult = Loaded(data: seq<Byte>, len: int) | ReadFailed {
    function Ret(): int {
      if Loaded? then 0 else -1
    }
  }

  /** g_file_get_contents on one path: only a regular file can be loaded, and
      only if the system lets its contents be read; a missing entry, a
      directory or a refused read is an error. */
  function LoadFile(fs: FS, env: Env, p: Path): (r: ReadResult)
    ensures r.Loaded? <==> IsFile(fs, p) && p !in env.unreadable
    ensures r.Loaded? ==> fs[p] == File(r.data) && (|r.data| <= IntMax ==> r.len == |r.data|)
  {
    if IsFile(fs, p) && p !in env.unreadable then Loaded(fs[p].data, ToCInt(|fs[p].data|)) else ReadFailed
  }

  /** A file at `p` whose contents the system hands out. */
  ghost predicate Readable(fs: FS, env: Env, p: Path) {
    IsFile(fs, p) && p !in env.unreadable
  }

  /** obj_backend_fs_read.  `migration` stands for the MIGRATION build, in
      which a failed read is retried at the version-1 path of the same store. */
  function Read(b: Backend, fs: FS, env: Env, id: string, repo: string, version: int, migration: bool): (r: ReadResult)
    requires ValidObjId(id)
    ensures var p := IdToPath(b, id, repo, version);
            var p1 := IdToPath(b, id, repo, 1);
      && (r.Loaded? <==> Readable(fs, env, p) || (migration && Readable(fs, env, p1)))
      && (r.Loaded? && Readable(fs, env, p) ==> fs[p] == File(r.data))
      && (r.Loaded? && !Readable(fs, env, p) ==> migration && fs[p1] == File(r.data))
      && (r.Loaded? && |r.data| <= IntMax ==> r.len == |r.data|)
    ensures !migration && !Readable(fs, env, IdToPath(b, id, repo, version)) ==> r.Ret() == -1
  {
    var first := LoadFile(fs, env, IdToPath(b, id, repo, version));
    if first.ReadFailed? && migration then LoadFile(fs, env, IdToPath(b, id, repo, 1)) else first
  }

  /** obj_backend_fs_exists: a stat probe of the resolved path.  Anything a
      read can load exists; whatever does not exist cannot be read. */
  function Exists(b: Backend, fs: FS, id: string, repo: string, version: int): (r: bool)
    requires ValidObjId(id)
    ensures r <==> Present(fs, IdToPath(b, id, repo, version))
    ensures forall env: Env :: Read(b, fs, env, id, repo, version, false).Loaded? ==> r
    ensures !r ==> forall env: Env :: Read(b, fs, env, id, repo, version, false).ReadFailed?
  {
    IdToPath(b, id, repo, version) in fs
  }

  /** obj_backend_fs_delete: unlink the resolved path and report nothing.  Only
      that path can change; a file there is gone unless the system refuses the
      unlink; anything else (a missing entry, a directory) is left as it was. */
  function Delete(b: Backend, fs: FS, env: Env, id: string, repo: string, version: int): (fs': FS)
    requires ValidObjId(id)
    ensures var p := IdToPath(b, id, repo, version);
      && (forall q | q != p :: Lookup(fs', q) == Lookup(fs, q))
      && (IsFile(fs, p) && p !in env.undeletable ==>
            !Exists(b, fs', id, repo, version) && Read(b, fs', env, id, repo, version, false).ReadFailed?)
      && (!IsFile(fs, p) || p in env.undeletable ==> fs' == fs)
    ensures WellFormed(fs) ==> WellFormed(fs')
  {
    Unlink(fs, env, IdToPath(b, id, repo, version))
  }

  /** Deleting twice leaves the same state as deleting once. */
  lemma DeleteIdempotent(b: Backend, fs: FS, env: Env, id: string, repo: string, version: int)
    requires ValidObjId(id)
    ensures var once := Delete(b, fs, env, id, repo, version);
      Delete(b, once, env, id, repo, version) == once
  {
  }
}
