/** An abstract local filesystem, the only collaborator of the object store.

    A path is a sequence of entry names; the empty path is the filesystem root,
    which is always a directory and is never stored in the map.  Everything the
    model cannot see of a real system (the order in which readdir returns
    entries, permission failures) is handed in as an explicit oracle. */
module FileSystem {

  datatype Option<T> = None | Some(value: T)

  type Byte = b: int | 0 <= b < 256

  type Path = seq<string>

  datatype Node = File(data: seq<Byte>) | Dir

  type FS = map<Path, Node>

  /** A C-level result paired with the state it leaves behind (0 success, -1 failure). */
  datatype Step = Step(fs: FS, ret: int)

  /** What the tree alone does not decide:
      - `ls` is the order in which readdir lists a directory;
      - `unopenable` holds directories that exist but cannot be opened
        (permissions, descriptor exhaustion);
      - `undeletable` holds entries whose unlink or rmdir is refused;
      - `unreadable` holds files whose contents cannot be read (permissions,
        an I/O error). */
  datatype Env = Env(ls: Path -> seq<string>, unopenable: set<Path>, undeletable: set<Path>,
                     unreadable: set<Path>)

  /** One path component: non-empty, free of the separator, and not a dot entry. */
  predicate ValidName(s: string) {
    |s| > 0 && '/' !in s && s != "." && s != ".."
  }

  function Lookup(fs: FS, p: Path): Option<Node> {
    if p in fs then Some(fs[p]) else None
  }

  /** What a successful stat, or g_file_test with G_FILE_TEST_EXISTS, reports. */
  predicate Present(fs: FS, p: Path) {
    p == [] || p in fs
  }

  predicate IsDir(fs: FS, p: Path) {
    p == [] || (p in fs && fs[p].Dir?)
  }

  predicate IsFile(fs: FS, p: Path) {
    p in fs && fs[p].File?
  }

  predicate IsPrefix(p: Path, q: Path) {
    |p| <= |q| && q[..|p|] == p
  }

  predicate IsStrictPrefix(p: Path, q: Path) {
    |p| < |q| && q[..|p|] == p
  }

  function Parent(p: Path): Path
    requires |p| > 0
  {
    p[..|p| - 1]
  }

  predicate NoDup<T(==)>(s: seq<T>) {
    forall i, j | 0 <= i < j < |s| :: s[i] != s[j]
  }

  /** `p` is not the root and its parent is a directory. */
  ghost predicate HangsOff(fs: FS, p: Path) {
    |p| > 0 && IsDir(fs, Parent(p))
  }

  /** Every stored entry hangs off a directory that is itself present.  The
      property is used entry by entry, through HangsOff, so that one entry's
      parent does not by itself call up the parent's own parent. */
  ghost predicate WellFormed(fs: FS) {
    forall p {:trigger HangsOff(fs, p)} | p in fs :: HangsOff(fs, p)
  }

  /** `names` is a readdir listing of `d`: each child exactly once. */
  ghost predicate Lists(fs: FS, d: Path, names: seq<string>) {
    && NoDup(names)
    && (forall n :: n in names <==> d + [n] in fs)
  }

  /** The readdir oracle agrees with the tree for every directory. */
  ghost predicate WellListed(fs: FS, env: Env) {
    forall d :: Lists(fs, d, env.ls(d))
  }

  /** g_dir_open succeeds. */
  predicate Opens(fs: FS, env: Env, p: Path) {
    IsDir(fs, p) && p !in env.unopenable
  }

  /** Entries may disappear, nothing else happens, and whatever disappears lies
      strictly below `root`. */
  ghost predicate RemovesOnlyBelow(fs: FS, fs': FS, root: Path) {
    && (forall p | p in fs' :: p in fs && fs'[p] == fs[p])
    && (forall p | p in fs && p !in fs' :: IsStrictPrefix(root, p))
  }

  /** Entries may appear, nothing else happens, and whatever appears is a
      directory on the way down to `dir`. */
  ghost predicate AddsDirsOnto(fs: FS, fs': FS, dir: Path) {
    && (forall p | p in fs :: p in fs' && fs'[p] == fs[p])
    && (forall p | p in fs' && p !in fs :: fs'[p] == Dir && 0 < |p| && IsPrefix(p, dir))
  }

  /** g_unlink: removes a file; a directory, a missing entry or a refused
      entry is left alone (the failure is the caller's to ignore). */
  function Unlink(fs: FS, env: Env, p: Path): (fs': FS)
    ensures |p| == 0 || RemovesOnlyBelow(fs, fs', Parent(p))
    ensures p !in env.undeletable ==> !IsFile(fs', p)
    ensures forall q | q != p :: Lookup(fs', q) == Lookup(fs, q)
    ensures IsFile(fs, p) && p !in env.undeletable ==> fs' == fs - {p}
    ensures !IsFile(fs, p) || p in env.undeletable ==> fs' == fs
    ensures WellFormed(fs) ==> WellFormed(fs')
  {
    if IsFile(fs, p) && p !in env.undeletable then
      RemoveFileKeepsWellFormed(fs, p);
      fs - {p}
    else fs
  }

  /** g_rmdir: removes an empty directory and nothing else. */
  function Rmdir(fs: FS, env: Env, p: Path): (fs': FS)
    ensures forall q | q != p :: Lookup(fs', q) == Lookup(fs, q)
    ensures p in fs ==>
              (p !in fs' <==> fs[p].Dir? && p !in env.undeletable && (forall q | q in fs :: !IsStrictPrefix(p, q)))
    ensures fs' == fs || fs' == fs - {p}
    ensures p !in fs ==> fs' == fs
    ensures WellFormed(fs) ==> WellFormed(fs')
  {
    if p in fs && fs[p].Dir? && p !in env.undeletable && (forall q | q in fs :: !IsStrictPrefix(p, q))
    then
      RemoveLeafKeepsWellFormed(fs, p);
      fs - {p}
    else fs
  }

  /** rename(2) of a file that exists: the destination takes the source's node
      in one step. */
  function Rename(fs: FS, src: Path, dst: Path): (fs': FS)
    requires src in fs && src != dst
    ensures Lookup(fs', dst) == Some(fs[src]) && src !in fs'
    ensures forall q | q != src && q != dst :: Lookup(fs', q) == Lookup(fs, q)
  {
    (fs - {src})[dst := fs[src]]
  }

  /** g_mkdir_with_parents: walks the components of `dir` from the top; a
      missing component is created if the system still allows it (`budget`
      counts how many mkdir calls succeed), a present one must be a directory. */
  function MkdirWithParents(fs: FS, dir: Path, budget: nat): (r: Step)
    ensures r.ret == 0 || r.ret == -1
    ensures r.ret == 0 <==> forall k | 0 <= k <= |dir| :: IsDir(r.fs, dir[..k])
    ensures (forall k | 0 <= k <= |dir| :: IsDir(fs, dir[..k])) ==> r == Step(fs, 0)
    ensures budget < MissingFrom(fs, dir, 0) ==> r.ret == -1
    ensures r.ret == -1 ==> Lookup(r.fs, dir) == Lookup(fs, dir)
    ensures AddsDirsOnto(fs, r.fs, dir)
  {
    MkdirFrom(fs, dir, 0, budget)
  }

  /** How many of the components of `dir` below its first `i` are missing:
      the mkdir calls a walk from level `i` has to make. */
  function MissingFrom(fs: FS, dir: Path, i: nat): nat
    requires i <= |dir|
    decreases |dir| - i
  {
    if i == |dir| then 0
    else (if dir[..i + 1] in fs then 0 else 1) + MissingFrom(fs, dir, i + 1)
  }

  /** Adding an entry no longer than `i` components leaves the count of
      missing components below level `i` unchanged. */
  lemma {:induction false} MissingFromIgnoresShallow(fs: FS, dir: Path, i: nat, p: Path, n: Node)
    requires i <= |dir| && |p| <= i
    ensures MissingFrom(fs[p := n], dir, i) == MissingFrom(fs, dir, i)
    decreases |dir| - i
  {
    if i < |dir| {
      assert dir[..i + 1] != p;
      assert (dir[..i + 1] in fs[p := n]) == (dir[..i + 1] in fs);
      MissingFromIgnoresShallow(fs, dir, i + 1, p, n);
    }
  }

  function MkdirFrom(fs: FS, dir: Path, i: nat, budget: nat): (r: Step)
    requires i <= |dir|
    requires i == 0 || IsDir(fs, dir[..i])
    ensures r.ret == 0 || r.ret == -1
    ensures r.ret == 0 ==> forall k | i <= k <= |dir| :: IsDir(r.fs, dir[..k])
    ensures r.ret == -1 ==> exists k | i < k <= |dir| :: !IsDir(r.fs, dir[..k])
    ensures budget < MissingFrom(fs, dir, i) ==> r.ret == -1
    ensures r.ret == -1 ==> Lookup(r.fs, dir) == Lookup(fs, dir)
    ensures (forall k | i < k <= |dir| :: IsDir(fs, dir[..k])) ==> r == Step(fs, 0)
    ensures AddsDirsOnto(fs, r.fs, dir)
    decreases |dir| - i
  {
    if i == |dir| then Step(fs, 0)
    else
      var p := dir[..i + 1];
      assert Parent(p) == dir[..i];
      if p !in fs then
        if budget == 0 then Step(fs, -1)
        else
          MissingFromIgnoresShallow(fs, dir, i + 1, p, Dir);
          MkdirFrom(fs[p := Dir], dir, i + 1, budget - 1)
      else if fs[p].Dir? then MkdirFrom(fs, dir, i + 1, budget)
      else Step(fs, -1)
  }

  /** Adding or replacing a non-directory entry under a directory keeps the
      tree well formed. */
  lemma PutFileKeepsWellFormed(fs: FS, p: Path, data: seq<Byte>)
    requires |p| > 0 && IsDir(fs, Parent(p))
    requires !(p in fs && fs[p].Dir?)
    ensures WellFormed(fs) ==> WellFormed(fs[p := File(data)])
  {
    if !WellFormed(fs) {
      return;
    }
    var fs' := fs[p := File(data)];
    forall q | q in fs'
      ensures HangsOff(fs', q)
    {
      if q != p {
        assert q in fs && HangsOff(fs, q);
        if Parent(q) == p {
          assert false;
        }
      }
    }
  }

  /** Removing a file keeps the tree well formed: nothing hangs off a file. */
  lemma RemoveFileKeepsWellFormed(fs: FS, p: Path)
    requires IsFile(fs, p)
    ensures WellFormed(fs) ==> WellFormed(fs - {p})
  {
    if !WellFormed(fs) {
      return;
    }
    var fs' := fs - {p};
    forall q | q in fs'
      ensures HangsOff(fs', q)
    {
      assert q in fs && HangsOff(fs, q);
      assert IsDir(fs, Parent(q));
    }
  }

  /** Removing an entry with nothing below it keeps the tree well formed. */
  lemma RemoveLeafKeepsWellFormed(fs: FS, p: Path)
    requires forall q | q in fs :: !IsStrictPrefix(p, q)
    ensures WellFormed(fs) ==> WellFormed(fs - {p})
  {
    if !WellFormed(fs) {
      return;
    }
    var fs' := fs - {p};
    forall q | q in fs'
      ensures HangsOff(fs', q)
    {
      assert q in fs && HangsOff(fs, q);
    }
  }

  /** In a well-formed tree every proper ancestor of a stored entry is a stored
      directory. */
  lemma {:induction false} AncestorsPresent(fs: FS, p: Path, q: Path)
    requires WellFormed(fs) && q in fs && IsPrefix(p, q) && |p| > 0
    ensures p == q || (p in fs && fs[p].Dir?)
    decreases |q|
  {
    if p != q {
      var pq := Parent(q);
      assert HangsOff(fs, q);
      assert pq[..|p|] == q[..|p|];
      if p != pq {
        AncestorsPresent(fs, p, pq);
      }
    }
  }

  /** Adding a directory under a directory keeps the tree well formed. */
  lemma AddDirKeepsWellFormed(fs: FS, p: Path)
    requires |p| > 0 && IsDir(fs, Parent(p)) && p !in fs
    ensures WellFormed(fs) ==> WellFormed(fs[p := Dir])
  {
    if WellFormed(fs) {
      var fs' := fs[p := Dir];
      forall q | q in fs'
        ensures HangsOff(fs', q)
      {
        if q != p {
          assert HangsOff(fs, q);
        }
      }
    }
  }

  /** Creating a directory with its parents keeps the tree well formed. */
  lemma {:induction false} MkdirFromKeepsWellFormed(fs: FS, dir: Path, i: nat, budget: nat)
    requires i <= |dir| && (i == 0 || IsDir(fs, dir[..i]))
    ensures WellFormed(fs) ==> WellFormed(MkdirFrom(fs, dir, i, budget).fs)
    decreases |dir| - i
  {
    if i < |dir| && WellFormed(fs) {
      var p := dir[..i + 1];
      assert Parent(p) == dir[..i];
      if p !in fs {
        if budget > 0 {
          AddDirKeepsWellFormed(fs, p);
          MkdirFromKeepsWellFormed(fs[p := Dir], dir, i + 1, budget - 1);
        }
      } else if fs[p].Dir? {
        MkdirFromKeepsWellFormed(fs, dir, i + 1, budget);
      }
    }
  }

  lemma MkdirWithParentsKeepsWellFormed(fs: FS, dir: Path, budget: nat)
    ensures WellFormed(fs) ==> WellFormed(MkdirWithParents(fs, dir, budget).fs)
  {
    MkdirFromKeepsWellFormed(fs, dir, 0, budget);
  }

  /** Creating a directory with its parents succeeds when the system grants a
      mkdir call for every component and no component is a file. */
  lemma {:induction false} MkdirFromSucceeds(fs: FS, dir: Path, i: nat, budget: nat)
    requires i <= |dir| && (i == 0 || IsDir(fs, dir[..i]))
    requires budget >= |dir| - i
    requires forall k | i < k <= |dir| :: !IsFile(fs, dir[..k])
    ensures MkdirFrom(fs, dir, i, budget).ret == 0
    decreases |dir| - i
  {
    if i < |dir| {
      var p := dir[..i + 1];
      assert Parent(p) == dir[..i];
      if p !in fs {
        var fs' := fs[p := Dir];
        forall k | i + 1 < k <= |dir|
          ensures !IsFile(fs', dir[..k])
        {
          assert |dir[..k]| != |p|;
        }
        MkdirFromSucceeds(fs', dir, i + 1, budget - 1);
      } else {
        MkdirFromSucceeds(fs, dir, i + 1, budget);
      }
    }
  }

  lemma MkdirWithParentsSucceeds(fs: FS, dir: Path, budget: nat)
    requires budget >= |dir|
    requires forall k | 0 < k <= |dir| :: !IsFile(fs, dir[..k])
    ensures MkdirWithParents(fs, dir, budget).ret == 0
  {
    MkdirFromSucceeds(fs, dir, 0, budget);
  }

  /** The names of the entries directly inside `d`, in some order. */
  ghost function Children(fs: FS, d: Path): set<string> {
    set p | p in fs && |p| == |d| + 1 && p[..|d|] == d :: p[|d|]
  }

  /** Some listing of a finite set of names. */
  ghost function Enumerate(s: set<string>): (names: seq<string>)
    ensures NoDup(names) && forall n :: n in names <==> n in s
    decreases |s|
  {
    if s == {} then []
    else
      var n :| n in s;
      var rest := Enumerate(s - {n});
      [n] + rest
  }

  /** A readdir oracle that lists every directory of `fs` faithfully, with
      nothing refused: it shows that faithful listings exist for every tree. */
  ghost function FaithfulEnv(fs: FS): Env {
    Env(d => Enumerate(Children(fs, d)), {}, {}, {})
  }

  lemma FaithfulEnvListed(fs: FS)
    ensures WellListed(fs, FaithfulEnv(fs))
  {
    forall d
      ensures Lists(fs, d, FaithfulEnv(fs).ls(d))
    {
      forall n
        ensures n in Children(fs, d) <==> d + [n] in fs
      {
        if d + [n] in fs {
          assert (d + [n])[..|d|] == d && (d + [n])[|d|] == n;
        }
        if n in Children(fs, d) {
          var p :| p in fs && |p| == |d| + 1 && p[..|d|] == d && p[|d|] == n;
          assert p == d + [n];
        }
      }
    }
  }
}
