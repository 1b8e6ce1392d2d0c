/** The two-level walks over a layout root: obj_backend_fs_foreach_obj and
    obj_backend_fs_remove_store.

    Directory listings come from the readdir oracle `env.ls`; the walks are
    recursive functions over those listings, with the same branches as the
    nested loops of the source. */
module Walks {
  import opened FileSystem
  import opened Layout

  /** The callback with its user data: it sees the identifiers visited so far
      and the next one, and answers whether the walk goes on. */
  type Visitor = (seq<string>, string) -> bool

  /** The identifiers handed to the callback, in order, and whether it asked
      to stop. */
  datatype Walk = Walk(visited: seq<string>, stopped: bool)

  /** foreach_obj's return value and the walk it performed. */
  datatype ForeachResult = ForeachResult(ret: int, walk: Walk)

  // ---------------------------------------------------------------------
  // The reference walk: a flat list of identifiers.

  /** Hand `ids` to the callback one by one until it says stop. */
  function VisitAll(ids: seq<string>, visit: Visitor, acc: seq<string>): (w: Walk)
    ensures |acc| <= |w.visited| <= |acc| + |ids|
    ensures w.visited == acc + ids[..|w.visited| - |acc|]
    ensures !w.stopped ==> |w.visited| == |acc| + |ids|
    ensures w.stopped ==> |w.visited| > |acc|
    decreases |ids|
  {
    if ids == [] then Walk(acc, false)
    else if !visit(acc, ids[0]) then Walk(acc + [ids[0]], true)
    else
      var acc' := acc + [ids[0]];
      var w := VisitAll(ids[1..], visit, acc');
      assert ids[..|w.visited| - |acc|] == [ids[0]] + ids[1..][..|w.visited| - |acc'|];
      w
  }

  /** What the callback answered along the reference walk: yes to every
      identifier but the last, and no to the last exactly when the walk
      stopped. */
  lemma {:induction false} VisitAllVerdicts(ids: seq<string>, visit: Visitor, acc: seq<string>)
    ensures var w := VisitAll(ids, visit, acc);
      && (forall i | |acc| <= i < |w.visited| - 1 :: visit(w.visited[..i], w.visited[i]))
      && (w.stopped ==> !visit(w.visited[..|w.visited| - 1], w.visited[|w.visited| - 1]))
      && (!w.stopped ==> forall i | |acc| <= i < |w.visited| :: visit(w.visited[..i], w.visited[i]))
    decreases |ids|
  {
    if ids != [] && visit(acc, ids[0]) {
      var acc' := acc + [ids[0]];
      VisitAllVerdicts(ids[1..], visit, acc');
      var w := VisitAll(ids, visit, acc);
      assert w.visited[..|acc|] == acc && w.visited[|acc|] == ids[0];
    }
  }

  /** The (first-level, second-level) name pairs of one directory listing. */
  function PairsOf(d1: string, names: seq<string>): (ps: seq<(string, string)>)
    ensures |ps| == |names| && forall i | 0 <= i < |names| :: ps[i] == (d1, names[i])
  {
    seq(|names|, i requires 0 <= i < |names| => (d1, names[i]))
  }

  /** Every name pair a walk that never stops reaches, in listing order:
      unopenable first-level entries contribute nothing. */
  function PairsUnder(fs: FS, env: Env, root: Path, names: seq<string>): seq<(string, string)>
    decreases |names|
  {
    if names == [] then []
    else
      var p1 := root + [names[0]];
      (if Opens(fs, env, p1) then PairsOf(names[0], env.ls(p1)) else [])
        + PairsUnder(fs, env, root, names[1..])
  }

  /** The identifier foreach_obj builds from a pair: "%s%s". */
  function IdsOf(ps: seq<(string, string)>): (ids: seq<string>)
    ensures |ids| == |ps| && forall i | 0 <= i < |ps| :: ids[i] == ps[i].0 + ps[i].1
  {
    seq(|ps|, i requires 0 <= i < |ps| => ps[i].0 + ps[i].1)
  }

  // ---------------------------------------------------------------------
  // obj_backend_fs_foreach_obj

  /** The inner loop: every entry of one first-level directory. */
  function VisitEntries(d1: string, names: seq<string>, visit: Visitor, acc: seq<string>): (w: Walk)
    ensures |acc| <= |w.visited| <= |acc| + |names| && w.visited[..|acc|] == acc
    ensures forall i | |acc| <= i < |w.visited| :: w.visited[i] == d1 + names[i - |acc|]
    ensures !w.stopped ==> |w.visited| == |acc| + |names|
    decreases |names|
  {
    if names == [] then Walk(acc, false)
    else
      var id := d1 + names[0];
      if !visit(acc, id) then Walk(acc + [id], true)
      else VisitEntries(d1, names[1..], visit, acc + [id])
  }

  /** The outer loop: first-level entries that fail to open are skipped, and a
      stop from the inner loop ends the whole walk. */
  function VisitDirs(fs: FS, env: Env, root: Path, names: seq<string>, visit: Visitor, acc: seq<string>): (w: Walk)
    ensures |acc| <= |w.visited| && w.visited[..|acc|] == acc
    ensures w.stopped ==> |w.visited| > |acc|
    ensures (forall n | n in names :: !Opens(fs, env, root + [n])) ==> w == Walk(acc, false)
    decreases |names|
  {
    if names == [] then Walk(acc, false)
    else
      var p1 := root + [names[0]];
      if !Opens(fs, env, p1) then VisitDirs(fs, env, root, names[1..], visit, acc)
      else
        var w := VisitEntries(names[0], env.ls(p1), visit, acc);
        if w.stopped then w else VisitDirs(fs, env, root, names[1..], visit, w.visited)
  }

  /** obj_backend_fs_foreach_obj: an unopenable root means no visit at all,
      and the return value is 0 whatever happens. */
  function ForeachObj(b: Backend, fs: FS, env: Env, repo: string, version: int, visit: Visitor): (r: ForeachResult)
    ensures r.ret == 0
    ensures !Opens(fs, env, LayoutRoot(b, repo, version)) ==> r.walk == Walk([], false)
  {
    var root := LayoutRoot(b, repo, version);
    if !Opens(fs, env, root) then ForeachResult(0, Walk([], false))
    else ForeachResult(0, VisitDirs(fs, env, root, env.ls(root), visit, []))
  }

  /** Stopping in the first part of a list ends the walk there; otherwise the
      second part continues from where the first left off. */
  lemma {:induction false} VisitAllAppend(a: seq<string>, c: seq<string>, visit: Visitor, acc: seq<string>)
    ensures var w := VisitAll(a, visit, acc);
      VisitAll(a + c, visit, acc) == if w.stopped then w else VisitAll(c, visit, w.visited)
    decreases |a|
  {
    if a != [] {
      assert (a + c)[0] == a[0] && (a + c)[1..] == a[1..] + c;
      if visit(acc, a[0]) {
        VisitAllAppend(a[1..], c, visit, acc + [a[0]]);
      }
    } else {
      assert a + c == c;
    }
  }

  /** The inner loop is the reference walk over the directory's identifiers. */
  lemma {:induction false} VisitEntriesIsFlat(d1: string, names: seq<string>, visit: Visitor, acc: seq<string>)
    ensures VisitEntries(d1, names, visit, acc) == VisitAll(IdsOf(PairsOf(d1, names)), visit, acc)
    decreases |names|
  {
    var ids := IdsOf(PairsOf(d1, names));
    if names != [] {
      assert ids[0] == d1 + names[0];
      assert ids[1..] == IdsOf(PairsOf(d1, names[1..]));
      VisitEntriesIsFlat(d1, names[1..], visit, acc + [d1 + names[0]]);
    }
  }

  lemma IdsOfAppend(a: seq<(string, string)>, c: seq<(string, string)>)
    ensures IdsOf(a + c) == IdsOf(a) + IdsOf(c)
  {
  }

  /** The nested loops are the reference walk over the concatenation of all
      openable first-level directories' identifiers. */
  lemma {:induction false} VisitDirsIsFlat(fs: FS, env: Env, root: Path, names: seq<string>, visit: Visitor, acc: seq<string>)
    ensures VisitDirs(fs, env, root, names, visit, acc)
         == VisitAll(IdsOf(PairsUnder(fs, env, root, names)), visit, acc)
    decreases |names|
  {
    if names != [] {
      var p1 := root + [names[0]];
      var here := if Opens(fs, env, p1) then PairsOf(names[0], env.ls(p1)) else [];
      var rest := PairsUnder(fs, env, root, names[1..]);
      IdsOfAppend(here, rest);
      VisitAllAppend(IdsOf(here), IdsOf(rest), visit, acc);
      if Opens(fs, env, p1) {
        VisitEntriesIsFlat(names[0], env.ls(p1), visit, acc);
        var w := VisitEntries(names[0], env.ls(p1), visit, acc);
        if !w.stopped {
          VisitDirsIsFlat(fs, env, root, names[1..], visit, w.visited);
        }
      } else {
        assert IdsOf(here) == [];
        VisitDirsIsFlat(fs, env, root, names[1..], visit, acc);
      }
    }
  }

  /** Every identifier foreach_obj can reach under `root`, as name pairs. */
  function AllPairs(fs: FS, env: Env, root: Path): seq<(string, string)> {
    if Opens(fs, env, root) then PairsUnder(fs, env, root, env.ls(root)) else []
  }

  /** foreach_obj hands the callback a prefix of the full enumeration, each
      identifier the concatenation of a first- and a second-level name; every
      identifier but the last was accepted; it stops exactly when the callback
      refuses the last one, and otherwise has visited the full enumeration.
      The return value is always 0. */
  lemma ForeachObjVisits(b: Backend, fs: FS, env: Env, repo: string, version: int, visit: Visitor)
    ensures var r := ForeachObj(b, fs, env, repo, version, visit);
            var all := IdsOf(AllPairs(fs, env, LayoutRoot(b, repo, version)));
            var v := r.walk.visited;
      && r.ret == 0
      && IsPrefix(v, all)
      && (forall i | 0 <= i < |v| - 1 :: visit(v[..i], v[i]))
      && (r.walk.stopped ==> |v| > 0 && !visit(v[..|v| - 1], v[|v| - 1]))
      && (!r.walk.stopped ==> v == all && forall i | 0 <= i < |v| :: visit(v[..i], v[i]))
  {
    var root := LayoutRoot(b, repo, version);
    var all := IdsOf(AllPairs(fs, env, root));
    var r := ForeachObj(b, fs, env, repo, version, visit);
    if Opens(fs, env, root) {
      assert r.walk == VisitAll(all, visit, []) by {
        VisitDirsIsFlat(fs, env, root, env.ls(root), visit, []);
      }
      VisitAllVerdicts(all, visit, []);
      assert r.walk.visited == all[..|r.walk.visited|];
    }
  }

  /** A callback that always goes on is handed the full enumeration, in
      listing order, and the walk is never stopped. */
  lemma ForeachObjComplete(b: Backend, fs: FS, env: Env, repo: string, version: int, visit: Visitor)
    requires forall h, id :: visit(h, id)
    ensures var r := ForeachObj(b, fs, env, repo, version, visit);
      !r.walk.stopped && r.walk.visited == IdsOf(AllPairs(fs, env, LayoutRoot(b, repo, version)))
  {
    ForeachObjVisits(b, fs, env, repo, version, visit);
  }

  /** A callback that always refuses is handed exactly the first identifier
      of the enumeration, if there is one. */
  lemma ForeachObjStopsAtFirst(b: Backend, fs: FS, env: Env, repo: string, version: int, visit: Visitor)
    requires forall h, id :: !visit(h, id)
    ensures var r := ForeachObj(b, fs, env, repo, version, visit);
            var all := IdsOf(AllPairs(fs, env, LayoutRoot(b, repo, version)));
      && (|all| == 0 ==> r.walk == Walk([], false))
      && (|all| > 0 ==> r.walk == Walk([all[0]], true))
  {
    ForeachObjVisits(b, fs, env, repo, version, visit);
    var r := ForeachObj(b, fs, env, repo, version, visit);
    var all := IdsOf(AllPairs(fs, env, LayoutRoot(b, repo, version)));
    if |all| > 0 {
      assert r.walk.visited[..1] == all[..1];
    }
  }

  /** The pairs a listing-driven walk over `names` reaches. */
  ghost function ListedPairs(fs: FS, env: Env, root: Path, names: seq<string>): set<(string, string)> {
    set a, n | a in names && Opens(fs, env, root + [a]) && n in env.ls(root + [a]) :: (a, n)
  }

  /** The name pairs the tree itself has below `root`: a second-level entry
      inside a first-level directory that opens. */
  ghost function ReachablePairs(fs: FS, env: Env, root: Path): set<(string, string)> {
    set p | p in fs && |p| == |root| + 2 && p[..|root|] == root && Opens(fs, env, p[..|root| + 1])
      :: (p[|root|], p[|root| + 1])
  }

  lemma {:induction false} PairsUnderListed(fs: FS, env: Env, root: Path, names: seq<string>)
    ensures forall x :: x in PairsUnder(fs, env, root, names) <==> x in ListedPairs(fs, env, root, names)
    decreases |names|
  {
    if names != [] {
      PairsUnderListed(fs, env, root, names[1..]);
      var p1 := root + [names[0]];
      var here := if Opens(fs, env, p1) then PairsOf(names[0], env.ls(p1)) else [];
      forall x
        ensures x in PairsUnder(fs, env, root, names) <==> x in ListedPairs(fs, env, root, names)
      {
        if x in here {
          var i :| 0 <= i < |here| && here[i] == x;
          assert x == (names[0], env.ls(p1)[i]);
        }
        if x in ListedPairs(fs, env, root, names) && x.0 == names[0] {
          var i :| 0 <= i < |env.ls(p1)| && env.ls(p1)[i] == x.1;
          assert here[i] == x;
        }
      }
    }
  }

  /** Each pair is reached at most once when every listing names each entry once. */
  lemma {:induction false} PairsUnderNoDup(fs: FS, env: Env, root: Path, names: seq<string>)
    requires NoDup(names)
    requires forall a | a in names :: NoDup(env.ls(root + [a]))
    ensures NoDup(PairsUnder(fs, env, root, names))
    ensures forall x | x in PairsUnder(fs, env, root, names) :: x.0 in names
    decreases |names|
  {
    if names != [] {
      var p1 := root + [names[0]];
      var here := if Opens(fs, env, p1) then PairsOf(names[0], env.ls(p1)) else [];
      var rest := PairsUnder(fs, env, root, names[1..]);
      assert NoDup(names[1..]);
      PairsUnderNoDup(fs, env, root, names[1..]);
      assert forall x | x in rest :: x.0 in names[1..] && x.0 != names[0];
      var all := here + rest;
      forall i, j | 0 <= i < j < |all|
        ensures all[i] != all[j]
      {
        if j < |here| {
          assert env.ls(p1)[i] != env.ls(p1)[j];
        } else if i < |here| {
          assert all[j] in rest;
        }
      }
      forall x | x in all
        ensures x.0 in names
      {
        if x in rest {
          assert x.0 in names[1..];
        }
      }
    }
  }

  /** With a faithful readdir oracle, the listing-driven pairs of a root that
      opens are exactly the pairs of the tree, each reached once. */
  lemma {:induction false} AllPairsAreReachable(fs: FS, env: Env, root: Path)
    requires WellListed(fs, env)
    ensures NoDup(AllPairs(fs, env, root))
    ensures Opens(fs, env, root) ==>
              forall x :: x in AllPairs(fs, env, root) <==> x in ReachablePairs(fs, env, root)
  {
    if !Opens(fs, env, root) {
      return;
    }
    var names := env.ls(root);
    assert Lists(fs, root, names);
    forall a | a in names
      ensures NoDup(env.ls(root + [a]))
    {
      assert Lists(fs, root + [a], env.ls(root + [a]));
    }
    PairsUnderNoDup(fs, env, root, names);
    PairsUnderListed(fs, env, root, names);
    forall x
      ensures x in ListedPairs(fs, env, root, names) <==> x in ReachablePairs(fs, env, root)
    {
      var p1 := root + [x.0];
      var p := p1 + [x.1];
      assert Lists(fs, p1, env.ls(p1));
      assert p[..|root|] == root && p[..|root| + 1] == p1 && p[|root|] == x.0 && p[|root| + 1] == x.1;
      if x in ReachablePairs(fs, env, root) {
        var q :| q in fs && |q| == |root| + 2 && q[..|root|] == root && Opens(fs, env, q[..|root| + 1])
                 && x == (q[|root|], q[|root| + 1]);
        assert q == p;
        assert x.0 in names;
      }
    }
  }

  // ---------------------------------------------------------------------
  // obj_backend_fs_remove_store

  /** `q` lies at or below one of the first-level entries `names` of `root`. */
  ghost predicate Touched(root: Path, names: seq<string>, q: Path) {
    IsStrictPrefix(root, q) && q[|root|] in names
  }

  /** `q` is one of the entries `names` directly inside `d`. */
  ghost predicate ChildIn(d: Path, names: seq<string>, q: Path) {
    |q| == |d| + 1 && q[..|d|] == d && q[|d|] in names
  }

  /** The inner loop: unlink every listed entry of `d`; failures are ignored. */
  function UnlinkEach(fs: FS, env: Env, d: Path, names: seq<string>): (fs': FS)
    ensures RemovesOnlyBelow(fs, fs', d)
    ensures forall p | p in fs && p !in fs' :: fs[p].File?
    ensures forall q | !ChildIn(d, names, q) :: Lookup(fs', q) == Lookup(fs, q)
    ensures forall n | n in names && d + [n] !in env.undeletable :: !IsFile(fs', d + [n])
    ensures WellFormed(fs) ==> WellFormed(fs')
    decreases |names|
  {
    if names == [] then fs
    else
      var p := d + [names[0]];
      assert Parent(p) == d;
      var fs1 := Unlink(fs, env, p);
      var r := UnlinkEach(fs1, env, d, names[1..]);
      assert forall q | ChildIn(d, names[1..], q) :: ChildIn(d, names, q);
      r
  }

  /** The outer loop: each first-level entry is opened, emptied and removed;
      the first one that fails to open ends the walk with -1. */
  function RemoveSubdirs(fs: FS, env: Env, root: Path, names: seq<string>): (r: Step)
    ensures r.ret == 0 || r.ret == -1
    decreases |names|
  {
    if names == [] then Step(fs, 0)
    else
      var p1 := root + [names[0]];
      if !Opens(fs, env, p1) then Step(fs, -1)
      else RemoveSubdirs(ClearOne(fs, env, p1), env, root, names[1..])
  }

  /** One pass of the outer loop over an entry that opened: unlink each of its
      entries, then remove it. */
  function ClearOne(fs: FS, env: Env, p1: Path): (fs': FS)
    ensures forall p | p in fs' :: p in fs && fs'[p] == fs[p]
    ensures forall p | p in fs && p !in fs' :: p == p1 || IsStrictPrefix(p1, p)
    ensures forall q | q != p1 && !ChildIn(p1, env.ls(p1), q) :: Lookup(fs', q) == Lookup(fs, q)
    ensures forall n | n in env.ls(p1) && p1 + [n] !in env.undeletable :: !IsFile(fs', p1 + [n])
    ensures WellFormed(fs) ==> WellFormed(fs')
  {
    Rmdir(UnlinkEach(fs, env, p1, env.ls(p1)), env, p1)
  }

  /** Emptying and removing one first-level entry leaves everything outside
      that entry's subtree as it was. */
  lemma ClearOneLocal(fs: FS, env: Env, root: Path, n: string)
    ensures var fs1 := ClearOne(fs, env, root + [n]);
      forall q | !Touched(root, [n], q) :: Lookup(fs1, q) == Lookup(fs, q)
  {
    var p1 := root + [n];
    forall q | ChildIn(p1, env.ls(p1), q) || q == p1
      ensures Touched(root, [n], q)
    {
      assert q[..|root|] == root && q[|root|] == n;
    }
  }

  /** Emptying and removing one first-level entry only removes, and only
      below `root`. */
  lemma ClearOneShrinks(fs: FS, env: Env, root: Path, n: string)
    ensures RemovesOnlyBelow(fs, ClearOne(fs, env, root + [n]), root)
  {
    var p1 := root + [n];
    forall q | IsStrictPrefix(p1, q) || q == p1
      ensures IsStrictPrefix(root, q)
    {
      assert q[..|root|] == p1[..|root|];
    }
  }

  /** The outer loop removes entries only, and only below `root`. */
  lemma {:induction false} RemoveSubdirsShrinks(fs: FS, env: Env, root: Path, names: seq<string>)
    ensures RemovesOnlyBelow(fs, RemoveSubdirs(fs, env, root, names).fs, root)
    decreases |names|
  {
    if names != [] {
      var p1 := root + [names[0]];
      if Opens(fs, env, p1) {
        var fs1 := ClearOne(fs, env, p1);
        ClearOneShrinks(fs, env, root, names[0]);
        RemoveSubdirsShrinks(fs1, env, root, names[1..]);
        assert RemoveSubdirs(fs, env, root, names) == RemoveSubdirs(fs1, env, root, names[1..]);
      }
    }
  }

  /** The outer loop changes nothing outside the first-level entries it was
      given. */
  lemma {:induction false} RemoveSubdirsLocal(fs: FS, env: Env, root: Path, names: seq<string>)
    ensures var r := RemoveSubdirs(fs, env, root, names);
      forall q | !Touched(root, names, q) :: Lookup(r.fs, q) == Lookup(fs, q)
    decreases |names|
  {
    if names != [] {
      var p1 := root + [names[0]];
      if Opens(fs, env, p1) {
        var fs1 := ClearOne(fs, env, p1);
        ClearOneLocal(fs, env, root, names[0]);
        RemoveSubdirsLocal(fs1, env, root, names[1..]);
        assert RemoveSubdirs(fs, env, root, names) == RemoveSubdirs(fs1, env, root, names[1..]);
        forall q | !Touched(root, names, q)
          ensures !Touched(root, [names[0]], q) && !Touched(root, names[1..], q)
        {
        }
      }
    }
  }

  /** The outer loop keeps the tree well formed. */
  lemma {:induction false} RemoveSubdirsKeepsWellFormed(fs: FS, env: Env, root: Path, names: seq<string>)
    ensures WellFormed(fs) ==> WellFormed(RemoveSubdirs(fs, env, root, names).fs)
    decreases |names|
  {
    if names != [] {
      var p1 := root + [names[0]];
      if Opens(fs, env, p1) {
        var fs1 := ClearOne(fs, env, p1);
        RemoveSubdirsKeepsWellFormed(fs1, env, root, names[1..]);
        assert RemoveSubdirs(fs, env, root, names) == RemoveSubdirs(fs1, env, root, names[1..]);
      }
    }
  }

  /** The state after removing a store's directory tree, and the result. */
  function RemoveTree(fs: FS, env: Env, root: Path): (r: Step)
    ensures r.ret == 0 || r.ret == -1
    ensures forall p | p in r.fs :: p in fs && r.fs[p] == fs[p]
    ensures forall p | p in fs && p !in r.fs :: IsPrefix(root, p)
    ensures !Opens(fs, env, root) ==> r == Step(fs, 0)
    ensures WellFormed(fs) ==> WellFormed(r.fs)
  {
    if !Opens(fs, env, root) then Step(fs, 0)
    else
      var s := RemoveSubdirs(fs, env, root, env.ls(root));
      RemoveSubdirsShrinks(fs, env, root, env.ls(root));
      RemoveSubdirsKeepsWellFormed(fs, env, root, env.ls(root));
      if s.ret < 0 then s else Step(Rmdir(s.fs, env, root), 0)
  }

  /** obj_backend_fs_remove_store: the tree `obj_dir/store` is taken apart.  A
      root that does not open is not an error; only paths at or below the root
      can disappear, and nothing appears or changes. */
  function RemoveStore(b: Backend, fs: FS, env: Env, store: string): (r: Step)
    ensures var root := b.objDir + [store];
      && (r.ret == 0 || r.ret == -1)
      && (forall p | p in r.fs :: p in fs && r.fs[p] == fs[p])
      && (forall p | p in fs && p !in r.fs :: IsPrefix(root, p))
      && (!Opens(fs, env, root) ==> r == Step(fs, 0))
    ensures WellFormed(fs) ==> WellFormed(r.fs)
  {
    RemoveTree(fs, env, b.objDir + [store])
  }

  /** The index of the first listed entry that does not open, or |names|. */
  function FirstUnopenable(fs: FS, env: Env, root: Path, names: seq<string>): (k: nat)
    ensures k <= |names|
    ensures forall i | 0 <= i < k :: Opens(fs, env, root + [names[i]])
    ensures k < |names| ==> !Opens(fs, env, root + [names[k]])
    decreases |names|
  {
    if names == [] || !Opens(fs, env, root + [names[0]]) then 0
    else 1 + FirstUnopenable(fs, env, root, names[1..])
  }

  lemma {:induction false} FirstUnopenableFrame(fs: FS, fs': FS, env: Env, root: Path, names: seq<string>)
    requires forall n | n in names :: Lookup(fs', root + [n]) == Lookup(fs, root + [n])
    ensures FirstUnopenable(fs', env, root, names) == FirstUnopenable(fs, env, root, names)
    decreases |names|
  {
    if names != [] {
      assert names[0] in names;
      FirstUnopenableFrame(fs, fs', env, root, names[1..]);
    }
  }

  /** After one entry has been cleared, the entries listed after it (each
      listed once) are exactly as they were, and so are their listings. */
  lemma ClearOneSparesRest(fs: FS, env: Env, root: Path, names: seq<string>)
    requires NoDup(names) && |names| > 0
    ensures var p1 := root + [names[0]];
            var fs1 := ClearOne(fs, env, p1);
      && (forall n | n in names[1..] :: Lookup(fs1, root + [n]) == Lookup(fs, root + [n]))
      && (forall n, m | n in names[1..] :: Lookup(fs1, root + [n] + [m]) == Lookup(fs, root + [n] + [m]))
  {
    ClearOneLocal(fs, env, root, names[0]);
    forall n | n in names[1..]
      ensures n != names[0]
    {
      var j :| 0 <= j < |names[1..]| && names[1..][j] == n;
      assert names[j + 1] == n;
    }
    forall n, m | n in names[1..]
      ensures !Touched(root, [names[0]], root + [n]) && !Touched(root, [names[0]], root + [n] + [m])
    {
      assert (root + [n])[|root|] == n && (root + [n] + [m])[|root|] == n;
    }
  }

  /** With each first-level entry listed once, the outer loop fails exactly
      when some listed entry does not open. */
  lemma {:induction false} RemoveSubdirsFails(fs: FS, env: Env, root: Path, names: seq<string>)
    requires NoDup(names)
    ensures RemoveSubdirs(fs, env, root, names).ret == -1 <==> FirstUnopenable(fs, env, root, names) < |names|
    decreases |names|
  {
    if names != [] {
      var p1 := root + [names[0]];
      if Opens(fs, env, p1) {
        var fs1 := ClearOne(fs, env, p1);
        ClearOneSparesRest(fs, env, root, names);
        FirstUnopenableFrame(fs, fs1, env, root, names[1..]);
        assert NoDup(names[1..]);
        RemoveSubdirsFails(fs1, env, root, names[1..]);
      }
    }
  }

  /** When the outer loop stops at an entry that does not open, everything
      outside the entries before that one is left as it was. */
  lemma {:induction false} RemoveSubdirsFailureFrame(fs: FS, env: Env, root: Path, names: seq<string>)
    requires NoDup(names)
    ensures var k := FirstUnopenable(fs, env, root, names);
      forall q | !Touched(root, names[..k], q) :: Lookup(RemoveSubdirs(fs, env, root, names).fs, q) == Lookup(fs, q)
    decreases |names|
  {
    if names != [] {
      var p1 := root + [names[0]];
      if Opens(fs, env, p1) {
        var fs1 := ClearOne(fs, env, p1);
        var k := FirstUnopenable(fs, env, root, names);
        ClearOneSparesRest(fs, env, root, names);
        FirstUnopenableFrame(fs, fs1, env, root, names[1..]);
        assert k - 1 == FirstUnopenable(fs1, env, root, names[1..]);
        assert NoDup(names[1..]);
        RemoveSubdirsFailureFrame(fs1, env, root, names[1..]);
        ClearOneLocal(fs, env, root, names[0]);
        var r := RemoveSubdirs(fs1, env, root, names[1..]);
        assert RemoveSubdirs(fs, env, root, names) == r;
        TouchedFrameCompose(fs, fs1, r.fs, root, names, k);
      }
    }
  }

  /** Two steps that each keep everything outside their own first-level
      entries keep everything outside both. */
  lemma TouchedFrameCompose(fs: FS, fs1: FS, fs2: FS, root: Path, names: seq<string>, k: nat)
    requires 0 < k <= |names|
    requires forall q | !Touched(root, [names[0]], q) :: Lookup(fs1, q) == Lookup(fs, q)
    requires forall q | !Touched(root, names[1..][..k - 1], q) :: Lookup(fs2, q) == Lookup(fs1, q)
    ensures forall q | !Touched(root, names[..k], q) :: Lookup(fs2, q) == Lookup(fs, q)
  {
    assert names[..k] == [names[0]] + names[1..][..k - 1];
    forall q | !Touched(root, names[..k], q)
      ensures Lookup(fs2, q) == Lookup(fs, q)
    {
      assert !Touched(root, names[1..][..k - 1], q);
      assert !Touched(root, [names[0]], q);
    }
  }

  /** After one entry has been cleared, the listings of the entries listed
      after it still describe them. */
  lemma ClearOneKeepsListings(fs: FS, env: Env, root: Path, names: seq<string>)
    requires NoDup(names) && |names| > 0
    requires forall n | n in names :: Lists(fs, root + [n], env.ls(root + [n]))
    ensures var fs1 := ClearOne(fs, env, root + [names[0]]);
      forall n | n in names[1..] :: Lists(fs1, root + [n], env.ls(root + [n]))
  {
    ClearOneSparesRest(fs, env, root, names);
    forall n | n in names[1..]
      ensures Lists(ClearOne(fs, env, root + [names[0]]), root + [n], env.ls(root + [n]))
    {
      assert n in names;
    }
  }

  /** Clearing an entry whose listing is faithful leaves no deletable file
      directly inside it. */
  lemma ClearOneEmpties(fs: FS, env: Env, p1: Path)
    requires Lists(fs, p1, env.ls(p1))
    ensures var fs1 := ClearOne(fs, env, p1);
      forall q | q in fs1 && |q| == |p1| + 1 && q[..|p1|] == p1 :: fs1[q].Dir? || q in env.undeletable
  {
    var cleared := UnlinkEach(fs, env, p1, env.ls(p1));
    forall q | q in ClearOne(fs, env, p1) && |q| == |p1| + 1 && q[..|p1|] == p1
      ensures cleared[q].Dir? || q in env.undeletable
    {
      assert q == p1 + [q[|p1|]];
      assert q[|p1|] in env.ls(p1);
    }
  }

  /** When the outer loop succeeds, every second-level entry it was shown
      that still exists is a directory or one whose unlink was refused. */
  lemma {:induction false} RemoveSubdirsClears(fs: FS, env: Env, root: Path, names: seq<string>)
    requires NoDup(names)
    requires forall n | n in names :: Lists(fs, root + [n], env.ls(root + [n]))
    ensures var r := RemoveSubdirs(fs, env, root, names);
      r.ret == 0 ==>
        forall q | q in r.fs && Touched(root, names, q) && |q| == |root| + 2 :: r.fs[q].Dir? || q in env.undeletable
    decreases |names|
  {
    if names != [] {
      var p1 := root + [names[0]];
      if Opens(fs, env, p1) {
        var fs1 := ClearOne(fs, env, p1);
        ClearOneKeepsListings(fs, env, root, names);
        assert NoDup(names[1..]);
        RemoveSubdirsClears(fs1, env, root, names[1..]);
        RemoveSubdirsShrinks(fs1, env, root, names[1..]);
        assert names[0] in names;
        ClearOneEmpties(fs, env, p1);
        var r := RemoveSubdirs(fs1, env, root, names[1..]);
        assert RemoveSubdirs(fs, env, root, names) == r;
        if r.ret == 0 {
          ClearsCompose(fs1, r.fs, env, root, names);
        }
      }
    }
  }

  /** The entries the first iteration left under its directory and the ones
      the remaining iterations left under theirs make up everything left. */
  lemma ClearsCompose(fs1: FS, after: FS, env: Env, root: Path, names: seq<string>)
    requires |names| > 0
    requires RemovesOnlyBelow(fs1, after, root)
    requires forall q | q in after && Touched(root, names[1..], q) && |q| == |root| + 2 ::
      after[q].Dir? || q in env.undeletable
    requires var p1 := root + [names[0]];
      forall q | q in fs1 && |q| == |p1| + 1 && q[..|p1|] == p1 :: fs1[q].Dir? || q in env.undeletable
    ensures forall q | q in after && Touched(root, names, q) && |q| == |root| + 2 ::
      after[q].Dir? || q in env.undeletable
  {
    var p1 := root + [names[0]];
    forall q | q in after && Touched(root, names, q) && |q| == |root| + 2
      ensures after[q].Dir? || q in env.undeletable
    {
      if q[|root|] == names[0] {
        assert q[..|p1|] == p1;
      } else {
        assert Touched(root, names[1..], q);
      }
    }
  }

  /** The shape a store's tree has when only this module wrote it: first-level
      entries are directories that open, second-level entries are files, there
      is nothing deeper, and no removal is refused. */
  ghost predicate TwoLevel(fs: FS, env: Env, root: Path) {
    forall q | q in fs && IsStrictPrefix(root, q) ::
      && q !in env.undeletable
      && ((|q| == |root| + 1 && fs[q].Dir? && q !in env.unopenable)
          || (|q| == |root| + 2 && fs[q].File?))
  }

  /** On a two-level tree the outer loop succeeds and removes every listed
      first-level entry together with its contents. */
  lemma {:induction false} RemoveSubdirsComplete(fs: FS, env: Env, root: Path, names: seq<string>)
    requires NoDup(names)
    requires TwoLevel(fs, env, root)
    requires forall n | n in names :: root + [n] in fs && Lists(fs, root + [n], env.ls(root + [n]))
    ensures var r := RemoveSubdirs(fs, env, root, names);
      r.ret == 0 && forall q | Touched(root, names, q) :: q !in r.fs
    decreases |names|
  {
    if names != [] {
      var p1 := root + [names[0]];
      assert names[0] in names;
      var fs1 := ClearOne(fs, env, p1);
      ClearOneRemovesAll(fs, env, root, names[0]);
      ClearOneShrinks(fs, env, root, names[0]);
      ClearOneLocal(fs, env, root, names[0]);
      ClearOneSparesRest(fs, env, root, names);
      assert NoDup(names[1..]);
      forall n | n in names[1..]
        ensures root + [n] in fs1 && Lists(fs1, root + [n], env.ls(root + [n]))
      {
        assert n in names;
      }
      RemoveSubdirsComplete(fs1, env, root, names[1..]);
      RemoveSubdirsShrinks(fs1, env, root, names[1..]);
    }
  }

  /** On a two-level tree, clearing a first-level entry with a faithful
      listing removes it together with everything inside it. */
  lemma ClearOneRemovesAll(fs: FS, env: Env, root: Path, n: string)
    requires TwoLevel(fs, env, root)
    requires root + [n] in fs && Lists(fs, root + [n], env.ls(root + [n]))
    ensures forall q | Touched(root, [n], q) :: q !in ClearOne(fs, env, root + [n])
  {
    var p1 := root + [n];
    assert p1[..|root|] == root;
    var cleared := UnlinkEach(fs, env, p1, env.ls(p1));
    forall q | q in fs && IsStrictPrefix(p1, q)
      ensures q !in cleared
    {
      assert q[..|root|] == root;
      assert q == p1 + [q[|p1|]];
      assert q[|p1|] in env.ls(p1);
    }
    forall q | Touched(root, [n], q)
      ensures q !in ClearOne(fs, env, p1)
    {
      if q != p1 {
        assert q[..|p1|] == p1;
      }
    }
  }

  /** In a well-formed tree with a faithful root listing, every entry below
      the root sits inside one of the listed first-level entries. */
  lemma BelowRootIsListed(fs: FS, env: Env, root: Path, q: Path)
    requires WellFormed(fs) && Lists(fs, root, env.ls(root))
    requires q in fs && IsStrictPrefix(root, q)
    ensures Touched(root, env.ls(root), q)
  {
    var p1 := q[..|root| + 1];
    assert p1 == root + [q[|root|]];
    AncestorsPresent(fs, p1, q);
  }

  /** With a root listing that names each entry once, remove_store fails
      exactly when the root opens and one of its entries does not; such a
      failure leaves the root, and everything outside the entries before the
      failing one, as it was. */
  lemma RemoveStoreFailure(b: Backend, fs: FS, env: Env, store: string)
    requires NoDup(env.ls(b.objDir + [store]))
    ensures var root := b.objDir + [store];
            var names := env.ls(root);
            var k := FirstUnopenable(fs, env, root, names);
            var r := RemoveStore(b, fs, env, store);
      && (r.ret == -1 <==> Opens(fs, env, root) && k < |names|)
      && (r.ret == -1 ==> forall q | !Touched(root, names[..k], q) :: Lookup(r.fs, q) == Lookup(fs, q))
  {
    var root := b.objDir + [store];
    if Opens(fs, env, root) {
      RemoveSubdirsFails(fs, env, root, env.ls(root));
      RemoveSubdirsFailureFrame(fs, env, root, env.ls(root));
    }
  }

  /** After a successful remove_store whose root opened, on a tree with
      faithful listings, every second-level entry left below the store is a
      directory or one whose unlink was refused. */
  lemma RemoveStoreClears(b: Backend, fs: FS, env: Env, store: string)
    requires WellFormed(fs) && WellListed(fs, env)
    ensures var root := b.objDir + [store];
            var r := RemoveStore(b, fs, env, store);
      r.ret == 0 && Opens(fs, env, root) ==>
        forall q | q in r.fs && IsStrictPrefix(root, q) && |q| == |root| + 2 :: r.fs[q].Dir? || q in env.undeletable
  {
    var root := b.objDir + [store];
    if Opens(fs, env, root) {
      var names := env.ls(root);
      assert Lists(fs, root, names);
      forall n | n in names
        ensures Lists(fs, root + [n], env.ls(root + [n]))
      {
        assert Lists(fs, root + [n], env.ls(root + [n]));
      }
      RemoveSubdirsClears(fs, env, root, names);
      RemoveSubdirsShrinks(fs, env, root, names);
      var s := RemoveSubdirs(fs, env, root, names);
      var r := RemoveStore(b, fs, env, store);
      if r.ret == 0 {
        assert s.ret == 0 && r.fs == Rmdir(s.fs, env, root);
        forall q | q in r.fs && IsStrictPrefix(root, q) && |q| == |root| + 2
          ensures r.fs[q].Dir? || q in env.undeletable
        {
          assert q in s.fs && r.fs[q] == s.fs[q];
          assert q in fs;
          BelowRootIsListed(fs, env, root, q);
          assert Touched(root, names, q);
        }
      }
    }
  }

  /** On a two-level store tree with faithful listings, where nothing refuses
      to open or to be removed, remove_store succeeds and leaves nothing at or
      below the store's root; a second call then finds nothing to do. */
  lemma RemoveStoreComplete(b: Backend, fs: FS, env: Env, store: string)
    requires WellFormed(fs) && WellListed(fs, env)
    requires var root := b.objDir + [store];
      root !in env.unopenable && root !in env.undeletable && !IsFile(fs, root) && TwoLevel(fs, env, root)
    ensures var root := b.objDir + [store];
            var r := RemoveStore(b, fs, env, store);
      && r.ret == 0
      && (forall q | IsPrefix(root, q) :: q !in r.fs)
      && RemoveStore(b, r.fs, env, store) == Step(r.fs, 0)
  {
    var root := b.objDir + [store];
    if root !in fs {
      forall q | IsPrefix(root, q) && q in fs
        ensures false
      {
        AncestorsPresent(fs, root, q);
      }
      return;
    }
    var names := env.ls(root);
    assert Lists(fs, root, names);
    forall n | n in names
      ensures root + [n] in fs && Lists(fs, root + [n], env.ls(root + [n]))
    {
      assert Lists(fs, root + [n], env.ls(root + [n]));
    }
    RemoveSubdirsComplete(fs, env, root, names);
    RemoveSubdirsShrinks(fs, env, root, names);
    var s := RemoveSubdirs(fs, env, root, names);
    forall q | q in fs && IsStrictPrefix(root, q)
      ensures q !in s.fs
    {
      BelowRootIsListed(fs, env, root, q);
    }
    var r := RemoveStore(b, fs, env, store);
    assert r.fs == Rmdir(s.fs, env, root);
    assert root !in r.fs;
    forall q | IsPrefix(root, q)
      ensures q !in r.fs
    {
      if q != root {
        assert IsStrictPrefix(root, q);
      }
    }
  }

  /** With faithful listings, a callback that never stops is handed the
      identifier of every second-level entry below the layout root whose
      directories open. */
  lemma ForeachObjFindsEntry(b: Backend, fs: FS, env: Env, repo: string, version: int, visit: Visitor, p: Path)
    requires WellFormed(fs) && WellListed(fs, env)
    requires forall h, id :: visit(h, id)
    requires var root := LayoutRoot(b, repo, version);
      && p in fs && |p| == |root| + 2 && p[..|root|] == root
      && root !in env.unopenable && p[..|root| + 1] !in env.unopenable
    ensures IdOfPath(p) in ForeachObj(b, fs, env, repo, version, visit).walk.visited
  {
    var root := LayoutRoot(b, repo, version);
    var p1 := p[..|root| + 1];
    assert IsPrefix(p1, p) && |p1| > 0;
    AncestorsPresent(fs, p1, p);
    if |root| > 0 {
      assert IsPrefix(root, p);
      AncestorsPresent(fs, root, p);
    }
    assert p1[..|root|] == root;
    assert (p[|root|], p[|root| + 1]) in ReachablePairs(fs, env, root);
    AllPairsAreReachable(fs, env, root);
    ForeachObjComplete(b, fs, env, repo, version, visit);
    var all := AllPairs(fs, env, root);
    var i :| 0 <= i < |all| && all[i] == (p[|root|], p[|root| + 1]);
    assert IdsOf(all)[i] == IdOfPath(p);
  }
}
