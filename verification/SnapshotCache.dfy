/** The cached worktree and the operations that make it equal to the source snapshot
    while touching as little as possible. */
module SnapshotCache {
  import opened Options
  import opened Text
  import opened FileTree
  import opened CacheSpec
  import RegularFiles

  // ---- what a partly finished walk has removed ----

  ghost predicate Gone(t: Tree, wanted: set<string>, visited: set<string>, p: string) {
    exists d :: d in visited && StaleAt(t, wanted, d) && AtOrUnder(d, p)
  }

  ghost function WithoutStale(t: Tree, wanted: set<string>, visited: set<string>): Tree {
    map p | p in t && !Gone(t, wanted, visited, p) :: t[p]
  }

  lemma GoneStep(t: Tree, wanted: set<string>, visited: set<string>, d: string, p: string)
    ensures Gone(t, wanted, visited + {d}, p) <==>
            Gone(t, wanted, visited, p) || (StaleAt(t, wanted, d) && AtOrUnder(d, p))
  {
    if Gone(t, wanted, visited, p) {
      var e :| e in visited && StaleAt(t, wanted, e) && AtOrUnder(e, p);
      assert e in visited + {d};
    }
    assert d in visited + {d};
  }

  lemma GoneAtEnd(t: Tree, wanted: set<string>)
    requires WellFormed(t)
    ensures WithoutStale(t, wanted, t.Keys) == AfterStale(t, wanted)
  {
    forall p | p in t ensures Gone(t, wanted, t.Keys, p) <==> !Survives(t, wanted, p) {
      AncestorsOutsideGit(p);
      if Gone(t, wanted, t.Keys, p) {
        var d :| d in t.Keys && StaleAt(t, wanted, d) && AtOrUnder(d, p);
        assert d != p ==> d in Ancestors(p) && d in wanted;
      }
      if !Survives(t, wanted, p) && !StaleAt(t, wanted, p) {
        var a :| a in Ancestors(p) && a in wanted;
        assert Under(a, p) && StaleAt(t, wanted, a);
      }
    }
  }

  /** A stale path still present when the walk reaches it is the topmost stale path above it. */
  lemma TopWhenReached(t: Tree, wanted: set<string>, walk: seq<string>, i: nat)
    requires WellFormed(t) && IsWalk(walk, t) && i < |walk| && StaleAt(t, wanted, walk[i])
    requires !Gone(t, wanted, Elems(walk[..i]), walk[i])
    ensures Ancestors(walk[i]) !! wanted
  {
    var path := walk[i];
    AncestorsOutsideGit(path);
    forall a | a in Ancestors(path) ensures a !in wanted {
      assert Under(a, path) && a in t && t[a].Dir?;
      assert a in Elems(walk);
      var j :| 0 <= j < |walk| && walk[j] == a;
      assert walk[..i][j] == a;
      assert a in Elems(walk[..i]);
    }
  }

  /** Visiting a path that is not stale, or already gone, removes nothing more. */
  lemma SkipStep(t: Tree, wanted: set<string>, seen: set<string>, path: string)
    requires WellFormed(t) && path in t
    requires StaleAt(t, wanted, path) ==> Gone(t, wanted, seen, path)
    ensures WithoutStale(t, wanted, seen + {path}) == WithoutStale(t, wanted, seen)
    ensures StaleTops(t, wanted) * (seen + {path}) == StaleTops(t, wanted) * seen
  {
    forall p | p in t ensures Gone(t, wanted, seen + {path}, p) <==> Gone(t, wanted, seen, p) {
      GoneStep(t, wanted, seen, path, p);
      if StaleAt(t, wanted, path) && AtOrUnder(path, p) {
        var d :| d in seen && StaleAt(t, wanted, d) && AtOrUnder(d, path);
        if d != path && path != p { UnderTransitive(d, path, p); }
      }
    }
    if path in StaleTops(t, wanted) {
      var d :| d in seen && StaleAt(t, wanted, d) && AtOrUnder(d, path);
      assert d != path ==> d in Ancestors(path) && d in wanted;
    }
  }

  /** Visiting a stale path takes it away with everything below it. */
  lemma RemoveStep(t: Tree, wanted: set<string>, seen: set<string>, path: string)
    requires StaleAt(t, wanted, path)
    ensures WithoutStale(t, wanted, seen + {path}) == RemoveAll(WithoutStale(t, wanted, seen), path)
  {
    forall p | p in t { GoneStep(t, wanted, seen, path, p); }
  }

  // ---- what a partly finished pruning has removed ----

  ghost predicate IsCacheDir(t: Tree, d: string) {
    d in t && t[d].Dir? && !InGit(d)
  }

  ghost function WithoutEmpty(t: Tree, done: set<string>): Tree {
    map p | p in t && (p in done ==> HasLeaf(t, p)) :: t[p]
  }

  /** Longest first: when a directory's turn comes, it has an entry left iff it has a file somewhere below. */
  lemma EmptyWhenReached(t: Tree, dirs: seq<string>, k: nat)
    requires WellFormed(t) && Shortest(dirs) && k < |dirs|
    requires forall d :: d in dirs <==> IsCacheDir(t, d)
    ensures var now := WithoutEmpty(t, Elems(dirs[k + 1..]));
      (exists p :: p in now && Under(dirs[k], p)) <==> HasLeaf(t, dirs[k])
  {
    var d := dirs[k];
    var done := Elems(dirs[k + 1..]);
    var now := WithoutEmpty(t, done);
    assert d in dirs;
    if HasLeaf(t, d) {
      var q :| q in t && !t[q].Dir? && Under(d, q);
      assert q in done ==> q in dirs;
      assert q in now;
    }
    if p :| p in now && Under(d, p) {
      if t[p].Dir? {
        GitIsClosed(d, p);
        assert p in dirs;
        var j :| 0 <= j < |dirs| && dirs[j] == p;
        assert dirs[k + 1..][j - (k + 1)] == p;
        var q :| q in t && !t[q].Dir? && Under(p, q);
        UnderTransitive(d, p, q);
      }
    }
  }

  // ---- copying ----

  /** A regular file is to be copied onto a symbolic link: opening the link for writing follows it. */
  ghost predicate WritesThroughLink(src: Tree, t: Tree, files: set<string>) {
    exists f :: f in files && f in src && src[f].File? && f in t && t[f].Link?
  }

  /** A link is to be made where something else already is: `os.Symlink` never replaces. */
  ghost predicate LinkInTheWay(src: Tree, t: Tree, f: string) {
    f in src && src[f].Link? && f in t && !t[f].Dir? && !Same(src[f], t[f])
  }

  /** A file cannot be opened: its source is not readable, or it differs in the cache and is not writable there. */
  ghost predicate Locked(src: Tree, t: Tree, f: string) {
    && f in src && src[f].File?
    && (!OwnerReads(src[f].perm) || (f in t && t[f].File? && !Same(src[f], t[f]) && !OwnerWrites(t[f].perm)))
  }

  /** No reconcile can bring the path over. */
  ghost predicate Blocked(src: Tree, t: Tree, f: string) {
    f !in src || LinkInTheWay(src, t, f) || Locked(src, t, f)
  }

  ghost predicate Mirrors(src: Tree, t: Tree, files: set<string>) {
    forall f :: f in files ==> f in src && f in t && t[f] == src[f]
  }

  ghost predicate LinksKept(before: Tree, after: Tree) {
    forall p :: p in before && before[p].Link? ==> p in after && after[p] == before[p]
  }

  /** Equal as far as can be told without opening them. */
  predicate SameSize(a: Node, b: Node) {
    a.File? && b.File? && a.perm == b.perm && |a.data| == |b.data|
  }

  /** The paths a reconcile reports. */
  ghost function Touched(src: Tree, t: Tree, files: set<string>, wanted: set<string>): set<string> {
    StaleTops(t, wanted) + set f | f in files && !Matches(src, AfterStale(t, wanted), f)
  }

  lemma MadeIsWellFormed(t: Tree, p: string, n: Node)
    requires WellFormed(t) && MkdirAll(t, p).Some? && p != ""
    ensures WellFormed(MkdirAll(t, p).value) && LinksKept(t, MkdirAll(t, p).value)
    ensures p in MkdirAll(t, p).value <==> p in t
    ensures p in t ==> MkdirAll(t, p).value[p] == t[p]
    ensures (p in t ==> !t[p].Dir?) ==> WellFormed(MkdirAll(t, p).value[p := n])
  {
    var u := MkdirAll(t, p).value;
    forall d, x | x in u && Under(d, x) ensures d in u && u[d].Dir? {
      AncestorsClosed(p);
      assert x in Ancestors(p) ==> d in Ancestors(p);
    }
    forall d, x | x in u + map[p := Dir] && Under(d, x) ensures d in u && u[d].Dir? {
      assert x == p ==> d in Ancestors(p);
    }
    forall x | x in u && Under(p, x) ensures p in t && t[p].Dir? {
      AncestorsClosed(p);
      assert x in Ancestors(p) ==> p in Ancestors(p);
    }
  }

  ghost predicate Copyable(src: Tree, t: Tree, files: set<string>) {
    forall f :: f in files ==> !Blocked(src, t, f)
  }

  /** What a reconcile needs of each listed path: the source has it; a file there can be read, and overwritten in the
      cache where it differs in content or permission; a link there meets nothing, a directory or the same link. */
  lemma CopyableIff(src: Tree, t: Tree, files: set<string>)
    ensures Copyable(src, t, files) <==> forall f :: f in files ==>
      && f in src
      && (src[f].File? ==> OwnerReads(src[f].perm))
      && (src[f].File? && f in t && t[f].File? && !(t[f].data == src[f].data && t[f].perm == src[f].perm) ==>
            OwnerWrites(t[f].perm))
      && (src[f].Link? && f in t ==> t[f].Dir? || t[f] == src[f])
  {
    assert Copyable(src, t, files) <==> forall f :: f in files ==> !Blocked(src, t, f);
  }

  /** Copying one listed path onto a clean tree: what succeeds, and what it leaves. */
  lemma CopyStep(src: Tree, t: Tree, wanted: set<string>, s: set<string>, f: string)
    requires Clean(t, wanted) && Snapshot(src, wanted) && s <= src.Keys && s <= wanted
    requires f in src && f in wanted && !WritesThroughLink(src, t, {f})
    ensures var u := Overlay(t, src, s);
      && !WritesThroughLink(src, u, {f})
      && MkdirAll(u, f).Some?
      && MkdirAll(u, f).value[f := src[f]] == Overlay(t, src, s + {f})
      && (f in u ==> !u[f].Dir? && u[f := src[f]] == Overlay(t, src, s + {f}))
      && (Matches(src, u, f) <==> f in s || Matches(src, t, f))
      && (f in u && f !in s ==> u[f] == t[f])
      && (f in s ==> f in u && u[f] == src[f])
      && GitPart(MkdirAll(u, f).value) == GitPart(u)
  {
    OverlayStep(t, src, wanted, s, f);
    var u := Overlay(t, src, s);
    assert !src[f].Dir?;
    AncestorsOutsideGit(f);
    assert f in t && t[f].Link? && src[f].File? ==> f in {f} && WritesThroughLink(src, t, {f});
    assert GitPart(WithDirs(u, Ancestors(f))) == GitPart(u);
  }

  /** The listed paths `s` have been brought over, and `copied` are those that had to be written. */
  ghost predicate Progress(src: Tree, t1: Tree, s: set<string>, now: Tree, copied: seq<string>) {
    && s <= src.Keys
    && now == Overlay(t1, src, s)
    && Copyable(src, t1, s)
    && Elems(copied) == set f | f in s && !Matches(src, t1, f)
  }

  /** Removing stale paths settles neither question about links. */
  lemma StaleKeepsQuestions(src: Tree, t: Tree, wanted: set<string>, files: set<string>)
    requires WellFormed(t) && Snapshot(src, wanted) && files <= wanted
    ensures WritesThroughLink(src, AfterStale(t, wanted), files) <==> WritesThroughLink(src, t, files)
    ensures Copyable(src, AfterStale(t, wanted), files) <==> Copyable(src, t, files)
  {
    forall f | f in files && f in src ensures f in AfterStale(t, wanted) <==> f in t && !t[f].Dir? {
      WantedSurvives(src, t, wanted, f);
    }
  }

  /** What bringing one path over means when it does not write through a link. */
  ghost predicate Brought(src: Tree, u: Tree, file: string, ok: bool, did: bool, v: Tree) {
    if file !in src then !ok && v == u
    else (!WritesThroughLink(src, u, {file}) && MkdirAll(u, file).Some? && (file in u ==> !u[file].Dir?)) ==>
      && (ok <==> !Blocked(src, u, file))
      && (ok ==> did == !Matches(src, u, file))
      && (ok ==> v == (if did then MkdirAll(u, file).value else u)[file := src[file]])
      && (!ok ==> v == u || v == MkdirAll(u, file).value)
  }

  lemma ProgressStep(src: Tree, t1: Tree, wanted: set<string>, s: set<string>, f: string,
                     u: Tree, copied: seq<string>, ok: bool, did: bool, v: Tree)
    requires Clean(t1, wanted) && Snapshot(src, wanted) && s <= wanted && f in wanted
    requires !WritesThroughLink(src, t1, {f})
    requires Progress(src, t1, s, u, copied) && Brought(src, u, f, ok, did, v)
    ensures GitPart(v) == GitPart(t1)
    ensures ok ==> Progress(src, t1, s + {f}, v, if did then copied + [f] else copied)
    ensures !ok ==> Blocked(src, t1, f) && SoFar(src, t1, wanted, v)
  {
    OverlayIsClean(t1, src, wanted, s);
    if f in src {
      CopyStep(src, t1, wanted, s, f);
      if ok {
        ProgressOk(src, t1, s, f, u, copied, did, v);
        OverlayIsClean(t1, src, wanted, s + {f});
      }
    }
    if !ok {
      StoppedSoFar(src, t1, wanted, s, f, v);
    }
  }

  /** Where a stopped copying has left the wanted paths: each as in the source or as it was, the blocked ones as they
      were. */
  ghost predicate SoFar(src: Tree, t1: Tree, wanted: set<string>, now: Tree) {
    forall f :: f in wanted && f in src ==>
      && (f in now ==> now[f] == src[f] || (f in t1 && now[f] == t1[f]))
      && (f in t1 && !t1[f].Dir? && Blocked(src, t1, f) ==> f in now && now[f] == t1[f])
  }

  lemma StoppedSoFar(src: Tree, t1: Tree, wanted: set<string>, s: set<string>, f: string, now: Tree)
    requires Clean(t1, wanted) && Snapshot(src, wanted) && s <= src.Keys && s <= wanted && Copyable(src, t1, s)
    requires f in wanted
    requires now == Overlay(t1, src, s) || (f in src && now == WithDirs(Overlay(t1, src, s), Ancestors(f)))
    ensures SoFar(src, t1, wanted, now)
  {
    AncestorsOfFiles(t1, src, wanted, s);
    if f in src {
      AncestorsOfFiles(t1, src, wanted, {f});
      assert forall a :: a in Ancestors(f) ==> f in {f} && a in AllAncestors({f});
    }
  }

  lemma ProgressOk(src: Tree, t1: Tree, s: set<string>, f: string, u: Tree, copied: seq<string>, did: bool, v: Tree)
    requires !Blocked(src, t1, f)
    requires Progress(src, t1, s, u, copied) && v == Overlay(t1, src, s + {f})
    requires did <==> !(f in s || Matches(src, t1, f))
    ensures Progress(src, t1, s + {f}, v, if did then copied + [f] else copied)
  {
    ElemsAppend(copied, f);
  }

  ghost predicate CopyOutcome(src: Tree, t1: Tree, files: set<string>, ok: bool, now: Tree, copied: seq<string>) {
    && GitPart(now) == GitPart(t1)
    && (ok <==> Copyable(src, t1, files))
    && (if ok then Progress(src, t1, files, now, copied) else SoFar(src, t1, files, now))
  }

  /** What blocked a reconcile blocks the next one. */
  lemma StaysBlocked(src: Tree, t0: Tree, wanted: set<string>, files: set<string>, now: Tree)
    requires WellFormed(t0) && Snapshot(src, wanted) && files <= wanted
    requires SoFar(src, AfterStale(t0, wanted), files, now)
    ensures SoFar(src, t0, files, now)
    ensures !WritesThroughLink(src, t0, files) ==> !WritesThroughLink(src, now, files)
    ensures !Copyable(src, t0, files) ==> !Copyable(src, now, files)
  {
    forall f | f in files && f in src ensures f in AfterStale(t0, wanted) <==> f in t0 && !t0[f].Dir? {
      WantedSurvives(src, t0, wanted, f);
    }
  }

  lemma NoProgress(src: Tree, t1: Tree)
    ensures Progress(src, t1, {}, t1, [])
  {
    assert AllAncestors({}) == {};
  }

  lemma LinksKeptTransitive(a: Tree, b: Tree, c: Tree)
    requires LinksKept(a, b) && LinksKept(b, c)
    ensures LinksKept(a, c)
  {
  }

  lemma PrunedKeepsLeaves(t: Tree)
    requires WellFormed(t)
    ensures WellFormed(Pruned(t)) && GitPart(Pruned(t)) == GitPart(t)
    ensures forall p :: p in t && !t[p].Dir? ==> p in Pruned(t) && Pruned(t)[p] == t[p]
  {
    forall d, p | p in Pruned(t) && Under(d, p) ensures d in Pruned(t) {
      if t[p].Dir? && HasLeaf(t, p) {
        var q :| q in t && !t[q].Dir? && Under(p, q);
        UnderTransitive(d, p, q);
      }
      GitIsClosed(d, p);
    }
  }

  lemma LinkRemains(src: Tree, t0: Tree, wanted: set<string>, files: set<string>, t2: Tree)
    requires WellFormed(t0) && Snapshot(src, wanted) && files <= wanted && WellFormed(t2)
    requires WritesThroughLink(src, t0, files) && LinksKept(AfterStale(t0, wanted), t2)
    ensures !Mirrors(src, Pruned(t2), files)
  {
    PrunedKeepsLeaves(t2);
    var f :| f in files && f in src && src[f].File? && f in t0 && t0[f].Link?;
    WantedSurvives(src, t0, wanted, f);
  }

  lemma Finished(src: Tree, t0: Tree, wanted: set<string>, files: set<string>, t2: Tree,
                 removed: seq<string>, copied: seq<string>, touched: seq<string>)
    requires WellFormed(t0) && Snapshot(src, wanted) && files <= wanted
    requires Progress(src, AfterStale(t0, wanted), files, t2, copied)
    requires Elems(removed) == StaleTops(t0, wanted)
    requires Sorted(touched) && Elems(touched) == Elems(removed + copied) - {""}
    ensures Pruned(t2) == Reconciled(src, t0, files, wanted)
    ensures Mirrors(src, Pruned(t2), files)
    ensures touched == SortedSeq(Touched(src, t0, files, wanted))
  {
    StagesReconcile(src, t0, files, wanted);
    forall f | f in files ensures f in t2 && !t2[f].Dir? && t2[f] == src[f] {
      assert f in wanted;
    }
    assert Elems(removed + copied) == Elems(removed) + Elems(copied);
    SortedIsUnique(touched, SortedSeq(Touched(src, t0, files, wanted)));
  }

  class Cache {
    var tree: Tree
    /** Where the operating system ends up when it follows the link at a path; `None` is outside the cache. */
    const resolve: string -> Option<string>

    constructor (t: Tree, resolve: string -> Option<string>)
      ensures tree == t && this.resolve == resolve
    {
      tree := t;
      this.resolve := resolve;
    }

    method RemoveStaleCachePaths(wanted: set<string>) returns (removed: seq<string>)
      requires WellFormed(tree)
      modifies this
      ensures tree == AfterStale(old(tree), wanted)
      ensures Elems(removed) == StaleTops(old(tree), wanted)
    {
      ghost var t0 := tree;
      removed := [];
      var walk := WalkDir(tree);
      var i := 0;
      assert tree == WithoutStale(t0, wanted, {});
      while i < |walk|
        invariant 0 <= i <= |walk|
        invariant tree == WithoutStale(t0, wanted, Elems(walk[..i]))
        invariant Elems(removed) == StaleTops(t0, wanted) * Elems(walk[..i])
      {
        var path := walk[i];
        ghost var seen := Elems(walk[..i]);
        ElemsTake(walk, i);
        assert path in Elems(walk);
        ElemsAppend(removed, path);
        if path !in tree || InGit(path) {
          // inside a directory already removed, or below `.git`: skipped
          SkipStep(t0, wanted, seen, path);
        } else if tree[path].Dir? {
          if path in wanted {
            TopWhenReached(t0, wanted, walk, i);
            RemoveStep(t0, wanted, seen, path);
            tree := RemoveAll(tree, path);
            removed := removed + [path];
          } else {
            SkipStep(t0, wanted, seen, path);
          }
        } else if path !in wanted {
          TopWhenReached(t0, wanted, walk, i);
          RemoveStep(t0, wanted, seen, path);
          assert RemoveAll(tree, path) == tree - {path};
          tree := tree - {path};
          removed := removed + [path];
        } else {
          SkipStep(t0, wanted, seen, path);
        }
        i := i + 1;
      }
      assert walk[..|walk|] == walk;
      GoneAtEnd(t0, wanted);
    }

    /** The directories outside `.git`, shortest path first. */
    method CacheDirs() returns (dirs: seq<string>)
      ensures Shortest(dirs) && forall d :: d in dirs <==> IsCacheDir(tree, d)
    {
      var walk := WalkDir(tree);
      dirs := [];
      var i := 0;
      while i < |walk|
        invariant 0 <= i <= |walk| && Shortest(dirs)
        invariant Elems(dirs) == set d | d in Elems(walk[..i]) && IsCacheDir(tree, d)
      {
        ElemsTake(walk, i);
        assert walk[i] in Elems(walk);
        if !InGit(walk[i]) && tree[walk[i]].Dir? {
          InsertByLengthElems(dirs, walk[i]);
          InsertByLengthKeepsOrder(dirs, walk[i]);
          dirs := InsertByLength(dirs, walk[i]);
        }
        i := i + 1;
      }
      assert walk[..|walk|] == walk;
      assert forall d :: d in dirs <==> d in Elems(dirs);
    }

    method RemoveEmptyCacheDirs()
      requires WellFormed(tree)
      modifies this
      ensures tree == Pruned(old(tree))
    {
      ghost var t0 := tree;
      var dirs := CacheDirs();
      // by decreasing length: from the end of the list
      var k := |dirs|;
      assert dirs[k..] == [] && Elems(dirs[k..]) == {};
      assert tree == WithoutEmpty(t0, {});
      while k > 0
        invariant 0 <= k <= |dirs|
        invariant tree == WithoutEmpty(t0, Elems(dirs[k..]))
      {
        k := k - 1;
        var dir := dirs[k];
        EmptyWhenReached(t0, dirs, k);
        assert dirs[k..] == [dir] + dirs[k + 1..];
        ElemsCons(dir, dirs[k + 1..]);
        if dir in tree && !exists p :: p in tree && Under(dir, p) {
          tree := tree - {dir};
        }
      }
      assert dirs[0..] == dirs;
    }

    /** `None` is an error. A match also copies the modification time. */
    method SnapshotPathMatches(src: Tree, rel: string) returns (r: Option<bool>)
      requires rel in src ==> !src[rel].Dir?
      modifies this
      ensures r.None? <==> rel !in src
                           || (rel in old(tree) && SameSize(src[rel], old(tree)[rel]) && !OwnerReads(src[rel].perm))
      ensures r.Some? ==> (r.value <==> Matches(src, old(tree), rel))
      ensures tree == if r == Some(true) then old(tree)[rel := src[rel]] else old(tree)
    {
      if rel !in src {
        return None;
      }
      if rel !in tree {
        return Some(false);
      }
      var srcInfo, dstInfo := src[rel], tree[rel];
      if srcInfo.Link? {
        if !dstInfo.Link? {
          return Some(false);
        }
        assert srcInfo.target == dstInfo.target ==> tree[rel := src[rel]] == tree;
        return Some(srcInfo.target == dstInfo.target);
      }
      if !dstInfo.File? {
        return Some(false);
      }
      if srcInfo.perm != dstInfo.perm || |srcInfo.data| != |dstInfo.data| {
        return Some(false);
      }
      if !OwnerReads(srcInfo.perm) || !OwnerReads(dstInfo.perm) {
        return None;
      }
      RegularFiles.FullReadsAreReads(srcInfo.data, 0);
      RegularFiles.FullReadsAreReads(dstInfo.data, 0);
      var chunks := RegularFiles.FullReads(|srcInfo.data|);
      var equal := RegularFiles.RegularFilesEqual(srcInfo.data, dstInfo.data, chunks, chunks);
      if equal != Some(true) {
        return Some(false);
      }
      tree := tree[rel := File(dstInfo.data, srcInfo.perm, srcInfo.mtime)];
      return Some(true);
    }

    /** What writing `node` through the link at `rel` does. A link that leads out of the cache leaves it as it is; where
        one leads inside, there must be a writable file or a free place in a directory, and nothing else changes. */
    ghost predicate WrittenThrough(t: Tree, rel: string, node: Node, ok: bool, u: Tree) {
      match resolve(rel)
      case None => ok && u == t
      case Some(q) =>
        && (ok <==> if q in t then t[q].File? && OwnerWrites(t[q].perm)
                    else q != "" && forall d :: d in Ancestors(q) ==> d in t && t[d].Dir?)
        && u == if ok then t[q := node] else t
    }

    method CopySnapshotPath(src: Tree, rel: string) returns (ok: bool)
      requires WellFormed(tree) && rel != "" && (rel in src ==> !src[rel].Dir?)
      modifies this
      ensures WellFormed(tree) && LinksKept(old(tree), tree)
      ensures !WritesThroughLink(src, old(tree), {rel}) ==>
        (ok <==> && rel in src && MkdirAll(old(tree), rel).Some?
                 && (src[rel].File? ==> OwnerReads(src[rel].perm))
                 && (rel in old(tree) ==> old(tree)[rel].File? && src[rel].File? && OwnerWrites(old(tree)[rel].perm)))
      ensures !WritesThroughLink(src, old(tree), {rel}) && ok ==>
        tree == MkdirAll(old(tree), rel).value[rel := src[rel]]
      ensures !WritesThroughLink(src, old(tree), {rel}) && !ok ==>
        tree == old(tree) || (MkdirAll(old(tree), rel).Some? && tree == MkdirAll(old(tree), rel).value)
      ensures WritesThroughLink(src, old(tree), {rel}) ==>
        if OwnerReads(src[rel].perm) then WrittenThrough(old(tree), rel, src[rel], ok, tree)
        else !ok && tree == old(tree)
    {
      if rel !in src {
        return false;
      }
      assert rel in tree ==> forall a :: a in Ancestors(rel) ==> a in tree && tree[a].Dir?;
      assert rel in tree ==> WithDirs(tree, Ancestors(rel)) == tree;
      var made := MkdirAll(tree, rel);
      if made.None? {
        return false;
      }
      MadeIsWellFormed(tree, rel, src[rel]);
      tree := made.value;
      if src[rel].Link? {
        if rel in tree {
          return false;
        }
        tree := tree[rel := src[rel]];
        return true;
      }
      if !OwnerReads(src[rel].perm) || (rel in tree && tree[rel].Dir?) {
        return false;
      }
      if rel in tree && tree[rel].Link? {
        assert rel in {rel} && WritesThroughLink(src, old(tree), {rel});
        ok := WriteThroughLink(rel, src[rel]);
        return;
      }
      if rel in tree && !OwnerWrites(tree[rel].perm) {
        return false;
      }
      tree := tree[rel := src[rel]];
      return true;
    }

    /** Writing to what a link leads to: a file of the cache, a new file, or something outside it. */
    method WriteThroughLink(rel: string, node: Node) returns (ok: bool)
      requires WellFormed(tree) && rel in tree && tree[rel].Link? && node.File?
      modifies this
      ensures WellFormed(tree) && LinksKept(old(tree), tree)
      ensures WrittenThrough(old(tree), rel, node, ok, tree)
    {
      match resolve(rel)
      case None =>
        return true;
      case Some(q) =>
        if q in tree && tree[q].File? {
          if !OwnerWrites(tree[q].perm) {
            return false;
          }
          tree := tree[q := node];
          return true;
        }
        if q != "" && q !in tree && forall a :: a in Ancestors(q) ==> a in tree && tree[a].Dir? {
          MadeIsWellFormed(tree, q, node);
          assert MkdirAll(tree, q).value == tree;
          tree := tree[q := node];
          return true;
        }
        return false;
    }

    /** One round of the copying loop; `did` says whether the path was written. */
    method CopyOne(src: Tree, file: string) returns (ok: bool, did: bool)
      requires WellFormed(tree) && file != "" && (file in src ==> !src[file].Dir?)
      modifies this
      ensures WellFormed(tree) && LinksKept(old(tree), tree)
      ensures file !in src ==> !ok && tree == old(tree)
      ensures Brought(src, old(tree), file, ok, did, tree)
      ensures WritesThroughLink(src, old(tree), {file}) && OwnerReads(src[file].perm) ==>
        did && WrittenThrough(old(tree), file, src[file], ok, tree)
    {
      var same := SnapshotPathMatches(src, file);
      if same.None? {
        return false, false;
      }
      if same.value {
        return true, false;
      }
      assert file in {file};
      assert !WritesThroughLink(src, tree, {file}) && file in tree && src[file].File? ==> !tree[file].Link?;
      ok := CopySnapshotPath(src, file);
      did := true;
    }

    /** The copying loop of `reconcileCacheWorktree`. */
    method CopyFiles(src: Tree, files: seq<string>, ghost wanted: set<string>) returns (ok: bool, copied: seq<string>)
      requires Clean(tree, wanted) && Snapshot(src, wanted) && Elems(files) <= wanted
      modifies this
      ensures WellFormed(tree) && LinksKept(old(tree), tree)
      ensures ok ==> Elems(files) <= src.Keys
      ensures !WritesThroughLink(src, old(tree), Elems(files)) ==>
        CopyOutcome(src, old(tree), Elems(files), ok, tree, copied)
    {
      ghost var t1, all := tree, Elems(files);
      ghost var direct := !WritesThroughLink(src, t1, all);
      ghost var s: set<string> := {};
      copied := [];
      var i := 0;
      NoProgress(src, t1);
      while i < |files|
        invariant 0 <= i <= |files| && s == Elems(files[..i])
        invariant s <= src.Keys && s <= all
        invariant WellFormed(tree) && LinksKept(t1, tree)
        invariant direct ==> Progress(src, t1, s, tree, copied)
      {
        var file := files[i];
        ghost var u := tree;
        ElemsTake(files, i);
        assert file in all && file in wanted;
        var did;
        ok, did := CopyOne(src, file);
        LinksKeptTransitive(t1, u, tree);
        if direct {
          assert !WritesThroughLink(src, t1, {file});
          ProgressStep(src, t1, wanted, s, file, u, copied, ok, did, tree);
        }
        if !ok {
          return false, [];
        }
        if did {
          copied := copied + [file];
        }
        s := s + {file};
        i := i + 1;
      }
      assert files[..i] == files;
      ok := true;
      OverlayIsClean(t1, src, wanted, all);
    }

    method ReconcileCacheWorktree(src: Tree, files: seq<string>, wantedFiles: seq<string>)
      returns (ok: bool, touched: seq<string>)
      requires WellFormed(tree) && Snapshot(src, Elems(wantedFiles)) && Elems(files) <= Elems(wantedFiles)
      modifies this
      ensures WellFormed(tree)
      ensures !WritesThroughLink(src, old(tree), Elems(files)) ==>
        && GitPart(tree) == GitPart(old(tree))
        && (ok <==> Copyable(src, old(tree), Elems(files)))
      ensures !WritesThroughLink(src, old(tree), Elems(files)) && ok ==>
        && tree == Reconciled(src, old(tree), Elems(files), Elems(wantedFiles))
        && touched == SortedSeq(Touched(src, old(tree), Elems(files), Elems(wantedFiles)))
      ensures !WritesThroughLink(src, old(tree), Elems(files)) && !ok ==>
        && SoFar(src, old(tree), Elems(files), tree)
        && !WritesThroughLink(src, tree, Elems(files)) && !Copyable(src, tree, Elems(files))
      ensures ok ==> (Mirrors(src, tree, Elems(files)) <==> !WritesThroughLink(src, old(tree), Elems(files)))
    {
      var wanted: set<string> := {};
      var i := 0;
      while i < |wantedFiles|
        invariant 0 <= i <= |wantedFiles| && wanted == Elems(wantedFiles[..i]) && tree == old(tree)
      {
        ElemsTake(wantedFiles, i);
        wanted := wanted + {wantedFiles[i]};
        i := i + 1;
      }
      assert wantedFiles[..i] == wantedFiles;
      ghost var t0, fs := tree, Elems(files);
      var removed := RemoveStaleCachePaths(wanted);
      AfterStaleIsClean(t0, wanted);
      StaleKeepsQuestions(src, t0, wanted, fs);
      var copied;
      ok, copied := CopyFiles(src, files, wanted);
      if !ok {
        if !WritesThroughLink(src, t0, fs) {
          StaysBlocked(src, t0, wanted, fs, tree);
        }
        return false, [];
      }
      ghost var t2 := tree;
      PrunedKeepsLeaves(t2);
      RemoveEmptyCacheDirs();
      touched := SortedUniqueStrings(removed + copied);
      if WritesThroughLink(src, t0, fs) {
        LinkRemains(src, t0, wanted, fs, t2);
      } else {
        Finished(src, t0, wanted, fs, t2, removed, copied, touched);
      }
    }
  }
}
