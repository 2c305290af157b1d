/** What the cached worktree must look like after a reconcile, stated without its steps, and the
    three stages that get there. */
module CacheSpec {
  import opened FileTree

  /** What `snapshotFiles` guarantees about the paths it hands to a reconcile: they are not directories
      of the source tree and git never lists its own directory. */
  ghost predicate Snapshot(src: Tree, wanted: set<string>) {
    && WellFormed(src)
    && forall w :: w in wanted ==> w != "" && !InGit(w) && (w in src ==> !src[w].Dir?)
  }

  ghost function AllAncestors(s: set<string>): set<string> {
    set f, a | f in s && a in Ancestors(f) :: a
  }

  /** Wanted entries that are not to be copied and that no wanted directory hides. */
  ghost function Kept(t: Tree, files: set<string>, wanted: set<string>): set<string> {
    set p | p in t && p in wanted && p !in files && !t[p].Dir? && Ancestors(p) !! wanted
  }

  /** The leaves of the result: the copied files as in the source, the kept entries as they were. */
  ghost function KeptPart(src: Tree, t: Tree, files: set<string>, wanted: set<string>): Tree
    requires files <= src.Keys
  {
    map p | p in files + Kept(t, files, wanted) :: if p in files then src[p] else t[p]
  }

  /** The tree with exactly these leaves and the directories they need. */
  ghost function Grow(leaves: Tree): Tree {
    map p | p in leaves.Keys + AllAncestors(leaves.Keys) :: if p in leaves then leaves[p] else Dir
  }

  /** The reconciled tree: `.git` as it was and, beside it, those leaves with the directories they need. */
  ghost function Reconciled(src: Tree, t: Tree, files: set<string>, wanted: set<string>): Tree
    requires files <= src.Keys
  {
    GitPart(t) + Grow(KeptPart(src, t, files, wanted))
  }

  /** Wiping the worktree and copying every file. */
  ghost function Scratch(src: Tree, wanted: set<string>): Tree
    requires wanted <= src.Keys
  {
    Grow(map p | p in wanted :: src[p])
  }

  ghost function GitPart(t: Tree): Tree {
    map p | p in t && InGit(p) :: t[p]
  }

  // ---- stage 1: stale paths ----

  ghost predicate StaleAt(t: Tree, wanted: set<string>, p: string) {
    p in t && !InGit(p) && (if t[p].Dir? then p in wanted else p !in wanted)
  }

  /** Not stale, and not inside a stale directory. */
  ghost predicate Survives(t: Tree, wanted: set<string>, p: string) {
    p in t && (InGit(p) || (Ancestors(p) !! wanted && !StaleAt(t, wanted, p)))
  }

  ghost function AfterStale(t: Tree, wanted: set<string>): Tree {
    map p | p in t && Survives(t, wanted, p) :: t[p]
  }

  /** Stale paths that no stale directory contains: the ones deleted by name. */
  ghost function StaleTops(t: Tree, wanted: set<string>): set<string> {
    set p | p in t && StaleAt(t, wanted, p) && Ancestors(p) !! wanted
  }

  // ---- stage 2: copying ----

  ghost function Overlay(t: Tree, src: Tree, s: set<string>): Tree
    requires s <= src.Keys
  {
    Lay(t, src, s, AllAncestors(s))
  }

  ghost function Lay(t: Tree, src: Tree, s: set<string>, dirs: set<string>): Tree
    requires s <= src.Keys
  {
    map p | p in t.Keys + s + dirs :: if p in s then src[p] else if p in t then t[p] else Dir
  }

  /** Equal as far as `snapshotPathMatches` looks: it ignores the modification time and then copies it. */
  predicate Same(a: Node, b: Node) {
    match a
    case File(data, perm, _) => b.File? && b.data == data && b.perm == perm
    case Link(target) => b.Link? && b.target == target
    case Dir => false
  }

  ghost predicate Matches(src: Tree, t: Tree, f: string) {
    f in src && f in t && Same(src[f], t[f])
  }

  // ---- stage 3: empty directories ----

  ghost function Pruned(t: Tree): Tree {
    map p | p in t && (InGit(p) || !t[p].Dir? || HasLeaf(t, p)) :: t[p]
  }

  // ---- the stages together ----

  /** Outside `.git` the leaves are wanted, and no directory is wanted or lies at or below a wanted path. */
  ghost predicate Clean(t: Tree, wanted: set<string>) {
    && WellFormed(t)
    && forall p :: p in t && !InGit(p) ==> Ancestors(p) !! wanted && (t[p].Dir? <==> p !in wanted)
  }

  lemma AfterStaleIsClean(t: Tree, wanted: set<string>)
    requires WellFormed(t)
    ensures Clean(AfterStale(t, wanted), wanted)
    ensures GitPart(AfterStale(t, wanted)) == GitPart(t)
  {
    var u := AfterStale(t, wanted);
    forall d, p | p in u && Under(d, p) ensures d in u && u[d].Dir? {
      AncestorsOutsideGit(p);
      AncestorsClosed(p);
      assert d in Ancestors(p);
    }
  }

  /** No ancestor of a snapshot path is in `.git`, wanted, or a leaf of a clean tree. */
  lemma AncestorsOfFiles(t: Tree, src: Tree, wanted: set<string>, s: set<string>)
    requires Clean(t, wanted) && Snapshot(src, wanted) && s <= src.Keys && s <= wanted
    ensures forall a :: a in AllAncestors(s) ==> !InGit(a) && a !in wanted && (a in t ==> t[a].Dir?)
  {
    forall a | a in AllAncestors(s) ensures !InGit(a) && a !in wanted && (a in t ==> t[a].Dir?) {
      var f :| f in s && a in Ancestors(f);
      AncestorsOutsideGit(f);
      assert Under(a, f);
    }
  }

  lemma OverlayIsClean(t: Tree, src: Tree, wanted: set<string>, s: set<string>)
    requires Clean(t, wanted) && Snapshot(src, wanted) && s <= src.Keys && s <= wanted
    ensures Clean(Overlay(t, src, s), wanted)
    ensures GitPart(Overlay(t, src, s)) == GitPart(t)
  {
    var u := Overlay(t, src, s);
    AncestorsOfFiles(t, src, wanted, s);
    forall d, p | p in u && Under(d, p) ensures d in u && u[d].Dir? {
      AncestorsClosed(p);
      assert d in Ancestors(p);
      AncestorsOutsideGit(p);
      if p in AllAncestors(s) {
        var f :| f in s && p in Ancestors(f);
        AncestorsClosed(f);
        assert d in AllAncestors(s);
      } else if p in s {
        assert d in AllAncestors(s);
      }
    }
    forall p | p in u && !InGit(p) ensures Ancestors(p) !! wanted {
      forall a | a in Ancestors(p) ensures a !in wanted {
        if p in AllAncestors(s) {
          var f :| f in s && p in Ancestors(f);
          AncestorsClosed(f);
          assert a in AllAncestors(s);
        } else if p in s {
          assert a in AllAncestors(s);
        }
      }
    }
  }

  ghost function CleanLeaves(t: Tree): set<string> {
    set p | p in t && !t[p].Dir? && !InGit(p)
  }

  /** Pruning a clean tree keeps `.git`, the leaves and exactly the directories above leaves. */
  lemma PrunedKeys(t: Tree, wanted: set<string>)
    requires Clean(t, wanted)
    ensures Pruned(t).Keys == GitPart(t).Keys + CleanLeaves(t) + AllAncestors(CleanLeaves(t))
    ensures forall p :: p in AllAncestors(CleanLeaves(t)) ==> p in t && t[p].Dir? && !InGit(p)
  {
    forall p | p in AllAncestors(CleanLeaves(t)) ensures p in Pruned(t) && t[p].Dir? && !InGit(p) {
      var q :| q in CleanLeaves(t) && p in Ancestors(q);
      AncestorsOutsideGit(q);
      assert Under(p, q);
    }
    forall p | p in Pruned(t) && !InGit(p) && t[p].Dir? ensures p in AllAncestors(CleanLeaves(t)) {
      var q :| q in t && !t[q].Dir? && Under(p, q);
      assert p in Ancestors(q);
      AncestorsOutsideGit(q);
    }
  }

  ghost function LeafPart(t: Tree): Tree {
    map p | p in CleanLeaves(t) :: t[p]
  }

  lemma PrunedIsGrown(t: Tree, wanted: set<string>)
    requires Clean(t, wanted)
    ensures Pruned(t) == GitPart(t) + Grow(LeafPart(t))
  {
    PrunedKeys(t, wanted);
    var l, g := LeafPart(t), GitPart(t);
    assert l.Keys == CleanLeaves(t);
    var r := g + Grow(l);
    assert Pruned(t).Keys == r.Keys;
    forall p | p in r ensures Pruned(t)[p] == r[p] {
      assert p in Grow(l) ==> p in l || p in AllAncestors(CleanLeaves(t));
    }
  }

  lemma LeavesOfStages(src: Tree, t: Tree, files: set<string>, wanted: set<string>)
    requires WellFormed(t) && Snapshot(src, wanted) && files <= wanted && files <= src.Keys
    ensures LeafPart(Overlay(AfterStale(t, wanted), src, files)) == KeptPart(src, t, files, wanted)
  {
    var t1 := AfterStale(t, wanted);
    AfterStaleIsClean(t, wanted);
    AncestorsOfFiles(t1, src, wanted, files);
    var u := Overlay(t1, src, files);
    forall p ensures p in CleanLeaves(u) <==> p in files + Kept(t, files, wanted) {
      assert p in CleanLeaves(u) && p !in files ==> p in t1;
      assert p in Kept(t, files, wanted) ==> Survives(t, wanted, p) && p in t1;
    }
    assert LeafPart(u).Keys == KeptPart(src, t, files, wanted).Keys;
  }

  lemma StagesReconcile(src: Tree, t: Tree, files: set<string>, wanted: set<string>)
    requires WellFormed(t) && Snapshot(src, wanted) && files <= wanted && files <= src.Keys
    ensures Pruned(Overlay(AfterStale(t, wanted), src, files)) == Reconciled(src, t, files, wanted)
  {
    var t1 := AfterStale(t, wanted);
    AfterStaleIsClean(t, wanted);
    var t2 := Overlay(t1, src, files);
    OverlayIsClean(t1, src, wanted, files);
    PrunedIsGrown(t2, wanted);
    LeavesOfStages(src, t, files, wanted);
  }

  lemma AllAncestorsStep(s: set<string>, f: string)
    ensures AllAncestors(s + {f}) == AllAncestors(s) + Ancestors(f)
  {
    forall a ensures a in AllAncestors(s + {f}) <==> a in AllAncestors(s) + Ancestors(f) {
      assert a in Ancestors(f) ==> f in s + {f};
    }
  }

  lemma LayOne(t: Tree, src: Tree, s: set<string>, dirs: set<string>, f: string, up: set<string>)
    requires s <= src.Keys && f in src
    requires forall a :: a in up ==> a !in s && a != f && (a in t ==> t[a].Dir?)
    ensures WithDirs(Lay(t, src, s, dirs), up)[f := src[f]] == Lay(t, src, s + {f}, dirs + up)
    ensures forall a :: a in up && a in Lay(t, src, s, dirs) ==> Lay(t, src, s, dirs)[a].Dir?
    ensures up <= Lay(t, src, s, dirs).Keys ==> WithDirs(Lay(t, src, s, dirs), up) == Lay(t, src, s, dirs)
  {
  }

  /** One copied path more: its parents are made, then it is written. */
  lemma OverlayStep(t: Tree, src: Tree, wanted: set<string>, s: set<string>, f: string)
    requires Clean(t, wanted) && Snapshot(src, wanted) && s <= src.Keys && s <= wanted
    requires f in src && f in wanted
    ensures var u := Overlay(t, src, s);
      && MkdirAll(u, f).Some?
      && MkdirAll(u, f).value[f := src[f]] == Overlay(t, src, s + {f})
      && (f in u ==> !u[f].Dir? && u[f := src[f]] == Overlay(t, src, s + {f}))
      && (f in u <==> f in t || f in s)
  {
    AncestorsOfFiles(t, src, wanted, s + {f});
    AllAncestorsStep(s, f);
    LayOne(t, src, s, AllAncestors(s), f, Ancestors(f));
    StepFacts(t, src, wanted, s, f);
  }

  lemma StepFacts(t: Tree, src: Tree, wanted: set<string>, s: set<string>, f: string)
    requires Clean(t, wanted) && Snapshot(src, wanted) && s <= src.Keys && s <= wanted
    requires f in src && f in wanted
    ensures var u := Overlay(t, src, s); f in u ==> !u[f].Dir? && Ancestors(f) <= u.Keys
    ensures f in Overlay(t, src, s) <==> f in t || f in s
  {
    AncestorsOfFiles(t, src, wanted, s);
    OverlayIsClean(t, src, wanted, s);
    var u := Overlay(t, src, s);
    if f in u {
      forall a | a in Ancestors(f) ensures a in u { assert Under(a, f); }
    }
  }

  /** A wanted file of the source survives the removal of stale paths unless a directory is in its place. */
  lemma WantedSurvives(src: Tree, t: Tree, wanted: set<string>, f: string)
    requires WellFormed(t) && Snapshot(src, wanted) && f in src && f in wanted
    ensures f in AfterStale(t, wanted) <==> f in t && !t[f].Dir?
  {
    forall a | a in Ancestors(f) ensures a !in wanted { assert Under(a, f); }
  }
}
