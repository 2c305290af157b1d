/** What a reconcile promises: it equals wiping and copying, it reports what it changed, and
    doing it again does nothing. */
module CacheTheorems {
  import opened FileTree
  import opened CacheSpec
  import opened SnapshotCache

  /** Reconciling every wanted path gives what wiping the worktree and copying would give: of the old
      worktree only `.git` matters. */
  lemma IncrementalIsFromScratch(src: Tree, t: Tree, wanted: set<string>)
    requires wanted <= src.Keys
    ensures Reconciled(src, t, wanted, wanted) == GitPart(t) + Scratch(src, wanted)
  {
    assert KeptPart(src, t, wanted, wanted) == map p | p in wanted :: src[p];
  }

  lemma ReconciledIsClean(src: Tree, t: Tree, files: set<string>, wanted: set<string>)
    requires WellFormed(t) && Snapshot(src, wanted) && files <= wanted && files <= src.Keys
    ensures Clean(Reconciled(src, t, files, wanted), wanted)
    ensures CleanLeaves(Reconciled(src, t, files, wanted)) == files + Kept(t, files, wanted)
    ensures GitPart(Reconciled(src, t, files, wanted)) == GitPart(t)
  {
    var t1 := AfterStale(t, wanted);
    AfterStaleIsClean(t, wanted);
    var t2 := Overlay(t1, src, files);
    OverlayIsClean(t1, src, wanted, files);
    StagesReconcile(src, t, files, wanted);
    PrunedKeepsLeaves(t2);
    LeavesOfStages(src, t, files, wanted);
    assert CleanLeaves(Pruned(t2)) == CleanLeaves(t2);
    assert LeafPart(t2).Keys == CleanLeaves(t2);
  }

  lemma ReconciledLeaf(src: Tree, t: Tree, files: set<string>, wanted: set<string>, p: string)
    requires Snapshot(src, wanted) && files <= wanted && files <= src.Keys
    requires p in files + Kept(t, files, wanted)
    ensures p in Reconciled(src, t, files, wanted)
    ensures Reconciled(src, t, files, wanted)[p] == if p in files then src[p] else t[p]
  {
    assert p in KeptPart(src, t, files, wanted);
    assert p in wanted;
  }

  /** The result told path by path. At or below `.git` everything is as it was. Elsewhere a listed path is as in the
      source, another wanted path is the file or link it was, what is neither wanted nor above a wanted path is gone,
      and every directory has a wanted path below it. */
  lemma ReconciledTreeIs(src: Tree, t: Tree, files: set<string>, wanted: set<string>, p: string)
    requires WellFormed(t) && Snapshot(src, wanted) && files <= wanted && files <= src.Keys
    ensures var r := Reconciled(src, t, files, wanted);
      && (AtOrUnder(".git", p) ==> (p in r <==> p in t) && (p in t ==> r[p] == t[p]))
      && (p in files ==> p in r && r[p] == src[p])
      && (p in wanted - files && p in src ==> (p in r <==> p in t && !t[p].Dir?) && (p in r ==> r[p] == t[p]))
      && (!AtOrUnder(".git", p) && p in r && p !in wanted ==>
          r[p] == Dir && exists q :: q in wanted && q in r && Under(p, q))
  {
    var r := Reconciled(src, t, files, wanted);
    InGitIff(p);
    UnderIff(".git", p);
    ReconciledIsClean(src, t, files, wanted);
    assert InGit(p) ==> (p in t <==> p in GitPart(t)) && (p in r <==> p in GitPart(r));
    assert p in GitPart(t) ==> GitPart(t)[p] == t[p] && GitPart(r)[p] == r[p];
    if p in files {
      ReconciledLeaf(src, t, files, wanted, p);
    } else if p in wanted && p in src {
      KeptIff(src, t, files, wanted, p);
      if p in Kept(t, files, wanted) { ReconciledLeaf(src, t, files, wanted, p); }
    } else if !InGit(p) && p in r && p !in wanted {
      var q :| q in KeptPart(src, t, files, wanted) && p in Ancestors(q);
      ReconciledLeaf(src, t, files, wanted, q);
    }
  }

  /** A wanted path of the source that is not to be copied is kept exactly where the cache has a file or link. */
  lemma KeptIff(src: Tree, t: Tree, files: set<string>, wanted: set<string>, p: string)
    requires Snapshot(src, wanted) && p in wanted - files && p in src
    ensures p in Kept(t, files, wanted) <==> p in t && !t[p].Dir?
  {
    forall a | a in Ancestors(p) ensures a !in wanted { assert Under(a, p); }
  }

  lemma CleanHasNothingStale(t: Tree, wanted: set<string>)
    requires Clean(t, wanted)
    ensures AfterStale(t, wanted) == t && StaleTops(t, wanted) == {}
  {
  }

  /** A second reconcile changes nothing and reports nothing. */
  lemma SecondReconcileIsIdle(src: Tree, t: Tree, files: set<string>, wanted: set<string>)
    requires WellFormed(t) && Snapshot(src, wanted) && files <= wanted && files <= src.Keys
    ensures var r := Reconciled(src, t, files, wanted);
      Reconciled(src, r, files, wanted) == r && Touched(src, r, files, wanted) == {}
  {
    var r := Reconciled(src, t, files, wanted);
    ReconciledIsClean(src, t, files, wanted);
    SameKept(src, t, files, wanted);
    CleanHasNothingStale(r, wanted);
    forall f | f in files ensures Matches(src, r, f) {
      ReconciledLeaf(src, t, files, wanted, f);
    }
  }

  lemma KeptAmongLeaves(t: Tree, files: set<string>, wanted: set<string>)
    requires forall w :: w in wanted ==> !InGit(w)
    ensures Kept(t, files, wanted) == set p | p in CleanLeaves(t) && p in wanted - files && Ancestors(p) !! wanted
  {
  }

  lemma SameKeptPaths(src: Tree, t: Tree, files: set<string>, wanted: set<string>)
    requires WellFormed(t) && Snapshot(src, wanted) && files <= wanted && files <= src.Keys
    ensures Kept(Reconciled(src, t, files, wanted), files, wanted) == Kept(t, files, wanted)
  {
    ReconciledIsClean(src, t, files, wanted);
    KeptAmongLeaves(t, files, wanted);
    KeptAmongLeaves(Reconciled(src, t, files, wanted), files, wanted);
  }

  lemma SameKept(src: Tree, t: Tree, files: set<string>, wanted: set<string>)
    requires WellFormed(t) && Snapshot(src, wanted) && files <= wanted && files <= src.Keys
    ensures KeptPart(src, Reconciled(src, t, files, wanted), files, wanted) == KeptPart(src, t, files, wanted)
  {
    SameKeptPaths(src, t, files, wanted);
    forall p | p in Kept(t, files, wanted) { ReconciledLeaf(src, t, files, wanted, p); }
  }

  /** Above a path with a wanted ancestor there is a topmost wanted one. */
  lemma {:induction false} TopmostWanted(wanted: set<string>, p: string) returns (a: string)
    requires !(Ancestors(p) !! wanted)
    ensures a in Ancestors(p) && a in wanted && Ancestors(a) !! wanted
    decreases |p|
  {
    a :| a in Ancestors(p) && a in wanted;
    if !(Ancestors(a) !! wanted) {
      AncestorsClosed(p);
      a := TopmostWanted(wanted, a);
    }
  }

  ghost predicate LeafChanged(a: Tree, b: Tree, p: string) {
    var la, lb := p in a && !a[p].Dir?, p in b && !b[p].Dir?;
    la != lb || (la && lb && !Same(a[p], b[p]))
  }

  /** Every file that appeared, disappeared or changed is reported, or something above it is. */
  lemma TouchedCoversChanges(src: Tree, t: Tree, files: set<string>, wanted: set<string>, p: string)
    requires WellFormed(t) && Snapshot(src, wanted) && files <= wanted && files <= src.Keys
    requires LeafChanged(t, Reconciled(src, t, files, wanted), p)
    ensures !InGit(p) && exists q :: q in Touched(src, t, files, wanted) && AtOrUnder(q, p)
  {
    var r := Reconciled(src, t, files, wanted);
    ReconciledIsClean(src, t, files, wanted);
    assert !InGit(p) by {
      assert InGit(p) ==> (p in t <==> p in GitPart(t)) && (p in r <==> p in GitPart(r));
    }
    if p in files && !Matches(src, AfterStale(t, wanted), p) {
      assert AtOrUnder(p, p);
    } else if p in files {
      ReconciledLeaf(src, t, files, wanted, p);
    } else if p in Kept(t, files, wanted) {
      ReconciledLeaf(src, t, files, wanted, p);
    } else {
      assert p !in CleanLeaves(r);
      AncestorsOutsideGit(p);
      if Ancestors(p) !! wanted {
        assert p in StaleTops(t, wanted) && AtOrUnder(p, p);
      } else {
        var a := TopmostWanted(wanted, p);
        assert Under(a, p);
        assert a in StaleTops(t, wanted) && AtOrUnder(a, p);
      }
    }
  }

  /** And nothing is reported that did not change. */
  lemma OnlyChangesAreTouched(src: Tree, t: Tree, files: set<string>, wanted: set<string>, q: string)
    requires WellFormed(t) && Snapshot(src, wanted) && files <= wanted && files <= src.Keys
    requires q in Touched(src, t, files, wanted)
    ensures var r := Reconciled(src, t, files, wanted);
      (q in t && t[q].Dir? && (q in r ==> !r[q].Dir?)) || LeafChanged(t, r, q)
  {
    var r := Reconciled(src, t, files, wanted);
    ReconciledIsClean(src, t, files, wanted);
    if q in files {
      ReconciledLeaf(src, t, files, wanted, q);
      WantedSurvives(src, t, wanted, q);
    }
  }

  ghost predicate Unedited(srcs: seq<Tree>, f: string) {
    srcs != [] && f in srcs[0] && forall k :: 0 <= k < |srcs| ==> f in srcs[k] && srcs[k][f] == srcs[0][f]
  }

  /** Each reconcile has started from what the stopped one before it left, or from the first worktree again. */
  ghost predicate Retried(srcs: seq<Tree>, ts: seq<Tree>, files: set<string>) {
    |ts| == |srcs| && forall k :: 0 <= k < |ts| - 1 ==> SoFar(srcs[k], ts[k], files, ts[k + 1]) || ts[k + 1] == ts[0]
  }

  /** A path that stops a reconcile stays as it is and stops every later one, whatever else is edited, as long as it is
      not edited itself; that git puts the first worktree back in between changes nothing. */
  lemma {:induction false} BlockedForEver(srcs: seq<Tree>, ts: seq<Tree>, files: set<string>, f: string, i: nat)
    requires Unedited(srcs, f) && Retried(srcs, ts, files) && f in files && i < |ts|
    requires f in ts[0] && !ts[0][f].Dir? && Blocked(srcs[0], ts[0], f)
    ensures f in ts[i] && ts[i][f] == ts[0][f] && Blocked(srcs[i], ts[i], f) && !Copyable(srcs[i], ts[i], files)
  {
    if i > 0 {
      BlockedForEver(srcs, ts, files, f, i - 1);
      assert SoFar(srcs[i - 1], ts[i - 1], files, ts[i]) || ts[i] == ts[0];
    }
  }

  /** A file in place of a symbolic link is copied through the link; a link in place of a file stops this reconcile and
      all that follow. */
  lemma LinkAndFileDoNotSwap(srcs: seq<Tree>, ts: seq<Tree>, files: set<string>, f: string)
    requires Unedited(srcs, f) && Retried(srcs, ts, files) && f in files && f in ts[0]
    ensures srcs[0][f].File? && ts[0][f].Link? ==> WritesThroughLink(srcs[0], ts[0], files)
    ensures srcs[0][f].Link? && ts[0][f].File? ==>
      forall i :: 0 <= i < |ts| ==> !Copyable(srcs[i], ts[i], files) && f in ts[i] && ts[i][f] == ts[0][f]
  {
    if srcs[0][f].Link? && ts[0][f].File? {
      forall i | 0 <= i < |ts| { BlockedForEver(srcs, ts, files, f, i); }
    }
  }

  /** A file that its owner may not write can be brought over once; after its next edit every reconcile is blocked. */
  lemma EditOfReadOnlyFileBlocks(src: Tree, t: Tree, files: set<string>, wanted: set<string>, edited: Tree, f: string)
    requires WellFormed(t) && Snapshot(src, wanted) && files <= wanted && files <= src.Keys
    requires f in files && src[f].File? && !OwnerWrites(src[f].perm)
    requires f in edited && edited[f].File? && !Same(edited[f], src[f])
    ensures Blocked(edited, Reconciled(src, t, files, wanted), f)
  {
    ReconciledLeaf(src, t, files, wanted, f);
  }
}
