/** The depth-first walk that collects what an application depends on. */
module DependencyWalk {
  import opened FileTree
  import opened RepoPaths
  import opened Repository

  class Walk {
    const repo: Repo
    var files: set<string>
    var childApps: set<string>
    /** Kustomization files already entered. */
    var seen: set<string>

    /** The nodes reached so far in this walk, and what had been collected before it. */
    ghost var visited: set<string>
    ghost var baseFiles: set<string>
    ghost var baseApps: set<string>

    constructor (repo: Repo)
      ensures this.repo == repo && files == {} && childApps == {}
      ensures Valid() && visited == {} && baseFiles == {} && baseApps == {}
    {
      this.repo, files, childApps, seen := repo, {}, {}, {};
      visited, baseFiles, baseApps := {}, {}, {};
    }

    ghost predicate Valid()
      reads this
    {
      && (forall n :: IsOverlay(repo, n) ==> (n in visited <==> KustomizationOf(repo, n) in seen))
      && (forall f :: f in files <==> f in baseFiles || exists n :: n in visited && f in FilesOf(repo, n))
      && (forall a :: a in childApps <==> a in baseApps || exists n :: n in visited && a in AppsOf(repo, n))
    }

    /** A walk with a new, empty `seen`, adding to what is collected already. */
    method Restart()
      modifies this
      ensures Valid() && visited == {} && files == baseFiles == old(files) && childApps == baseApps == old(childApps)
    {
      seen, visited, baseFiles, baseApps := {}, {}, files, childApps;
    }

    method AddManifestDirectoryDependencies(n: string) returns (ok: bool)
      requires Valid() && IsPlainDirectory(repo, n)
      modifies this
      ensures ok <==> Listable(repo, n)
      ensures ok ==> Valid()
      ensures visited == old(visited) + (if ok then {n} else {}) && seen == old(seen)
      ensures baseFiles == old(baseFiles) && baseApps == old(baseApps)
    {
      ok := CollectManifests(n);
      if ok {
        visited := visited + {n};
      }
    }

    /** Walking the whole tree below a directory without a kustomization. */
    method CollectManifests(n: string) returns (ok: bool)
      requires n in repo && repo[n].Directory?
      modifies `files, `childApps
      ensures ok <==> Listable(repo, n)
      ensures ok ==> files == old(files) + Manifests(repo, n)
      ensures ok ==> childApps == old(childApps) + Applications(repo, Manifests(repo, n))
    {
      var rest := repo.Keys;
      ghost var found: set<string> := {};
      while rest != {}
        invariant rest <= repo.Keys && found == Manifests(repo, n) - rest
        invariant forall d :: d in repo.Keys - rest && AtOrUnder(n, d) && repo[d].Directory? ==> repo[d].listable
        invariant files == old(files) + found && childApps == old(childApps) + Applications(repo, found)
        decreases rest
      {
        var path :| path in rest;
        rest := rest - {path};
        if AtOrUnder(n, path) {
          if repo[path].Directory? {
            if !repo[path].listable {
              return false;
            }
          } else if IsManifestName(path) {
            ApplicationsStep(repo, found, path);
            found := found + {path};
            files := files + {path};
            if repo[path].application.Some? {
              childApps := childApps + {repo[path].application.value};
            }
          }
        }
      }
      return true;
    }

    method AddFile(n: string)
      requires Valid() && IsFile(repo, n)
      modifies this
      ensures Valid() && visited == old(visited) + {n} && seen == old(seen)
      ensures baseFiles == old(baseFiles) && baseApps == old(baseApps)
    {
      files := files + {n};
      if repo[n].application.Some? {
        childApps := childApps + {repo[n].application.value};
      }
      visited := visited + {n};
    }

    method Enter(n: string)
      requires Valid() && IsOverlay(repo, n)
      modifies this
      ensures Valid() && visited == old(visited) + {n} && seen == old(seen) + {KustomizationOf(repo, n)}
      ensures baseFiles == old(baseFiles) && baseApps == old(baseApps)
    {
      var k := KustomizationOf(repo, n);
      forall m | IsOverlay(repo, m) && KustomizationOf(repo, m) == k ensures m == n {
        KustomizationIsInjective(repo, m, n);
      }
      seen := seen + {k};
      files := files + {k};
      visited := visited + {n};
    }

    /** `addKustomizeDependencies`. On success everything newly visited is good, has its successors visited and is
        reachable; on failure something reachable is not good (or the path itself does not clean). */
    method AddKustomizeDependencies(rel: string) returns (ok: bool)
      requires Valid()
      modifies this
      ensures baseFiles == old(baseFiles) && baseApps == old(baseApps)
      ensures old(visited) <= visited && old(seen) <= seen
      ensures ok ==> Valid() && CleanRepoRel(rel).Some? && CleanRepoRel(rel).value in visited
      ensures ok ==> Explored(repo, CleanRepoRel(rel).value, old(visited), visited)
      ensures !ok && CleanRepoRel(rel).Some? ==>
        exists n :: Reachable(repo, CleanRepoRel(rel).value, n) && !Good(repo, n)
      decreases |repo.Keys - seen|, 0
    {
      var clean := CleanRepoRel(rel);
      if clean.None? {
        return false;
      }
      var n := clean.value;
      ReachableRefl(repo, n);
      if n !in repo {
        return false;
      }
      if repo[n].Regular? {
        AddFile(n);
        return true;
      }
      var kustomization := FindKustomizationFile(repo, n);
      if kustomization.None? {
        ok := AddManifestDirectoryDependencies(n);
        return;
      }
      if kustomization.value in seen {
        return true;
      }
      Enter(n);
      assert repo.Keys - seen < old(repo.Keys - seen);
      SmallerSet(repo.Keys - seen, old(repo.Keys - seen));
      if repo[kustomization.value].kustomization.None? {
        return false;
      }
      ok := AddReferences(n);
    }

    /** One reference of a kustomization that has been entered. */
    method FollowReference(n: string, ref: string) returns (ok: bool)
      requires Valid() && ref in Refs(repo, n) && !ShouldSkipKustomizeRef(ref)
      modifies this
      ensures baseFiles == old(baseFiles) && baseApps == old(baseApps)
      ensures old(visited) <= visited && old(seen) <= seen
      ensures ok ==> Valid() && Target(n, ref).Some? && Target(n, ref).value in visited
      ensures ok ==> Explored(repo, n, old(visited), visited)
      ensures !ok ==> Target(n, ref).None? || exists m :: Reachable(repo, n, m) && !Good(repo, m)
      decreases |repo.Keys - seen|, 1
    {
      var next := JoinRepoRel(n, ref);
      if next.None? {
        return false;
      }
      ok := AddKustomizeDependencies(next.value);
      if Target(n, ref).Some? {
        ghost var n' := Target(n, ref).value;
        assert Edge(repo, n, n');
        if !ok {
          ghost var m :| Reachable(repo, n', m) && !Good(repo, m);
          ReachableStep(repo, n, n', m);
        } else {
          ExploredFromParent(repo, n, n', old(visited), visited);
        }
      }
    }

    /** The loop over the references. */
    method AddReferences(n: string) returns (ok: bool)
      requires Valid() && IsOverlay(repo, n) && repo[KustomizationOf(repo, n)].kustomization.Some?
      modifies this
      ensures baseFiles == old(baseFiles) && baseApps == old(baseApps)
      ensures old(visited) <= visited && old(seen) <= seen
      ensures ok ==> Valid() && ClosedIn(repo, visited, n)
      ensures ok ==> Explored(repo, n, old(visited), visited)
      ensures !ok ==> exists m :: Reachable(repo, n, m) && !Good(repo, m)
      decreases |repo.Keys - seen|, 2
    {
      ReachableRefl(repo, n);
      var refs := repo[KustomizationOf(repo, n)].kustomization.value;
      assert refs == Refs(repo, n);
      var i := 0;
      while i < |refs|
        invariant 0 <= i <= |refs|
        invariant Valid() && baseFiles == old(baseFiles) && baseApps == old(baseApps)
        invariant old(visited) <= visited && old(seen) <= seen
        invariant Followed(n, refs[..i], visited)
        invariant Explored(repo, n, old(visited), visited)
      {
        ghost var before := visited;
        if !ShouldSkipKustomizeRef(refs[i]) {
          SmallerOrEqualSet(repo.Keys - seen, old(repo.Keys - seen));
          ok := FollowReference(n, refs[i]);
          if !ok {
            return false;
          }
          ExploredTransitive(repo, n, old(visited), before, visited);
        }
        FollowedStep(n, refs, i, before, visited);
        i := i + 1;
      }
      assert refs[..i] == refs;
      return true;
    }
  }

  ghost predicate Followed(n: string, refs: seq<string>, visited: set<string>) {
    forall ref :: ref in refs && !ShouldSkipKustomizeRef(ref) ==>
      Target(n, ref).Some? && Target(n, ref).value in visited
  }

  lemma FollowedStep(n: string, refs: seq<string>, i: nat, before: set<string>, after: set<string>)
    requires i < |refs| && Followed(n, refs[..i], before) && before <= after
    requires Followed(n, [refs[i]], after)
    ensures Followed(n, refs[..i + 1], after)
  {
    assert refs[i] in [refs[i]];
    assert refs[..i + 1] == refs[..i] + [refs[i]];
  }

  lemma SmallerOrEqualSet(a: set<string>, b: set<string>)
    requires a <= b
    ensures |a| <= |b|
  {
    assert b == a + (b - a);
  }

  lemma SmallerSet(a: set<string>, b: set<string>)
    requires a < b
    ensures |a| < |b|
  {
    assert b == a + (b - a);
  }
}
