/** Which package owns a git repository object, over any run of package reconciles, deletions and creations. */
module RepositoryOwner {
  import opened Options
  import opened PackagePriority

  const CUSTOM_PACKAGE := "CustomPackage"

  datatype OwnerRef = OwnerRef(kind: string, name: string)

  /** `content` names the package whose sources the repository specification points at. */
  datatype GitRepo = GitRepo(owners: seq<OwnerRef>, content: string)

  datatype State = State(pkgs: Store, repos: map<string, GitRepo>)

  /** The owner references are searched in order for a custom package. */
  function OwningPackage(owners: seq<OwnerRef>): Option<string> {
    if owners == [] then None
    else if owners[0].kind == CUSTOM_PACKAGE then Some(owners[0].name)
    else OwningPackage(owners[1..])
  }

  /** The first reference of that kind. */
  lemma {:induction false} OwningPackageIff(owners: seq<OwnerRef>, name: string)
    ensures OwningPackage(owners) == Some(name) <==>
      exists i :: 0 <= i < |owners| && owners[i] == OwnerRef("CustomPackage", name)
                  && forall j :: 0 <= j < i ==> owners[j].kind != "CustomPackage"
    ensures OwningPackage(owners).None? <==> forall i :: 0 <= i < |owners| ==> owners[i].kind != "CustomPackage"
  {
    if owners != [] && owners[0].kind != CUSTOM_PACKAGE {
      var rest := owners[1..];
      OwningPackageIff(rest, name);
      forall i | 0 <= i < |rest| ensures rest[i] == owners[i + 1] { }
      if i :| 0 <= i < |rest| && rest[i] == OwnerRef(CUSTOM_PACKAGE, name)
              && forall j :: 0 <= j < i ==> rest[j].kind != CUSTOM_PACKAGE {
        forall j | 0 <= j < i + 1 ensures owners[j].kind != CUSTOM_PACKAGE {
          assert j > 0 ==> rest[j - 1] == owners[j];
        }
        assert owners[i + 1] == OwnerRef(CUSTOM_PACKAGE, name);
      }
      forall i | 0 <= i < |owners| && owners[i] == OwnerRef(CUSTOM_PACKAGE, name)
                 && (forall j :: 0 <= j < i ==> owners[j].kind != CUSTOM_PACKAGE)
        ensures OwningPackage(owners) == Some(name)
      {
        assert i > 0 && rest[i - 1] == owners[i];
      }
    } else if owners != [] {
      assert owners[0] == OwnerRef(CUSTOM_PACKAGE, owners[0].name);
    }
  }

  function NotPackages(owners: seq<OwnerRef>): seq<OwnerRef> {
    if owners == [] then []
    else (if owners[0].kind != CUSTOM_PACKAGE then [owners[0]] else []) + NotPackages(owners[1..])
  }

  ghost predicate TakesOver(pkgs: Store, p: Package, repo: GitRepo) {
    var owner := OwningPackage(repo.owners);
    p.priority.None? || owner.None? || owner.value !in pkgs || pkgs[owner.value].priority.None?
    || p.priority.value > pkgs[owner.value].priority.value
  }

  /** The controller library either makes the package the owner or fails and changes nothing. That success leaves no
      reference to another package is a choice of this model: the library keeps at most one controller. */
  function Owned(repo: GitRepo, name: string): GitRepo {
    GitRepo([OwnerRef(CUSTOM_PACKAGE, name)] + NotPackages(repo.owners), name)
  }

  /** One package reconcile as far as it concerns one of its repositories. */
  ghost function AfterReconcile(st: State, name: string, repo: string, setsOwner: bool): State {
    if name !in st.pkgs || !MayReconcile(st.pkgs, name, st.pkgs[name]) then st
    else if repo in st.repos && !TakesOver(st.pkgs, st.pkgs[name], st.repos[repo]) then st
    else if !setsOwner then st
    else st.(repos := st.repos[repo := Owned(if repo in st.repos then st.repos[repo] else GitRepo([], ""), name)])
  }

  class Controller {
    const api: Api
    var repos: map<string, GitRepo>

    constructor (api: Api)
      ensures this.api == api && repos == map[]
    {
      this.api, repos := api, map[];
    }

    ghost function Now(): State
      reads this, api
    {
      State(api.pkgs, repos)
    }

    method ShouldTakeOverGitRepository(p: Package, existing: GitRepo) returns (r: bool)
      ensures r <==> TakesOver(api.pkgs, p, existing)
    {
      if p.priority.None? {
        return true;
      }
      var i := 0;
      while i < |existing.owners|
        invariant 0 <= i <= |existing.owners|
        invariant OwningPackage(existing.owners) == OwningPackage(existing.owners[i..])
      {
        var ref := existing.owners[i];
        if ref.kind == CUSTOM_PACKAGE {
          if ref.name !in api.pkgs {
            return true;
          }
          var owner := api.pkgs[ref.name];
          if owner.priority.None? {
            return true;
          }
          return p.priority.value > owner.priority.value;
        }
        assert existing.owners[i..][1..] == existing.owners[i + 1..];
        i := i + 1;
      }
      return true;
    }

    /** `reconcileCustomPackage` down to `reconcileArgoCDSourceFromLocal` (or `FromRemote`). */
    method ReconcileSource(name: string, repo: string, setsOwner: bool)
      modifies this
      ensures Now() == AfterReconcile(old(Now()), name, repo, setsOwner)
    {
      if name !in api.pkgs {
        return;
      }
      var p := api.pkgs[name];
      var may := api.ShouldReconcile(name, p);
      if !may {
        return;
      }
      var existing := GitRepo([], "");
      if repo in repos {
        existing := repos[repo];
        var take := ShouldTakeOverGitRepository(p, existing);
        if !take {
          return;
        }
      }
      if setsOwner {
        repos := repos[repo := Owned(existing, name)];
      }
    }
  }

  // ---- runs ----

  datatype Action =
    | Reconcile(name: string, repo: string, setsOwner: bool)
    | DeletePackage(name: string)
    | PutPackage(name: string, pkg: Package)

  ghost function Step(st: State, a: Action): State {
    match a
    case Reconcile(name, repo, setsOwner) => AfterReconcile(st, name, repo, setsOwner)
    case DeletePackage(name) => st.(pkgs := st.pkgs - {name})
    case PutPackage(name, pkg) => st.(pkgs := st.pkgs[name := pkg])
  }

  ghost function Run(st: State, actions: seq<Action>): State {
    if actions == [] then st else Step(Run(st, actions[..|actions| - 1]), actions[|actions| - 1])
  }

  /** Every package carries the priority fixed for its name. */
  ghost predicate Ranked(st: State, rank: string -> int) {
    forall n :: n in st.pkgs ==> st.pkgs[n].priority == Some(rank(n))
  }

  ghost predicate KeepsRanks(actions: seq<Action>, rank: string -> int) {
    forall i :: 0 <= i < |actions| && actions[i].PutPackage? ==> actions[i].pkg.priority == Some(rank(actions[i].name))
  }

  function OwnerOf(st: State, repo: string): Option<string> {
    if repo in st.repos then OwningPackage(st.repos[repo].owners) else None
  }

  /** The owner's sources are what the repository holds. */
  ghost predicate ContentIsOwners(st: State) {
    forall r :: r in st.repos && OwnerOf(st, r).Some? ==> st.repos[r].content == OwnerOf(st, r).value
  }

  /** The package may take a repository from the owner: it has no priority, the owner is gone or has none, or the
      package's is strictly higher. */
  predicate Displaces(pkgs: Store, name: string, owner: string) {
    name in pkgs ==>
      || pkgs[name].priority.None? || owner !in pkgs || pkgs[owner].priority.None?
      || pkgs[owner].priority.value < pkgs[name].priority.value
  }

  /** A reconcile makes a package the owner exactly when it exists and may act, the library sets it, and the repository
      has no owner or one that it displaces. Then the repository holds the package's content, keeps its references to
      other kinds, and nothing else changes; otherwise nothing changes at all. */
  lemma OwnerChangesIff(st: State, name: string, repo: string, setsOwner: bool)
    requires OwnerOf(st, repo) != Some(name)
    ensures var next := AfterReconcile(st, name, repo, setsOwner);
      && (OwnerOf(next, repo) == Some(name) <==>
          && name in st.pkgs && MayReconcile(st.pkgs, name, st.pkgs[name]) && setsOwner
          && (OwnerOf(st, repo).None? || Displaces(st.pkgs, name, OwnerOf(st, repo).value)))
      && (OwnerOf(next, repo) != Some(name) ==> next == st)
      && (OwnerOf(next, repo) == Some(name) ==>
          && next.pkgs == st.pkgs && next.repos.Keys == st.repos.Keys + {repo} && next.repos[repo].content == name
          && (forall r :: r in st.repos && r != repo ==> next.repos[r] == st.repos[r])
          && NotPackages(next.repos[repo].owners) ==
             if repo in st.repos then NotPackages(st.repos[repo].owners) else [])
  {
    if repo in st.repos {
      NotPackagesTwice(st.repos[repo].owners);
    }
  }

  lemma {:induction false} NotPackagesTwice(owners: seq<OwnerRef>)
    ensures NotPackages(NotPackages(owners)) == NotPackages(owners)
  {
    if owners != [] {
      NotPackagesTwice(owners[1..]);
      if owners[0].kind != CUSTOM_PACKAGE {
        assert NotPackages(owners)[1..] == NotPackages(owners[1..]);
      } else {
        assert NotPackages(owners) == NotPackages(owners[1..]);
      }
    }
  }

  lemma {:induction false} OthersAreKept(owners: seq<OwnerRef>)
    requires forall i :: 0 <= i < |owners| ==> owners[i].kind != CUSTOM_PACKAGE
    ensures NotPackages(owners) == owners
  {
    if owners != [] {
      OthersAreKept(owners[1..]);
      assert owners == [owners[0]] + owners[1..];
    }
  }

  lemma {:induction false} PackageIsDropped(before: seq<OwnerRef>, name: string, after: seq<OwnerRef>)
    ensures NotPackages(before + [OwnerRef(CUSTOM_PACKAGE, name)] + after) == NotPackages(before + after)
  {
    var longer, shorter := before + [OwnerRef(CUSTOM_PACKAGE, name)] + after, before + after;
    if before == [] {
      assert longer[1..] == after && shorter == after;
    } else {
      PackageIsDropped(before[1..], name, after);
      assert longer[1..] == before[1..] + [OwnerRef(CUSTOM_PACKAGE, name)] + after && longer[0] == before[0];
      assert shorter[1..] == before[1..] + after && shorter[0] == before[0];
    }
  }

  /** References to other kinds are exactly kept, in their order: a list with a package reference put in anywhere has
      the same ones, and a list without any is its own. */
  lemma OnlyPackagesAreDropped(before: seq<OwnerRef>, name: string, after: seq<OwnerRef>)
    ensures NotPackages(before + [OwnerRef(CUSTOM_PACKAGE, name)] + after) == NotPackages(before + after)
    ensures (forall i :: 0 <= i < |before| ==> before[i].kind != CUSTOM_PACKAGE) ==> NotPackages(before) == before
  {
    PackageIsDropped(before, name, after);
    if forall i :: 0 <= i < |before| ==> before[i].kind != CUSTOM_PACKAGE {
      OthersAreKept(before);
    }
  }

  /** So a reconcile lowers the rank of the owner if and only if the owner has been deleted and a package of lower
      rank that may act is set in its place. */
  lemma OwnerRankFallsIff(st: State, rank: string -> int, name: string, repo: string, setsOwner: bool)
    requires Ranked(st, rank) && OwnerOf(st, repo).Some? && OwnerOf(st, repo).value != name
    ensures var o, o' := OwnerOf(st, repo).value, OwnerOf(AfterReconcile(st, name, repo, setsOwner), repo);
      && o'.Some?
      && (rank(o'.value) < rank(o) <==>
          && o !in st.pkgs && rank(name) < rank(o)
          && name in st.pkgs && MayReconcile(st.pkgs, name, st.pkgs[name]) && setsOwner)
  {
    OwnerChangesIff(st, name, repo, setsOwner);
  }

  lemma StepKeepsRank(st: State, a: Action, rank: string -> int)
    requires Ranked(st, rank) && KeepsRanks([a], rank)
    ensures Ranked(Step(st, a), rank)
    ensures ContentIsOwners(st) ==> ContentIsOwners(Step(st, a))
  {
    assert [a][0] == a;
  }

  lemma {:induction false} RunKeepsRank(st: State, actions: seq<Action>, rank: string -> int)
    requires Ranked(st, rank) && KeepsRanks(actions, rank) && ContentIsOwners(st)
    ensures Ranked(Run(st, actions), rank) && ContentIsOwners(Run(st, actions))
  {
    if actions != [] {
      var n := |actions| - 1;
      RunKeepsRank(st, actions[..n], rank);
      StepKeepsRank(Run(st, actions[..n]), actions[n], rank);
    }
  }

  /** Step `k` of the run reconciles a package that exists and may act, and the library sets it on the repository. */
  ghost predicate Claims(st: State, actions: seq<Action>, k: nat, repo: string)
    requires k < |actions|
  {
    var now, a := Run(st, actions[..k]), actions[k];
    && a.Reconcile? && a.repo == repo && a.setsOwner
    && a.name in now.pkgs && MayReconcile(now.pkgs, a.name, now.pkgs[a.name])
  }

  /** From no repositories, a repository exists after a run exactly when some package has claimed it, and then it has
      an owner and holds that owner's content. */
  lemma {:induction false} ExistsIffClaimed(pkgs: Store, actions: seq<Action>, repo: string)
    ensures var end := Run(State(pkgs, map[]), actions);
      && (repo in end.repos <==> exists k :: 0 <= k < |actions| && Claims(State(pkgs, map[]), actions, k, repo))
      && (repo in end.repos ==> OwnerOf(end, repo) == Some(end.repos[repo].content))
  {
    var st := State(pkgs, map[]);
    if actions != [] {
      var n := |actions| - 1;
      var front := actions[..n];
      ExistsIffClaimed(pkgs, front, repo);
      forall k | 0 <= k < n ensures Claims(st, front, k, repo) <==> Claims(st, actions, k, repo) {
        assert front[..k] == actions[..k];
      }
      assert repo in Run(st, actions).repos <==> repo in Run(st, front).repos || Claims(st, actions, n, repo);
    }
  }

  /** No step of the run deletes the package that owns the repository at that moment. */
  ghost predicate OwnerStays(st: State, actions: seq<Action>, repo: string) {
    forall k :: 0 <= k < |actions| && actions[k].DeletePackage? ==>
      OwnerOf(Run(st, actions[..k]), repo) != Some(actions[k].name)
  }

  lemma OwnerStep(st: State, a: Action, rank: string -> int, repo: string)
    requires Ranked(st, rank) && KeepsRanks([a], rank)
    requires OwnerOf(st, repo).Some? && OwnerOf(st, repo).value in st.pkgs
    requires a.DeletePackage? ==> OwnerOf(st, repo) != Some(a.name)
    ensures var next := Step(st, a);
      && OwnerOf(next, repo).Some? && OwnerOf(next, repo).value in next.pkgs
      && (OwnerOf(next, repo) != OwnerOf(st, repo) ==> rank(OwnerOf(next, repo).value) > rank(OwnerOf(st, repo).value))
  {
  }

  /** Over any run in which owners are not deleted while they own it, a repository passes only to packages of
      strictly higher rank: the owner's rank never falls, and rises with every change of owner. */
  lemma {:induction false} OwnerRankNeverFalls(st: State, actions: seq<Action>, rank: string -> int, repo: string)
    requires Ranked(st, rank) && KeepsRanks(actions, rank) && ContentIsOwners(st)
    requires OwnerOf(st, repo).Some? && OwnerOf(st, repo).value in st.pkgs
    requires OwnerStays(st, actions, repo)
    ensures var end := Run(st, actions);
      && OwnerOf(end, repo).Some? && OwnerOf(end, repo).value in end.pkgs
      && rank(OwnerOf(end, repo).value) >= rank(OwnerOf(st, repo).value)
      && (OwnerOf(end, repo) != OwnerOf(st, repo) ==> rank(OwnerOf(end, repo).value) > rank(OwnerOf(st, repo).value))
  {
    if actions != [] {
      var n := |actions| - 1;
      var front := actions[..n];
      forall k | 0 <= k < n ensures front[..k] == actions[..k] {}
      OwnerRankNeverFalls(st, front, rank, repo);
      RunKeepsRank(st, front, rank);
      OwnerStep(Run(st, front), actions[n], rank, repo);
    }
  }

  /** So where nothing is deleted the owner's rank never falls. */
  lemma NothingDeletedNothingFalls(st: State, actions: seq<Action>, rank: string -> int, repo: string)
    requires Ranked(st, rank) && KeepsRanks(actions, rank)
    requires repo in st.repos && OwnerOf(st, repo) == Some(st.repos[repo].content) && st.repos[repo].content in st.pkgs
    requires forall r :: r in st.repos && OwnerOf(st, r).Some? ==> st.repos[r].content == OwnerOf(st, r).value
    requires forall k :: 0 <= k < |actions| ==> !actions[k].DeletePackage?
    ensures var end := Run(st, actions);
      repo in end.repos && OwnerOf(end, repo) == Some(end.repos[repo].content)
      && rank(end.repos[repo].content) >= rank(st.repos[repo].content)
  {
    OwnerRankNeverFalls(st, actions, rank, repo);
    RunKeepsRank(st, actions, rank);
  }

  /** Once the owner is deleted, a package of lower rank may take the repository. */
  lemma DeletedOwnerMayBeReplacedFromBelow()
    ensures exists st, actions, rank, repo ::
      Ranked(st, rank) && KeepsRanks(actions, rank) && OwnerOf(st, repo).Some? && OwnerOf(st, repo).value in st.pkgs
      && OwnerOf(Run(st, actions), repo).Some?
      && rank(OwnerOf(Run(st, actions), repo).value) < rank(OwnerOf(st, repo).value)
  {
    var rank := (n: string) => if n == "high" then 2 else 1;
    var pkgs: Store := map["high" := Package("a", Some(2), ""), "low" := Package("b", Some(1), "")];
    var st := State(pkgs, map["r" := GitRepo([OwnerRef(CUSTOM_PACKAGE, "high")], "high")]);
    var gone, take := DeletePackage("high"), Reconcile("low", "r", true);
    var actions := [gone, take];
    assert actions[..1] == [gone] && [gone][..0] == [];
    assert Run(st, []) == st;
    assert Run(st, [gone]) == Step(st, gone);
    var mid := Step(st, gone);
    assert Run(st, actions) == Step(mid, take);
    assert mid.pkgs == map["low" := Package("b", Some(1), "")];
    assert MayReconcile(mid.pkgs, "low", mid.pkgs["low"]);
    assert OwnerOf(Run(st, actions), "r") == Some("low");
    assert rank("low") < rank("high");
  }
}
