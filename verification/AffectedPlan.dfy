/** From changed files to the applications that have to be refreshed. */
module AffectedPlan {
  import opened Options
  import opened Text
  import opened RepoPaths
  import opened FileTree
  import opened Repository
  import opened DependencyWalk

  const ROOT_APPLICATION := "root-application"

  datatype App = App(name: string, automated: bool, status: string, sources: seq<string>)

  datatype Dependency = Dependency(automated: bool, status: string, exactFiles: set<string>, childApps: set<string>)

  type Index = map<string, Dependency>

  datatype Plan = Plan(
    affected: seq<string>, skipped: seq<string>, manual: seq<string>, unsynced: seq<string>, rootFirst: bool)

  // ---- what a source depends on ----

  ghost predicate SourceReaches(repo: Repo, source: string, n: string) {
    CleanRepoRel(source).Some? && Reachable(repo, CleanRepoRel(source).value, n)
  }

  ghost predicate SourceFile(repo: Repo, source: string, f: string) {
    exists n :: SourceReaches(repo, source, n) && f in FilesOf(repo, n)
  }

  ghost predicate SourceChild(repo: Repo, source: string, c: string) {
    exists n :: SourceReaches(repo, source, n) && c in AppsOf(repo, n)
  }

  /** Every path the source leads to exists, stays inside the repository and can be read. */
  ghost predicate Indexable(repo: Repo, source: string) {
    CleanRepoRel(source).Some? && forall n :: SourceReaches(repo, source, n) ==> Good(repo, n)
  }

  /** The walk has visited exactly what is reachable. */
  lemma WalkIsReachability(repo: Repo, start: string, visited: set<string>)
    requires Explored(repo, start, {}, visited) && start in visited
    ensures forall n :: n in visited <==> Reachable(repo, start, n)
    ensures forall n :: Reachable(repo, start, n) ==> Good(repo, n)
  {
    forall n | n in visited ensures ClosedIn(repo, visited, n) && Reachable(repo, start, n) {
      assert n in visited - {};
    }
    forall n | Reachable(repo, start, n) ensures n in visited && Good(repo, n) {
      var path :| PathBetween(repo, start, n, path);
      ClosedContainsPath(repo, visited, path, |path| - 1);
    }
  }

  predicate Blank(source: string) {
    TrimSpace(source) == ""
  }

  ghost predicate AppFile(repo: Repo, sources: seq<string>, f: string) {
    exists s :: s in sources && !Blank(s) && SourceFile(repo, s, f)
  }

  ghost predicate AppChild(repo: Repo, sources: seq<string>, c: string) {
    exists s :: s in sources && !Blank(s) && SourceChild(repo, s, c)
  }

  ghost predicate AppIndexable(repo: Repo, sources: seq<string>) {
    forall s :: s in sources && !Blank(s) ==> Indexable(repo, s)
  }

  ghost predicate Collected(repo: Repo, sources: seq<string>, files: set<string>, children: set<string>) {
    && (forall f :: f in files <==> AppFile(repo, sources, f))
    && (forall c :: c in children <==> AppChild(repo, sources, c))
  }

  lemma SkipBlank(repo: Repo, sources: seq<string>, s: string, files: set<string>, children: set<string>)
    requires Collected(repo, sources, files, children) && Blank(s)
    ensures Collected(repo, sources + [s], files, children)
  {
    forall f ensures AppFile(repo, sources + [s], f) <==> AppFile(repo, sources, f) {
      if AppFile(repo, sources, f) {
        var x :| x in sources && !Blank(x) && SourceFile(repo, x, f);
        assert x in sources + [s];
      }
    }
    forall c ensures AppChild(repo, sources + [s], c) <==> AppChild(repo, sources, c) {
      if AppChild(repo, sources, c) {
        var x :| x in sources && !Blank(x) && SourceChild(repo, x, c);
        assert x in sources + [s];
      }
    }
  }

  lemma AddSource(repo: Repo, sources: seq<string>, s: string, files: set<string>, children: set<string>,
                  files': set<string>, children': set<string>)
    requires Collected(repo, sources, files, children) && !Blank(s)
    requires forall f :: f in files' <==> f in files || SourceFile(repo, s, f)
    requires forall c :: c in children' <==> c in children || SourceChild(repo, s, c)
    ensures Collected(repo, sources + [s], files', children')
  {
    forall f ensures AppFile(repo, sources + [s], f) <==> f in files' {
      assert s in sources + [s];
      if AppFile(repo, sources, f) {
        var x :| x in sources && !Blank(x) && SourceFile(repo, x, f);
        assert x in sources + [s];
      }
    }
    forall c ensures AppChild(repo, sources + [s], c) <==> c in children' {
      assert s in sources + [s];
      if AppChild(repo, sources, c) {
        var x :| x in sources && !Blank(x) && SourceChild(repo, x, c);
        assert x in sources + [s];
      }
    }
  }

  /** One source path of an application, with its own empty `seen`. */
  method IndexSource(walk: Walk, source: string) returns (ok: bool)
    requires walk.Valid()
    modifies walk
    ensures ok <==> Indexable(walk.repo, source)
    ensures ok ==> walk.Valid()
    ensures ok ==> forall f :: f in walk.files <==> f in old(walk.files) || SourceFile(walk.repo, source, f)
    ensures ok ==> forall c :: c in walk.childApps <==> c in old(walk.childApps) || SourceChild(walk.repo, source, c)
  {
    walk.Restart();
    ok := walk.AddKustomizeDependencies(source);
    if ok {
      WalkIsReachability(walk.repo, CleanRepoRel(source).value, walk.visited);
    }
  }

  method IndexApp(repo: Repo, app: App) returns (r: Option<Dependency>)
    ensures r.Some? <==> AppIndexable(repo, app.sources)
    ensures r.Some? ==> r.value.automated == app.automated && r.value.status == app.status
    ensures r.Some? ==> Collected(repo, app.sources, r.value.exactFiles, r.value.childApps)
  {
    var walk := new Walk(repo);
    var i := 0;
    while i < |app.sources|
      invariant 0 <= i <= |app.sources| && walk.repo == repo && walk.Valid()
      invariant AppIndexable(repo, app.sources[..i])
      invariant Collected(repo, app.sources[..i], walk.files, walk.childApps)
    {
      var source := app.sources[i];
      assert app.sources[..i + 1] == app.sources[..i] + [source];
      if Blank(source) {
        SkipBlank(repo, app.sources[..i], source, walk.files, walk.childApps);
      } else {
        ghost var files, children := walk.files, walk.childApps;
        var ok := IndexSource(walk, source);
        if !ok {
          assert source in app.sources;
          return None;
        }
        AddSource(repo, app.sources[..i], source, files, children, walk.files, walk.childApps);
      }
      i := i + 1;
    }
    assert app.sources[..i] == app.sources;
    return Some(Dependency(app.automated, app.status, walk.files, walk.childApps));
  }

  // ---- what simple sources depend on ----

  lemma LeadsNowhere(repo: Repo, n: string)
    requires !IsOverlay(repo, n)
    ensures forall m :: Reachable(repo, n, m) <==> m == n
  {
    forall m { ReachableIff(repo, n, m); }
  }

  /** A source that is a file can be indexed and depends on that file and on the application it defines. */
  lemma FileSource(repo: Repo, f: string, item: Item)
    requires CleanRepoRel(f) == Some(f) && f in repo && repo[f] == item && item.Regular?
    ensures Indexable(repo, f)
    ensures (forall x :: SourceFile(repo, f, x) <==> x == f)
            && forall c :: SourceChild(repo, f, c) <==> item.application == Some(c)
  {
    LeadsNowhere(repo, f);
    assert SourceReaches(repo, f, f);
    forall c ensures c in AppsOf(repo, f) <==> item.application == Some(c) {
      assert f in FilesOf(repo, f);
    }
  }

  /** A source that is a directory without a kustomization can be indexed exactly when all directories in it can be
      listed, and depends on the manifests below it and on the applications they define. */
  lemma DirectorySource(repo: Repo, d: string)
    requires CleanRepoRel(d) == Some(d) && d in repo && repo[d].Directory? && FindKustomizationFile(repo, d).None?
    ensures Indexable(repo, d) <==> forall p :: p in repo && AtOrUnder(d, p) && repo[p].Directory? ==> repo[p].listable
    ensures forall x :: SourceFile(repo, d, x) <==>
      x in repo && Under(d, x) && repo[x].Regular? && IsManifestName(x)
    ensures forall c :: SourceChild(repo, d, c) <==>
      exists x :: x in repo && Under(d, x) && repo[x].Regular? && IsManifestName(x) && repo[x].application == Some(c)
  {
    LeadsNowhere(repo, d);
    assert SourceReaches(repo, d, d);
    forall c ensures c in AppsOf(repo, d) <==> exists x :: x in Manifests(repo, d) && repo[x].application == Some(c) {
      if x :| x in Manifests(repo, d) && repo[x].application == Some(c) {
        assert x in FilesOf(repo, d);
      }
    }
  }

  ghost predicate RefersTo(d: string, refs: seq<string>, x: string) {
    exists ref :: ref in refs && !ShouldSkipKustomizeRef(ref) && Target(d, ref) == Some(x)
  }

  /** Directory `d` has the kustomization file `k`, whose references all lead to files. */
  ghost predicate FlatOverlay(repo: Repo, d: string, k: string, refs: seq<string>) {
    && d in repo && repo[d].Directory? && FindKustomizationFile(repo, d) == Some(k)
    && k in repo && repo[k].Regular? && repo[k].kustomization == Some(refs)
    && forall ref :: ref in refs && !ShouldSkipKustomizeRef(ref) ==>
         Target(d, ref).Some? && IsFile(repo, Target(d, ref).value)
  }

  lemma OverlayReaches(repo: Repo, d: string, k: string, refs: seq<string>, x: string)
    requires FlatOverlay(repo, d, k, refs)
    ensures Reachable(repo, d, x) <==> x == d || RefersTo(d, refs, x)
    ensures RefersTo(d, refs, x) ==> IsFile(repo, x)
  {
    assert Refs(repo, d) == refs;
    forall b ensures Edge(repo, d, b) <==> RefersTo(d, refs, b) { }
    ReachableIff(repo, d, x);
    forall b | RefersTo(d, refs, b) { LeadsNowhere(repo, b); }
  }

  /** A source that is a directory whose kustomization refers to files can be indexed, and depends on the kustomization
      file, the files that its references lead to, and the applications these define. */
  lemma OverlaySource(repo: Repo, d: string, k: string, refs: seq<string>)
    requires CleanRepoRel(d) == Some(d) && FlatOverlay(repo, d, k, refs)
    ensures Indexable(repo, d)
    ensures forall x :: SourceFile(repo, d, x) <==> x == k || RefersTo(d, refs, x)
    ensures forall c :: SourceChild(repo, d, c) <==>
      exists x :: RefersTo(d, refs, x) && repo[x].application == Some(c)
  {
    forall x { OverlayReaches(repo, d, k, refs, x); }
    forall x ensures SourceReaches(repo, d, x) <==> x == d || RefersTo(d, refs, x) { }
    forall x ensures SourceFile(repo, d, x) <==> x == k || RefersTo(d, refs, x) {
      assert SourceReaches(repo, d, d);
      assert RefersTo(d, refs, x) ==> SourceReaches(repo, d, x) && x in FilesOf(repo, x);
    }
    forall c ensures SourceChild(repo, d, c) <==> exists x :: RefersTo(d, refs, x) && repo[x].application == Some(c) {
      if x :| RefersTo(d, refs, x) && repo[x].application == Some(c) {
        assert SourceReaches(repo, d, x) && c in AppsOf(repo, x);
      }
    }
  }

  /** A reference to what is not there, or out of the repository, stops the indexing of everything that leads to it. */
  lemma BrokenReferenceStops(repo: Repo, source: string, n: string, ref: string)
    requires SourceReaches(repo, source, n) && ref in Refs(repo, n) && !ShouldSkipKustomizeRef(ref)
    requires Target(n, ref).None? || Target(n, ref).value !in repo
    ensures !Indexable(repo, source)
  {
    if Target(n, ref).Some? {
      var m, start := Target(n, ref).value, CleanRepoRel(source).value;
      assert Edge(repo, n, m);
      var path :| PathBetween(repo, start, n, path);
      var longer := path + [m];
      forall i | 0 <= i < |longer| - 1 ensures Edge(repo, longer[i], longer[i + 1]) {
        if i < |path| - 1 { assert Edge(repo, path[i], path[i + 1]); }
      }
      assert PathBetween(repo, start, m, longer);
      assert SourceReaches(repo, source, m);
    }
  }

  // ---- the index ----

  /** The entry of a name describes the last application of the list with that name. */
  ghost predicate Describes(repo: Repo, app: App, dep: Dependency) {
    dep.automated == app.automated && dep.status == app.status
    && Collected(repo, app.sources, dep.exactFiles, dep.childApps)
  }

  function LastNamed(apps: seq<App>, name: string): Option<App> {
    if apps == [] then None
    else if apps[|apps| - 1].name == name then Some(apps[|apps| - 1])
    else LastNamed(apps[..|apps| - 1], name)
  }

  ghost predicate IsIndex(repo: Repo, apps: seq<App>, index: Index) {
    && (forall name :: name in index <==> name != "" && LastNamed(apps, name).Some?)
    && (forall name :: name in index ==> Describes(repo, LastNamed(apps, name).value, index[name]))
  }

  /** The last application of the list with the name. */
  lemma {:induction false} LastNamedIff(apps: seq<App>, name: string, app: App)
    ensures LastNamed(apps, name) == Some(app) <==>
      exists i :: 0 <= i < |apps| && apps[i] == app && app.name == name
                  && forall j :: i < j < |apps| ==> apps[j].name != name
  {
    if apps != [] && apps[|apps| - 1].name != name {
      var n := |apps| - 1;
      LastNamedIff(apps[..n], name, app);
      if LastNamed(apps, name) == Some(app) {
        var i :| 0 <= i < n && apps[..n][i] == app && app.name == name
                 && forall j :: i < j < n ==> apps[..n][j].name != name;
        assert apps[i] == app && forall j :: i < j < n ==> apps[j] == apps[..n][j];
      }
      forall i | 0 <= i < |apps| && apps[i] == app && app.name == name
                 && (forall j :: i < j < |apps| ==> apps[j].name != name)
        ensures LastNamed(apps, name) == Some(app)
      {
        assert i < n && apps[..n][i] == app;
      }
    } else if apps != [] {
      assert apps[|apps| - 1].name == name;
    }
  }

  lemma LastNamedAppend(apps: seq<App>, app: App, name: string)
    ensures LastNamed(apps + [app], name) == if app.name == name then Some(app) else LastNamed(apps, name)
  {
    assert (apps + [app])[..|apps + [app]| - 1] == apps;
  }

  lemma IndexAppend(repo: Repo, apps: seq<App>, app: App, index: Index, after: Index)
    requires IsIndex(repo, apps, index)
    requires app.name == "" ==> after == index
    requires app.name != "" ==> app.name in after && Describes(repo, app, after[app.name])
    requires app.name != "" ==> after == index[app.name := after[app.name]]
    ensures IsIndex(repo, apps + [app], after)
  {
    forall name { LastNamedAppend(apps, app, name); }
  }

  method BuildApplicationDependencyIndex(repo: Repo, apps: seq<App>) returns (r: Option<Index>)
    ensures r.Some? <==> forall i :: 0 <= i < |apps| && apps[i].name != "" ==> AppIndexable(repo, apps[i].sources)
    ensures r.Some? ==> IsIndex(repo, apps, r.value)
  {
    var index: Index := map[];
    var i := 0;
    while i < |apps|
      invariant 0 <= i <= |apps|
      invariant forall j :: 0 <= j < i && apps[j].name != "" ==> AppIndexable(repo, apps[j].sources)
      invariant IsIndex(repo, apps[..i], index)
    {
      assert apps[..i + 1] == apps[..i] + [apps[i]];
      ghost var before := index;
      if apps[i].name != "" {
        var dep := IndexApp(repo, apps[i]);
        if dep.None? {
          return None;
        }
        index := index[apps[i].name := dep.value];
      }
      IndexAppend(repo, apps[..i], apps[i], before, index);
      i := i + 1;
    }
    assert apps[..i] == apps;
    return Some(index);
  }

  // ---- the plan ----

  predicate RyzenOverlayPathAffectsRoot(file: string) {
    file == "packages/overlays/ryzen" || HasPrefix(file, "packages/overlays/ryzen/")
  }

  /** `parseApplicationName` on the file as it is in the worktree now. */
  function DefinedApp(repo: Repo, file: string): Option<string> {
    if IsFile(repo, file) then repo[file].application else None
  }

  ghost predicate Affects(repo: Repo, index: Index, file: string, name: string) {
    && name in index
    && (|| (RyzenOverlayPathAffectsRoot(file) && name == ROOT_APPLICATION)
        || DefinedApp(repo, file) == Some(name)
        || file in index[name].exactFiles
        || (DefinedApp(repo, file).Some? && DefinedApp(repo, file).value in index[name].childApps))
  }

  /** The changed paths in normal form; those outside the repository are dropped. */
  ghost function NormalizedSet(changed: seq<string>): set<string> {
    set f | f in changed && CleanRepoRel(f).Some? :: CleanRepoRel(f).value
  }

  method NormalizeChangedFiles(changed: seq<string>) returns (files: seq<string>)
    ensures files == SortedSeq(NormalizedSet(changed))
  {
    var seen: set<string> := {};
    var i := 0;
    while i < |changed|
      invariant 0 <= i <= |changed| && seen == NormalizedSet(changed[..i])
    {
      NormalizedStep(changed, i);
      var clean := CleanRepoRel(changed[i]);
      if clean.Some? {
        seen := seen + {clean.value};
      }
      i := i + 1;
    }
    assert changed[..i] == changed;
    files := SortedKeys(seen);
    SortedIsUnique(files, SortedSeq(NormalizedSet(changed)));
  }

  lemma NormalizedStep(changed: seq<string>, i: nat)
    requires i < |changed|
    ensures NormalizedSet(changed[..i + 1]) ==
            NormalizedSet(changed[..i])
            + if CleanRepoRel(changed[i]).Some? then {CleanRepoRel(changed[i]).value} else {}
  {
    assert changed[..i + 1] == changed[..i] + [changed[i]];
    assert changed[i] in changed[..i + 1];
    forall f | f in changed[..i] ensures f in changed[..i + 1] {}
  }

  ghost function AffectedBy(repo: Repo, index: Index, file: string): set<string> {
    set name | name in index && Affects(repo, index, file, name)
  }

  /** One changed file: which applications it adds. The index is gone through in any order. */
  method MatchFile(repo: Repo, index: Index, file: string) returns (hit: set<string>)
    ensures hit == AffectedBy(repo, index, file)
  {
    hit := {};
    if RyzenOverlayPathAffectsRoot(file) {
      if ROOT_APPLICATION in index {
        hit := hit + {ROOT_APPLICATION};
      }
    }
    var changedChildName := DefinedApp(repo, file);
    if changedChildName.Some? && changedChildName.value in index {
      hit := hit + {changedChildName.value};
    }
    ghost var direct := hit;
    var rest := index.Keys;
    while rest != {}
      invariant rest <= index.Keys && direct <= hit <= AffectedBy(repo, index, file)
      invariant forall name :: name in index.Keys - rest && Affects(repo, index, file, name) ==> name in hit
      decreases rest
    {
      var name :| name in rest;
      rest := rest - {name};
      var dep := index[name];
      if file in dep.exactFiles {
        hit := hit + {name};
      }
      if changedChildName.Some? {
        if changedChildName.value in dep.childApps {
          hit := hit + {name};
        }
      }
    }
  }

  ghost function AffectedByAll(repo: Repo, index: Index, files: seq<string>): set<string> {
    set f, name | f in files && name in index && Affects(repo, index, f, name) :: name
  }

  ghost function Unmatched(repo: Repo, index: Index, files: seq<string>): seq<string> {
    if files == [] then []
    else
      var last := files[|files| - 1];
      Unmatched(repo, index, files[..|files| - 1]) + if AffectedBy(repo, index, last) == {} then [last] else []
  }

  ghost predicate IsManual(index: Index, name: string) {
    name in index && !index[name].automated
  }

  ghost predicate IsUnsynced(index: Index, name: string) {
    name in index && index[name].status != "" && index[name].status != "Synced"
  }

  ghost predicate IsPlan(repo: Repo, index: Index, files: seq<string>, plan: Plan) {
    && plan.affected == SortedSeq(AffectedByAll(repo, index, files))
    && (forall n :: n in plan.affected ==> n in index)
    && plan.skipped == Unmatched(repo, index, files)
    && plan.rootFirst == (ROOT_APPLICATION in plan.affected)
    && plan.manual == SortedSeq(set n | n in plan.affected && IsManual(index, n))
    && plan.unsynced == SortedSeq(set n | n in plan.affected && IsUnsynced(index, n))
  }

  lemma AffectedStep(repo: Repo, index: Index, files: seq<string>, i: nat)
    requires i < |files|
    ensures AffectedByAll(repo, index, files[..i + 1]) ==
            AffectedByAll(repo, index, files[..i]) + AffectedBy(repo, index, files[i])
    ensures Unmatched(repo, index, files[..i + 1]) ==
            Unmatched(repo, index, files[..i]) + if AffectedBy(repo, index, files[i]) == {} then [files[i]] else []
  {
    assert files[..i + 1] == files[..i] + [files[i]];
    assert files[..i + 1][..i] == files[..i];
    assert files[i] in files[..i + 1];
    forall f | f in files[..i] ensures f in files[..i + 1] {}
  }

  method PlanFromIndex(repo: Repo, index: Index, files: seq<string>) returns (plan: Plan)
    ensures IsPlan(repo, index, files, plan)
  {
    var affected: set<string> := {};
    var skipped: seq<string> := [];
    var i := 0;
    while i < |files|
      invariant 0 <= i <= |files|
      invariant affected == AffectedByAll(repo, index, files[..i])
      invariant skipped == Unmatched(repo, index, files[..i])
    {
      AffectedStep(repo, index, files, i);
      var hit := MatchFile(repo, index, files[i]);
      affected := affected + hit;
      if hit == {} {
        skipped := skipped + [files[i]];
      }
      i := i + 1;
    }
    assert files[..i] == files;
    var names := SortedKeys(affected);
    assert forall n :: n in names <==> n in Elems(names);
    var manual, unsynced := Flags(index, names);
    plan := Plan(names, skipped, manual, unsynced, ROOT_APPLICATION in affected);
    PlanIsMade(repo, index, files, affected, plan);
  }

  lemma PlanIsMade(repo: Repo, index: Index, files: seq<string>, affected: set<string>, plan: Plan)
    requires affected == AffectedByAll(repo, index, files) && plan.skipped == Unmatched(repo, index, files)
    requires Sorted(plan.affected) && Elems(plan.affected) == affected
    requires Sorted(plan.manual) && forall n :: n in plan.manual <==> n in plan.affected && IsManual(index, n)
    requires Sorted(plan.unsynced) && forall n :: n in plan.unsynced <==> n in plan.affected && IsUnsynced(index, n)
    requires plan.rootFirst == (ROOT_APPLICATION in affected)
    ensures IsPlan(repo, index, files, plan)
  {
    assert forall n :: n in plan.affected <==> n in Elems(plan.affected);
    SortedIsUnique(plan.affected, SortedSeq(affected));
    SortedIsUnique(plan.manual, SortedSeq(set n | n in plan.affected && IsManual(index, n)));
    SortedIsUnique(plan.unsynced, SortedSeq(set n | n in plan.affected && IsUnsynced(index, n)));
  }

  lemma AppendSorted(names: seq<string>, i: nat, part: seq<string>)
    requires Sorted(names) && i < |names| && Sorted(part) && Elems(part) <= Elems(names[..i])
    ensures Sorted(part + [names[i]]) && Elems(part + [names[i]]) == Elems(part) + {names[i]}
  {
    forall k | 0 <= k < |part| ensures Less(part[k], names[i]) {
      assert part[k] in Elems(part) && part[k] in names[..i];
    }
    ElemsAppend(part, names[i]);
  }

  /** In order, the names without automated sync and those that are known and not synced. */
  method Flags(index: Index, names: seq<string>) returns (manual: seq<string>, unsynced: seq<string>)
    requires Sorted(names) && forall n :: n in names ==> n in index
    ensures Sorted(manual) && forall n :: n in manual <==> n in names && IsManual(index, n)
    ensures Sorted(unsynced) && forall n :: n in unsynced <==> n in names && IsUnsynced(index, n)
  {
    manual, unsynced := [], [];
    for i := 0 to |names|
      invariant Sorted(manual) && Elems(manual) == set n | n in Elems(names[..i]) && IsManual(index, n)
      invariant Sorted(unsynced) && Elems(unsynced) == set n | n in Elems(names[..i]) && IsUnsynced(index, n)
    {
      ElemsTake(names, i);
      var dep := index[names[i]];
      if !dep.automated {
        AppendSorted(names, i, manual);
        manual := manual + [names[i]];
      }
      if dep.status != "" && dep.status != "Synced" {
        AppendSorted(names, i, unsynced);
        unsynced := unsynced + [names[i]];
      }
    }
    assert names[..|names|] == names;
    forall n ensures n in manual <==> n in names && IsManual(index, n) {
      assert n in manual <==> n in Elems(manual);
      assert n in names <==> n in Elems(names);
    }
    forall n ensures n in unsynced <==> n in names && IsUnsynced(index, n) {
      assert n in unsynced <==> n in Elems(unsynced);
    }
  }

  method PlanAffectedApplications(repo: Repo, apps: seq<App>, changed: seq<string>) returns (r: Option<Plan>)
    ensures r.Some? <==> forall i :: 0 <= i < |apps| && apps[i].name != "" ==> AppIndexable(repo, apps[i].sources)
    ensures r.Some? ==> exists index ::
      IsIndex(repo, apps, index) && IsPlan(repo, index, SortedSeq(NormalizedSet(changed)), r.value)
  {
    var index := BuildApplicationDependencyIndex(repo, apps);
    if index.None? {
      return None;
    }
    var files := NormalizeChangedFiles(changed);
    var plan := PlanFromIndex(repo, index.value, files);
    assert IsIndex(repo, apps, index.value) && IsPlan(repo, index.value, files, plan);
    return Some(plan);
  }

  // ---- what the plan means ----

  /** The changed file is rendered into the application, defines it, defines one of its children, or is part of the
      overlay and the application is the root. */
  ghost predicate Concerns(repo: Repo, apps: seq<App>, file: string, name: string) {
    var app := LastNamed(apps, name);
    && name != "" && app.Some?
    && (|| AppFile(repo, app.value.sources, file)
        || DefinedApp(repo, file) == Some(name)
        || (DefinedApp(repo, file).Some? && AppChild(repo, app.value.sources, DefinedApp(repo, file).value))
        || (RyzenOverlayPathAffectsRoot(file) && name == ROOT_APPLICATION))
  }

  /** The changed file is one that the application's last listed form is rendered from; or a manifest that defines the
      application, or one of its children; or anything in the ryzen overlay, for the root. */
  lemma ConcernsIff(repo: Repo, apps: seq<App>, file: string, app: App)
    requires LastNamed(apps, app.name) == Some(app) && app.name != ""
    ensures Concerns(repo, apps, file, app.name) <==>
      || (exists s :: s in app.sources && TrimSpace(s) != "" && SourceFile(repo, s, file))
      || (exists k, a :: file in repo && repo[file] == Regular(k, Some(a))
           && (a == app.name || exists s :: s in app.sources && TrimSpace(s) != "" && SourceChild(repo, s, a)))
      || (app.name == "root-application" && AtOrUnder("packages/overlays/ryzen", file))
  {
    RyzenIsAtOrUnder(file);
    if file in repo && repo[file].Regular? {
      assert repo[file] == Regular(repo[file].kustomization, repo[file].application);
    }
  }

  lemma RyzenIsAtOrUnder(file: string)
    ensures RyzenOverlayPathAffectsRoot(file) <==> AtOrUnder("packages/overlays/ryzen", file)
  {
    var d := "packages/overlays/ryzen";
    assert "packages/overlays/ryzen/" == d + "/";
    if HasPrefix(file, d + "/") {
      assert file[..|d|] == (d + "/")[..|d|] == d && file[|d|] == '/';
    }
    if Under(d, file) {
      assert file[..|d| + 1] == d + "/";
    }
  }

  lemma AffectsIsConcerns(repo: Repo, apps: seq<App>, index: Index, file: string, name: string)
    requires IsIndex(repo, apps, index)
    ensures Affects(repo, index, file, name) <==> Concerns(repo, apps, file, name)
  {
  }

  /** An application is in the plan exactly when some changed file concerns it: reachability in the repository,
      not the index, decides. */
  lemma PlanMeansReachability(repo: Repo, apps: seq<App>, index: Index, files: seq<string>, plan: Plan, name: string)
    requires IsIndex(repo, apps, index) && IsPlan(repo, index, files, plan)
    ensures name in plan.affected <==> exists file :: file in files && Concerns(repo, apps, file, name)
  {
    assert name in plan.affected <==> name in Elems(plan.affected);
    forall file { AffectsIsConcerns(repo, apps, index, file, name); }
    if name in AffectedByAll(repo, index, files) {
      var f :| f in files && Affects(repo, index, f, name);
      assert f in files && Concerns(repo, apps, f, name);
    }
  }

  /** The flags of a plan, told from the applications: the concerned ones without automated sync, and the concerned
      ones known and not synced. */
  lemma PlanFlagsMean(repo: Repo, apps: seq<App>, index: Index, files: seq<string>, plan: Plan, name: string)
    requires IsIndex(repo, apps, index) && IsPlan(repo, index, files, plan)
    ensures name in plan.manual <==> name in plan.affected && !LastNamed(apps, name).value.automated
    ensures name in plan.unsynced <==> name in plan.affected && LastNamed(apps, name).value.status !in {"", "Synced"}
  {
    assert name in plan.manual <==> name in Elems(plan.manual);
    assert name in plan.unsynced <==> name in Elems(plan.unsynced);
    assert name in index ==> Describes(repo, LastNamed(apps, name).value, index[name]);
  }

  lemma {:induction false} UnmatchedMembers(repo: Repo, index: Index, files: seq<string>, file: string)
    ensures file in Unmatched(repo, index, files) <==> file in files && AffectedBy(repo, index, file) == {}
  {
    if files != [] {
      var front, last := files[..|files| - 1], files[|files| - 1];
      UnmatchedMembers(repo, index, front, file);
      assert files == front + [last];
    }
  }

  /** The skipped files keep the order of the changed ones. */
  lemma {:induction false} UnmatchedIsSorted(repo: Repo, index: Index, files: seq<string>)
    requires Sorted(files)
    ensures Sorted(Unmatched(repo, index, files))
  {
    if files != [] {
      var n := |files| - 1;
      UnmatchedIsSorted(repo, index, files[..n]);
      var front := Unmatched(repo, index, files[..n]);
      forall k | 0 <= k < |front| ensures Less(front[k], files[n]) {
        UnmatchedMembers(repo, index, files[..n], front[k]);
        var j :| 0 <= j < n && files[j] == front[k];
      }
    }
  }

  /** Each changed file is skipped or concerns an application, never both. */
  lemma SkippedOrConcerning(repo: Repo, apps: seq<App>, index: Index, files: seq<string>, plan: Plan, file: string)
    requires IsIndex(repo, apps, index) && IsPlan(repo, index, files, plan) && file in files
    ensures file in plan.skipped <==> !exists name :: Concerns(repo, apps, file, name)
  {
    UnmatchedMembers(repo, index, files, file);
    forall name { AffectsIsConcerns(repo, apps, index, file, name); }
    if name :| Concerns(repo, apps, file, name) {
      assert Affects(repo, index, file, name);
      assert name in AffectedBy(repo, index, file);
    }
    if name :| name in AffectedBy(repo, index, file) {
      assert Concerns(repo, apps, file, name);
    }
  }

  /** The plan is a function of repository, applications and changed files. */
  lemma PlanIsDetermined(repo: Repo, apps: seq<App>, files: seq<string>, i: Index, j: Index, p: Plan, q: Plan)
    requires IsIndex(repo, apps, i) && IsPlan(repo, i, files, p)
    requires IsIndex(repo, apps, j) && IsPlan(repo, j, files, q)
    ensures p == q
  {
    SameIndex(repo, apps, i, j);
  }

  lemma SameIndex(repo: Repo, apps: seq<App>, i: Index, j: Index)
    requires IsIndex(repo, apps, i) && IsIndex(repo, apps, j)
    ensures i == j
  {
    forall name | name in i ensures name in j && i[name] == j[name] {
      assert i[name].exactFiles == j[name].exactFiles;
      assert i[name].childApps == j[name].childApps;
    }
    forall name | name in j ensures name in i {}
  }
}
