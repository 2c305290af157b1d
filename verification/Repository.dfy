/** The checked-out repository as the planner sees it, and what an application's source path depends on,
    stated as reachability over a possibly cyclic graph of kustomizations. */
module Repository {
  import opened Options
  import opened Text
  import opened FileTree
  import opened RepoPaths

  /** Files come already read: `kustomization` holds the local path references of a readable, well-formed
      kustomization file, `application` the name of the first ArgoCD Application a manifest defines. */
  datatype Item =
    | Directory(listable: bool)
    | Regular(kustomization: Option<seq<string>>, application: Option<string>)

  type Repo = map<string, Item>

  /** `findKustomizationFile`: the three names in order. */
  function FindKustomizationFile(repo: Repo, dir: string): Option<string> {
    if IsFile(repo, dir + "/kustomization.yaml") then Some(dir + "/kustomization.yaml")
    else if IsFile(repo, dir + "/kustomization.yml") then Some(dir + "/kustomization.yml")
    else if IsFile(repo, dir + "/Kustomization") then Some(dir + "/Kustomization")
    else None
  }

  const KUSTOMIZATION_FILES := ["kustomization.yaml", "kustomization.yml", "Kustomization"]

  /** The first of the three names that is a file in the directory. */
  lemma FindsFirstName(repo: Repo, dir: string, k: nat)
    requires k < 3
    ensures FindKustomizationFile(repo, dir) == Some(dir + "/" + KUSTOMIZATION_FILES[k]) <==>
      && IsFile(repo, dir + "/" + KUSTOMIZATION_FILES[k])
      && forall j :: 0 <= j < k ==> !IsFile(repo, dir + "/" + KUSTOMIZATION_FILES[j])
    ensures FindKustomizationFile(repo, dir).None? <==>
      forall j :: 0 <= j < 3 ==> !IsFile(repo, dir + "/" + KUSTOMIZATION_FILES[j])
  {
    var a, b, c := dir + "/kustomization.yaml", dir + "/kustomization.yml", dir + "/Kustomization";
    assert a == dir + "/" + KUSTOMIZATION_FILES[0];
    assert b == dir + "/" + KUSTOMIZATION_FILES[1];
    assert c == dir + "/" + KUSTOMIZATION_FILES[2];
    assert |a| == |dir| + 19 && |b| == |dir| + 18 && |c| == |dir| + 14;
  }

  predicate IsFile(repo: Repo, p: string) {
    p in repo && repo[p].Regular?
  }

  /** Go's `filepath.Ext` compared in lower case with the three manifest extensions. */
  predicate IsManifestName(p: string) {
    var lower := ToLower(p);
    HasSuffix(lower, ".yaml") || HasSuffix(lower, ".yml") || HasSuffix(lower, ".json")
  }

  lemma LastDot(s: string, ext: string)
    requires '.' !in ext
    ensures (s + "." + ext)[|s|] == '.' && forall i :: |s| < i < |s + "." + ext| ==> (s + "." + ext)[i] != '.'
  {
    var whole := s + "." + ext;
    assert forall i :: |s| < i < |whole| ==> whole[i] == ext[i - |s| - 1];
  }

  lemma SuffixIs(s: string, dot: string, ext: string)
    requires '.' !in ext && '.' !in dot
    ensures HasSuffix(s + "." + ext, "." + dot) <==> dot == ext
  {
    var whole := s + "." + ext;
    LastDot(s, ext);
    assert whole[|s| + 1..] == ext && whole[|s|..] == "." + ext;
    if HasSuffix(whole, "." + dot) {
      var front := whole[..|whole| - |dot| - 1];
      assert whole == front + "." + dot;
      LastDot(front, dot);
      assert |front| == |s|;
    }
  }

  lemma LowerName(stem: string, ext: string)
    requires '.' !in ext
    ensures ToLower(stem + "." + ext) == ToLower(stem) + "." + ToLower(ext) && '.' !in ToLower(ext)
  {
    ToLowerConcat(stem + ".", ext);
    ToLowerConcat(stem, ".");
    assert ToLower(".") == ".";
    ToLowerIs(ext);
  }

  /** What follows the last dot is, in any case, one of the three extensions. */
  lemma IsManifestNameIff(stem: string, ext: string)
    requires '.' !in ext
    ensures IsManifestName(stem + "." + ext) <==> ToLower(ext) in {"yaml", "yml", "json"}
  {
    LowerName(stem, ext);
    SuffixIs(ToLower(stem), "yaml", ToLower(ext));
    SuffixIs(ToLower(stem), "yml", ToLower(ext));
    SuffixIs(ToLower(stem), "json", ToLower(ext));
    DottedExtensions();
  }

  lemma DottedExtensions()
    ensures "." + "yaml" == ".yaml" && "." + "yml" == ".yml" && "." + "json" == ".json"
  {
  }

  lemma ManifestHasDot(p: string)
    requires IsManifestName(p)
    ensures '.' in p
  {
    ToLowerIs(p);
    var lower := ToLower(p);
    var ext := if HasSuffix(lower, ".yaml") then ".yaml" else if HasSuffix(lower, ".yml") then ".yml" else ".json";
    var at := |lower| - |ext|;
    assert lower[at] == lower[at..][0] == ext[0] == '.';
    assert p[at] == '.';
  }

  predicate Contains(s: string, part: string) {
    HasPrefix(s, part) || (s != "" && Contains(s[1..], part))
  }

  predicate ShouldSkipKustomizeRef(ref: string) {
    var trimmed := TrimSpace(ref);
    || trimmed == "" || Contains(trimmed, "://") || Contains(trimmed, "::")
    || HasPrefix(trimmed, "github.com/") || HasPrefix(trimmed, "git@")
  }

  /** `part` stands somewhere in `s`. */
  lemma {:induction false} ContainsIff(s: string, part: string)
    ensures Contains(s, part) <==> exists i :: 0 <= i <= |s| && HasPrefix(s[i..], part)
  {
    assert s[0..] == s;
    if s == "" {
      assert HasPrefix(s, part) ==> HasPrefix(s[0..], part);
    } else {
      ContainsIff(s[1..], part);
      if i :| 0 <= i <= |s| - 1 && HasPrefix(s[1..][i..], part) {
        assert s[1..][i..] == s[i + 1..];
      }
      forall i | 0 < i <= |s| && HasPrefix(s[i..], part) ensures HasPrefix(s[1..][i - 1..], part) {
        assert s[1..][i - 1..] == s[i..];
      }
      assert HasPrefix(s, part) ==> HasPrefix(s[0..], part);
    }
  }

  /** References that are left alone: blank ones and remote ones. */
  lemma SkippedRefs(ref: string)
    ensures ShouldSkipKustomizeRef(ref) <==>
      var t := TrimSpace(ref);
      || t == "" || (exists i :: 0 <= i <= |t| && (HasPrefix(t[i..], "://") || HasPrefix(t[i..], "::")))
      || HasPrefix(t, "github.com/") || HasPrefix(t, "git@")
  {
    ContainsIff(TrimSpace(ref), "://");
    ContainsIff(TrimSpace(ref), "::");
  }

  // ---- the dependency graph ----

  /** A directory with a kustomization file. */
  predicate IsOverlay(repo: Repo, n: string) {
    n in repo && repo[n].Directory? && FindKustomizationFile(repo, n).Some?
  }

  predicate IsPlainDirectory(repo: Repo, n: string) {
    n in repo && repo[n].Directory? && FindKustomizationFile(repo, n).None?
  }

  function KustomizationOf(repo: Repo, n: string): (k: string)
    requires IsOverlay(repo, n)
    ensures IsFile(repo, k)
  {
    FindKustomizationFile(repo, n).value
  }

  lemma ShorterDirectory(n: string, a: string, m: string, b: string)
    requires '/' !in a && n + "/" + a == m + "/" + b
    ensures |m| <= |n|
  {
    var s := m + "/" + b;
    assert s[|m|] == '/';
    assert s[|n| + 1..] == a;
    forall i | |n| + 1 <= i < |s| ensures s[i] != '/' {
      assert s[i] == s[|n| + 1..][i - |n| - 1];
    }
  }

  lemma SameDirectory(n: string, a: string, m: string, b: string)
    requires '/' !in a && '/' !in b && n + "/" + a == m + "/" + b
    ensures n == m
  {
    ShorterDirectory(n, a, m, b);
    ShorterDirectory(m, b, n, a);
    assert n == (n + "/" + a)[..|n|];
    assert m == (m + "/" + b)[..|m|];
  }

  lemma KustomizationIsInjective(repo: Repo, n: string, m: string)
    requires IsOverlay(repo, n) && IsOverlay(repo, m) && KustomizationOf(repo, n) == KustomizationOf(repo, m)
    ensures n == m
  {
    var a := NameOf(repo, n);
    var b := NameOf(repo, m);
    SameDirectory(n, a, m, b);
  }

  lemma NameOf(repo: Repo, n: string) returns (name: string)
    requires IsOverlay(repo, n)
    ensures '/' !in name && KustomizationOf(repo, n) == n + "/" + name
  {
    var k := KustomizationOf(repo, n);
    if k == n + "/kustomization.yaml" {
      name := "kustomization.yaml";
      assert "/kustomization.yaml" == "/" + name;
    } else if k == n + "/kustomization.yml" {
      name := "kustomization.yml";
      assert "/kustomization.yml" == "/" + name;
    } else {
      name := "Kustomization";
      assert "/Kustomization" == "/" + name;
    }
  }

  function Refs(repo: Repo, n: string): seq<string> {
    if IsOverlay(repo, n) && repo[KustomizationOf(repo, n)].kustomization.Some?
    then repo[KustomizationOf(repo, n)].kustomization.value else []
  }

  /** Where a reference in a kustomization of directory `n` leads. */
  function Target(n: string, ref: string): Option<string> {
    match JoinRepoRel(n, ref)
    case None => None
    case Some(joined) => CleanRepoRel(joined)
  }

  ghost predicate Edge(repo: Repo, n: string, n': string) {
    exists ref :: ref in Refs(repo, n) && !ShouldSkipKustomizeRef(ref) && Target(n, ref) == Some(n')
  }

  ghost predicate IsPath(repo: Repo, path: seq<string>) {
    forall i :: 0 <= i < |path| - 1 ==> Edge(repo, path[i], path[i + 1])
  }

  ghost predicate PathBetween(repo: Repo, from: string, to: string, path: seq<string>) {
    path != [] && path[0] == from && path[|path| - 1] == to && IsPath(repo, path)
  }

  ghost predicate Reachable(repo: Repo, from: string, to: string) {
    exists path :: PathBetween(repo, from, to, path)
  }

  /** Nothing about this node makes indexing fail. */
  ghost predicate Good(repo: Repo, n: string) {
    && n in repo
    && (IsOverlay(repo, n) ==>
        && repo[KustomizationOf(repo, n)].kustomization.Some?
        && forall ref :: ref in Refs(repo, n) && !ShouldSkipKustomizeRef(ref) ==> Target(n, ref).Some?)
    && (IsPlainDirectory(repo, n) ==> Listable(repo, n))
  }

  ghost predicate Listable(repo: Repo, n: string) {
    forall d :: d in repo && AtOrUnder(n, d) && repo[d].Directory? ==> repo[d].listable
  }

  ghost function FilesOf(repo: Repo, n: string): set<string> {
    if n !in repo then {}
    else if repo[n].Regular? then {n}
    else if IsOverlay(repo, n) then {KustomizationOf(repo, n)}
    else Manifests(repo, n)
  }

  ghost function Manifests(repo: Repo, n: string): set<string> {
    set p | p in repo && Under(n, p) && repo[p].Regular? && IsManifestName(p)
  }

  ghost function Applications(repo: Repo, files: set<string>): set<string> {
    set p | p in files && p in repo && repo[p].Regular? && repo[p].application.Some? :: repo[p].application.value
  }

  /** Application names a node defines; a kustomization file itself is not looked into. */
  ghost function AppsOf(repo: Repo, n: string): set<string> {
    if IsOverlay(repo, n) then {} else Applications(repo, FilesOf(repo, n))
  }

  lemma ApplicationsStep(repo: Repo, files: set<string>, p: string)
    requires IsFile(repo, p)
    ensures Applications(repo, files + {p}) ==
            Applications(repo, files) + if repo[p].application.Some? then {repo[p].application.value} else {}
  {
    assert p in files + {p};
  }

  lemma ReachableRefl(repo: Repo, n: string)
    ensures Reachable(repo, n, n)
  {
    assert PathBetween(repo, n, n, [n]);
  }

  lemma ReachableStep(repo: Repo, a: string, b: string, c: string)
    requires Edge(repo, a, b) && Reachable(repo, b, c)
    ensures Reachable(repo, a, c)
  {
    var path :| PathBetween(repo, b, c, path);
    assert PathBetween(repo, a, c, [a] + path);
  }

  /** Reached is the start and what is reached from where it leads. */
  lemma ReachableIff(repo: Repo, a: string, c: string)
    ensures Reachable(repo, a, c) <==> a == c || exists b :: Edge(repo, a, b) && Reachable(repo, b, c)
  {
    if Reachable(repo, a, c) && a != c {
      var path :| PathBetween(repo, a, c, path);
      assert Edge(repo, path[0], path[0 + 1]);
      var rest := path[1..];
      forall i | 0 <= i < |rest| - 1 ensures Edge(repo, rest[i], rest[i + 1]) {
        assert Edge(repo, path[i + 1], path[i + 1 + 1]);
      }
      assert PathBetween(repo, path[1], c, rest);
    }
    if a == c {
      ReachableRefl(repo, a);
    }
    forall b | Edge(repo, a, b) && Reachable(repo, b, c) ensures Reachable(repo, a, c) {
      ReachableStep(repo, a, b, c);
    }
  }

  /** A set with the start in it and closed under edges contains everything reachable. */
  lemma {:induction false} ClosedContainsPath(repo: Repo, s: set<string>, path: seq<string>, i: nat)
    requires IsPath(repo, path) && i < |path| && path[0] in s
    requires forall n, n' :: n in s && Edge(repo, n, n') ==> n' in s
    ensures path[i] in s
  {
    if i > 0 {
      ClosedContainsPath(repo, s, path, i - 1);
      assert Edge(repo, path[i - 1], path[i - 1 + 1]);
    }
  }

  ghost predicate ClosedIn(repo: Repo, visited: set<string>, n: string) {
    Good(repo, n) && forall n' :: Edge(repo, n, n') ==> n' in visited
  }

  /** Everything visited since `before` is good, reachable from `from`, and has its successors visited. */
  ghost predicate Explored(repo: Repo, from: string, before: set<string>, after: set<string>) {
    && before <= after
    && forall n :: n in after - before ==> ClosedIn(repo, after, n) && Reachable(repo, from, n)
  }

  lemma ExploredTransitive(repo: Repo, from: string, a: set<string>, b: set<string>, c: set<string>)
    requires Explored(repo, from, a, b) && Explored(repo, from, b, c)
    ensures Explored(repo, from, a, c)
  {
    forall n | n in c - a ensures ClosedIn(repo, c, n) && Reachable(repo, from, n) {
      if n in b { assert n in b - a; } else { assert n in c - b; }
    }
  }

  lemma ExploredFromParent(repo: Repo, parent: string, from: string, a: set<string>, b: set<string>)
    requires Edge(repo, parent, from) && Explored(repo, from, a, b)
    ensures Explored(repo, parent, a, b)
  {
    forall n | n in b - a ensures Reachable(repo, parent, n) { ReachableStep(repo, parent, from, n); }
  }
}
