/** Skipping bootstrap rewrite inputs whose source and rewritten content are both remembered, and why the
    pushed snapshot is still what copying everything and rewriting everything would give. */
module BootstrapRewrite {
  import opened Options
  import opened Text
  import opened FileTree
  import opened CacheSpec
  import opened SnapshotCache
  import opened CacheTheorems

  const PINS := "packages/components/" + "hub-spoke-appsets/" + "release-pins/workflow-builder-images.yaml"
  const MANIFESTS := "packages/components/" + "active-development/manifests/"

  /** The last element of a slash-separated path. */
  function Base(path: string): string
    decreases |path|
  {
    if path == "" || path[|path| - 1] == '/' then ""
    else Base(path[..|path| - 1]) + [path[|path| - 1]]
  }

  predicate IsKustomizationFileName(name: string) {
    name == "kustomization.yaml" || name == "kustomization.yml" || name == "Kustomization"
  }

  predicate IsActiveKustomization(file: string) {
    HasPrefix(file, MANIFESTS) && IsKustomizationFileName(Base(file))
  }

  predicate IsBootstrapRewriteInputPath(file: string) {
    file == PINS || IsActiveKustomization(file)
  }

  lemma PinsIsNoKustomization()
    ensures !IsActiveKustomization(PINS)
  {
    assert PINS[20] != MANIFESTS[20];
  }

  /** Content hashing and the image-pin rewrite script, as functions. */
  datatype World = World(hash: Bytes -> string, rewrite: (Bytes, Bytes) -> Bytes) {
    /** No two contents share a hash, a hash is never empty, and rewriting with new pins
        absorbs an earlier rewrite with any pins. */
    ghost predicate Assumed() {
      && (forall x, y {:trigger hash(x), hash(y)} :: hash(x) == hash(y) ==> x == y)
      && (forall x {:trigger hash(x)} :: hash(x) != "")
      && (forall p, q, x {:trigger rewrite(q, rewrite(p, x))} :: rewrite(q, rewrite(p, x)) == rewrite(q, x))
    }

    function Rendered(pins: Bytes, file: string, data: Bytes): Bytes {
      if IsActiveKustomization(file) then rewrite(pins, data) else data
    }

    /** The script edits every active-development kustomization of the snapshot in place. */
    function RewriteTree(pins: Bytes, t: Tree): Tree {
      map p | p in t :: RewriteNode(pins, p, t[p])
    }

    function RewriteNode(pins: Bytes, p: string, n: Node): Node {
      if n.File? then n.(data := Rendered(pins, p, n.data)) else n
    }
  }

  datatype Entry = Entry(sourceHash: string, cacheHash: string)
  type Metadata = map<string, Entry>

  ghost predicate NoLinks(t: Tree) {
    forall p :: p in t ==> !t[p].Link?
  }

  datatype ReadResult = Data(data: Bytes) | NotExist | Unreadable

  /** `os.ReadFile` below a root without symbolic links. */
  function ReadFile(t: Tree, p: string): ReadResult {
    if p in t then (if t[p].File? && OwnerReads(t[p].perm) then Data(t[p].data) else Unreadable)
    else if exists a :: a in Ancestors(p) && a in t && !t[a].Dir? then Unreadable
    else NotExist
  }

  /** The remembered pair of hashes still describes the source file and the cached file. */
  ghost predicate Skippable(w: World, src: Tree, t: Tree, m: Metadata, f: string) {
    && f in m
    && ReadFile(src, f).Data? && m[f].sourceHash == w.hash(ReadFile(src, f).data)
    && ReadFile(t, f).Data? && m[f].cacheHash == w.hash(ReadFile(t, f).data)
  }

  ghost function ToReconcile(w: World, src: Tree, t: Tree, m: Metadata, wanted: set<string>, rewriting: bool)
    : set<string>
  {
    set f | f in wanted && (rewriting && IsBootstrapRewriteInputPath(f) ==> !Skippable(w, src, t, m, f))
  }

  ghost predicate HasInput(s: set<string>) {
    exists f :: f in s && IsBootstrapRewriteInputPath(f)
  }

  /** Planning stops when an input cannot be read from the source, or cannot be read from the cache for
      another reason than its absence while its source hash is the remembered one. */
  ghost predicate PlanFails(w: World, src: Tree, t: Tree, m: Metadata, f: string) {
    && IsBootstrapRewriteInputPath(f)
    && (|| !ReadFile(src, f).Data?
        || (f in m && m[f].sourceHash == w.hash(ReadFile(src, f).data) && ReadFile(t, f).Unreadable?))
  }

  /** `planCacheReconcileFiles`. */
  method PlanCacheReconcileFiles(w: World, src: Tree, dst: Tree, metadata: Metadata, files: seq<string>,
                                 rewriting: bool)
    returns (ok: bool, reconcileFiles: seq<string>, force: bool)
    requires w.Assumed()
    ensures ok <==> !(rewriting && exists f :: f in Elems(files) && PlanFails(w, src, dst, metadata, f))
    ensures ok ==> Elems(reconcileFiles) == ToReconcile(w, src, dst, metadata, Elems(files), rewriting)
    ensures ok ==> (force <==> rewriting && HasInput(Elems(reconcileFiles)))
  {
    if !rewriting {
      return true, files, false;
    }
    reconcileFiles, force := [], false;
    ghost var seen: set<string> := {};
    var i := 0;
    while i < |files|
      invariant 0 <= i <= |files| && seen == Elems(files[..i])
      invariant forall f :: f in seen ==> !PlanFails(w, src, dst, metadata, f)
      invariant Elems(reconcileFiles) == ToReconcile(w, src, dst, metadata, seen, true)
      invariant force <==> HasInput(Elems(reconcileFiles))
    {
      var file := files[i];
      ElemsTake(files, i);
      assert file in Elems(files);
      var step := Consider(w, src, dst, metadata, file);
      if step.None? {
        return false, [], false;
      }
      if step.value {
        ElemsAppend(reconcileFiles, file);
        AddedInput(Elems(reconcileFiles), file);
        reconcileFiles := reconcileFiles + [file];
        force := force || IsBootstrapRewriteInputPath(file);
      }
      seen := seen + {file};
      i := i + 1;
    }
    assert files[..i] == files;
    ok := true;
  }

  /** One round of the planning loop: an error, or whether the file has to be reconciled. */
  method Consider(w: World, src: Tree, dst: Tree, metadata: Metadata, file: string) returns (r: Option<bool>)
    requires w.Assumed()
    ensures r.None? <==> PlanFails(w, src, dst, metadata, file)
    ensures r.Some? ==> (r.value <==> !(IsBootstrapRewriteInputPath(file) && Skippable(w, src, dst, metadata, file)))
  {
    if !IsBootstrapRewriteInputPath(file) {
      return Some(true);
    }
    var source := ReadFile(src, file);
    if !source.Data? {
      return None;
    }
    var entry := if file in metadata then metadata[file] else Entry("", "");
    if entry.sourceHash == w.hash(source.data) {
      var cached := ReadFile(dst, file);
      if cached.Data? && entry.cacheHash == w.hash(cached.data) {
        return Some(false);
      }
      if cached.Unreadable? {
        return None;
      }
    }
    return Some(true);
  }

  lemma AddedInput(s: set<string>, f: string)
    ensures HasInput(s + {f}) <==> HasInput(s) || IsBootstrapRewriteInputPath(f)
  {
    assert f in s + {f};
    if HasInput(s) {
      var g :| g in s && IsBootstrapRewriteInputPath(g);
      assert g in s + {f};
    }
  }

  /** How `os.WriteFile` may end. A torn file does not parse, and the next load then starts empty. */
  datatype WriteOutcome = Stored | NotWritten | Torn

  datatype PushOutcome = Failed | Noop | Committed

  /** One call of `pushSnapshotToRemote` with everything it meets: the listing of the source worktree; that worktree
      at the three moments it is read, while somebody may be editing it, namely as the plan hashes it, as it is copied,
      and as it is hashed again for the metadata after the push; the pins that the script takes from it; the cache
      worktree git has prepared (and whether `.git` was cloned anew); and how foreign steps end. */
  datatype Sync = Sync(
    plan: Tree, src: Tree, pins: Bytes, atSave: Tree,
    files: seq<string>, checkout: Tree, recloned: bool, rewriting: bool,
    prepared: bool, scriptRan: bool, staged: bool, changed: bool, pushed: bool, save: WriteOutcome)
  {
    ghost predicate Valid() {
      && Snapshot(plan, Elems(files)) && Snapshot(src, Elems(files)) && WellFormed(checkout)
      && NoLinks(plan) && NoLinks(src) && NoLinks(atSave) && NoLinks(checkout)
    }

    ghost function Planned(w: World, m: Metadata): set<string> {
      ToReconcile(w, plan, checkout, m, Elems(files), rewriting)
    }

    ghost predicate Rewrites(w: World, m: Metadata) {
      rewriting && (HasInput(Planned(w, m)) || HasInput(Touched(src, checkout, Planned(w, m), Elems(files))))
    }

    /** Planning, copying and the rewrite, where it is due, all succeed. */
    ghost predicate Succeeds(w: World, m: Metadata) {
      && !(rewriting && exists f :: f in Elems(files) && PlanFails(w, plan, checkout, m, f))
      && Copyable(src, checkout, Planned(w, m))
      && (Rewrites(w, m) ==> scriptRan)
    }

    /** Git stages the result and, if that is a change, commits and pushes it. */
    predicate Lands() {
      staged && (changed ==> pushed)
    }

    /** The cache worktree after the incremental reconcile and the rewrite, when both succeed. */
    ghost function Pushed(w: World, m: Metadata): Tree
      requires Planned(w, m) <= src.Keys
    {
      var r := Reconciled(src, checkout, Planned(w, m), Elems(files));
      if Rewrites(w, m) then w.RewriteTree(pins, r) else r
    }

    /** Wiping the cache worktree, copying every file as it is when it is copied, and rewriting everything. */
    ghost function FromScratch(w: World): Tree
      requires Elems(files) <= src.Keys
    {
      w.RewriteTree(pins, GitPart(checkout) + Scratch(src, Elems(files)))
    }
  }

  ghost function Saved(w: World, src: Tree, t: Tree, wanted: set<string>): Metadata {
    map f | f in wanted && IsBootstrapRewriteInputPath(f) && ReadFile(src, f).Data? && ReadFile(t, f).Data? ::
      Entry(w.hash(ReadFile(src, f).data), w.hash(ReadFile(t, f).data))
  }

  ghost predicate Readable(src: Tree, t: Tree, wanted: set<string>) {
    forall f :: f in wanted && IsBootstrapRewriteInputPath(f) ==> ReadFile(src, f).Data? && ReadFile(t, f).Data?
  }

  /** The metadata after an attempt to save them. */
  ghost function Remembered(w: World, src: Tree, t: Tree, wanted: set<string>, m: Metadata, outcome: WriteOutcome)
    : Metadata
  {
    if !Readable(src, t, wanted) || outcome.NotWritten? then m
    else if outcome.Torn? then map[]
    else Saved(w, src, t, wanted)
  }

  ghost function AfterSave(w: World, ev: Sync, m: Metadata, t: Tree, pushed: bool): Metadata {
    if pushed && ev.rewriting then Remembered(w, ev.atSave, t, Elems(ev.files), m, ev.save) else m
  }

  /** What one sync does: `done` says that the reconcile and any rewrite succeeded. */
  ghost predicate Step(w: World, m0: Metadata, ev: Sync, tree: Tree, m1: Metadata, done: bool) {
    var m := if ev.recloned then map[] else m0;
    && (done <==> ev.prepared && ev.Succeeds(w, m))
    && (done ==> ev.Planned(w, m) <= ev.src.Keys && tree == ev.Pushed(w, m))
    && m1 == AfterSave(w, ev, m, tree, done && ev.Lands())
  }

  class SyncCache {
    const w: World
    const cache: Cache
    var metadata: Metadata

    constructor (w: World, cache: Cache)
      ensures this.w == w && this.cache == cache && metadata == map[]
    {
      this.w, this.cache, metadata := w, cache, map[];
    }

    method ShouldRewriteBootstrapImagePins(touched: seq<string>) returns (r: bool)
      ensures r <==> HasInput(Elems(touched))
    {
      for i := 0 to |touched|
        invariant !HasInput(Elems(touched[..i]))
      {
        if IsBootstrapRewriteInputPath(touched[i]) {
          assert touched[i] in Elems(touched);
          return true;
        }
        ElemsTake(touched, i);
        AddedInput(Elems(touched[..i]), touched[i]);
      }
      assert touched[..|touched|] == touched;
      return false;
    }

    method SaveBootstrapRewriteMetadata(src: Tree, files: seq<string>, outcome: WriteOutcome)
      modifies this
      ensures metadata == Remembered(w, src, cache.tree, Elems(files), old(metadata), outcome)
    {
      var collected: Metadata := map[];
      ghost var seen: set<string> := {};
      var i := 0;
      while i < |files|
        invariant 0 <= i <= |files| && seen == Elems(files[..i]) && metadata == old(metadata)
        invariant Readable(src, cache.tree, seen) && collected == Saved(w, src, cache.tree, seen)
      {
        var file := files[i];
        ElemsTake(files, i);
        assert file in Elems(files);
        if IsBootstrapRewriteInputPath(file) {
          var source, cached := ReadFile(src, file), ReadFile(cache.tree, file);
          if !source.Data? || !cached.Data? {
            return;
          }
          collected := collected[file := Entry(w.hash(source.data), w.hash(cached.data))];
        }
        seen := seen + {file};
        i := i + 1;
      }
      assert files[..i] == files;
      match outcome
      case Stored => metadata := collected;
      case NotWritten =>
      case Torn => metadata := map[];
    }

    /** Planning, reconciling and rewriting on the prepared worktree. */
    method Bring(ev: Sync) returns (done: bool)
      requires w.Assumed() && ev.Valid() && cache.tree == ev.checkout
      modifies cache
      ensures done <==> ev.Succeeds(w, metadata)
      ensures done ==> cache.tree == ev.Pushed(w, metadata)
    {
      var ok, reconcileFiles, force :=
        PlanCacheReconcileFiles(w, ev.plan, cache.tree, metadata, ev.files, ev.rewriting);
      if !ok {
        return false;
      }
      ghost var planned := ev.Planned(w, metadata);
      NoLinksNoTrouble(ev, planned);
      var touched;
      ok, touched := cache.ReconcileCacheWorktree(ev.src, reconcileFiles, ev.files);
      if !ok {
        return false;
      }
      var hit := ShouldRewriteBootstrapImagePins(touched);
      assert ev.Rewrites(w, metadata) <==> ev.rewriting && (force || hit);
      if ev.rewriting && (force || hit) {
        if !ev.scriptRan {
          return false;
        }
        cache.tree := w.RewriteTree(ev.pins, cache.tree);
      }
      return true;
    }

    method PushSnapshotToRemote(ev: Sync) returns (done: bool, outcome: PushOutcome)
      requires w.Assumed() && ev.Valid()
      modifies this, cache
      ensures Step(w, old(metadata), ev, cache.tree, metadata, done)
      ensures outcome == if !done || !ev.Lands() then Failed else if ev.changed then Committed else Noop
    {
      done, outcome := false, Failed;
      if ev.recloned {
        metadata := map[];
      }
      if !ev.prepared {
        return;
      }
      cache.tree := ev.checkout;
      done := Bring(ev);
      if !done || !ev.staged || (ev.changed && !ev.pushed) {
        return;
      }
      if ev.rewriting {
        SaveBootstrapRewriteMetadata(ev.atSave, ev.files, ev.save);
      }
      outcome := if ev.changed then Committed else Noop;
    }
  }

  lemma NoLinksNoTrouble(ev: Sync, planned: set<string>)
    requires ev.Valid()
    ensures !WritesThroughLink(ev.src, ev.checkout, planned)
    ensures Copyable(ev.src, ev.checkout, planned) ==> planned <= ev.src.Keys
  {
  }

  // ---- when a sync succeeds ----

  /** A regular file that its owner may read. */
  predicate PlainFile(t: Tree, f: string) {
    f in t && t[f].File? && OwnerReads(t[f].perm)
  }

  /** Nothing is there, or a file that may be read and replaced. */
  ghost predicate Replaceable(t: Tree, f: string) {
    if f in t then t[f].File? && OwnerReads(t[f].perm) && OwnerWrites(t[f].perm)
    else forall a :: Under(a, f) && a in t ==> t[a].Dir?
  }

  /** Where the listed paths are readable files and may be written in the cache, a sync fails only with git or the
      script. */
  lemma PlainSyncSucceeds(w: World, m: Metadata, ev: Sync)
    requires forall f :: f in Elems(ev.files) ==>
      PlainFile(ev.plan, f) && PlainFile(ev.src, f) && Replaceable(ev.checkout, f)
    requires ev.rewriting ==> ev.scriptRan
    ensures ev.Succeeds(w, m)
  {
    forall f | f in Elems(ev.files) ensures !PlanFails(w, ev.plan, ev.checkout, m, f) {
      assert forall a :: a in Ancestors(f) ==> Under(a, f);
    }
  }

  /** An input that the plan cannot read stops every sync with rewriting, and a path that cannot be copied every sync
      without. */
  lemma UnreadableStops(w: World, m: Metadata, ev: Sync, f: string)
    requires ev.Valid() && f in Elems(ev.files)
    ensures ev.rewriting && IsBootstrapRewriteInputPath(f) && !PlainFile(ev.plan, f) ==> !ev.Succeeds(w, m)
    ensures !(ev.rewriting && IsBootstrapRewriteInputPath(f)) && !PlainFile(ev.src, f) ==> !ev.Succeeds(w, m)
  {
    assert ev.rewriting && IsBootstrapRewriteInputPath(f) && !PlainFile(ev.plan, f) ==>
      PlanFails(w, ev.plan, ev.checkout, m, f);
    assert !(ev.rewriting && IsBootstrapRewriteInputPath(f)) ==> f in ev.Planned(w, m);
  }

  /** With rewriting on, the rewrite is due exactly when a listed input is not skippable, or an input that is no longer
      listed still lies in the cache (and would be deleted by its own name). */
  lemma RewriteIsDueIff(w: World, m: Metadata, ev: Sync)
    requires ev.Valid()
    ensures ev.Rewrites(w, m) <==>
      ev.rewriting && exists f :: IsBootstrapRewriteInputPath(f) && CallsForRewrite(w, m, ev, f)
  {
    var wanted := Elems(ev.files);
    if ev.rewriting {
      forall f | IsBootstrapRewriteInputPath(f)
        ensures f in ev.Planned(w, m) + Touched(ev.src, ev.checkout, ev.Planned(w, m), wanted) <==>
                CallsForRewrite(w, m, ev, f)
      {
        InputIsNotGits(f);
      }
    }
  }

  ghost predicate CallsForRewrite(w: World, m: Metadata, ev: Sync, f: string) {
    if f in Elems(ev.files) then !Skippable(w, ev.plan, ev.checkout, m, f)
    else f in ev.checkout && !ev.checkout[f].Dir? && forall a :: Under(a, f) ==> a !in Elems(ev.files)
  }

  lemma InputIsNotGits(f: string)
    requires IsBootstrapRewriteInputPath(f)
    ensures !InGit(f)
  {
    GitHoldsNoKustomization(f);
    assert PINS[0] == 'p';
  }

  // ---- one sync ----

  /** Same paths, same kinds of entries, same file contents. */
  ghost predicate SameContent(a: Tree, b: Tree) {
    && a.Keys == b.Keys
    && forall p :: p in a ==> (a[p].File? <==> b[p].File?) && (a[p].File? ==> a[p].data == b[p].data)
  }

  /** What the cache files behind the metadata are: the contents in `copied`, copied by this sync or that, rendered
      with `pins`. Of the source hashes it says nothing. */
  ghost predicate Sound(w: World, m: Metadata, pins: Bytes, copied: map<string, Bytes>) {
    forall f :: f in m ==> f in copied && m[f].cacheHash == w.hash(w.Rendered(pins, f, copied[f]))
  }

  /** A skipped input is in the cache as that content, rendered with those pins. */
  lemma SkippedContent(w: World, m: Metadata, pins: Bytes, copied: map<string, Bytes>, ev: Sync, f: string)
    requires w.Assumed() && Sound(w, m, pins, copied) && Skippable(w, ev.plan, ev.checkout, m, f)
    ensures f in copied && ReadFile(ev.checkout, f).data == w.Rendered(pins, f, copied[f])
  {
  }

  /** The pins behind the rewrite inputs that the sync pushes: its own if it rewrites, the remembered ones if not. */
  ghost function PinsPushed(w: World, m: Metadata, pins: Bytes, ev: Sync): Bytes {
    if ev.Rewrites(w, m) then ev.pins else pins
  }

  /** The source contents behind what the sync pushes: those it copied, and the remembered ones of skipped inputs. */
  ghost function Copied(w: World, m: Metadata, copied: map<string, Bytes>, ev: Sync): map<string, Bytes> {
    map f | f in Elems(ev.files) && (if f in ev.Planned(w, m) then f in ev.src && ev.src[f].File? else f in copied) ::
      if f in ev.Planned(w, m) then ev.src[f].data else copied[f]
  }

  /** What the reconcile brings, before any rewrite. */
  lemma ReconciledContent(w: World, m: Metadata, pins: Bytes, copied: map<string, Bytes>, ev: Sync, f: string)
    requires w.Assumed() && Sound(w, m, pins, copied) && ev.Valid() && ev.rewriting
    requires ev.Planned(w, m) <= ev.src.Keys && f in Elems(ev.files)
    ensures f in Copied(w, m, copied, ev)
    ensures var r := Reconciled(ev.src, ev.checkout, ev.Planned(w, m), Elems(ev.files));
            && f in r && r[f].File?
            && r[f].data == if f in ev.Planned(w, m) then ev.src[f].data else w.Rendered(pins, f, copied[f])
  {
    if f !in ev.Planned(w, m) {
      SkippedContent(w, m, pins, copied, ev, f);
      SkippedIsKept(w, m, ev, f);
    }
    ReconciledLeaf(ev.src, ev.checkout, ev.Planned(w, m), Elems(ev.files), f);
  }

  /** Every listed file ends as the content behind it rendered with those pins. */
  lemma PushedContent(w: World, m: Metadata, pins: Bytes, copied: map<string, Bytes>, ev: Sync, f: string)
    requires w.Assumed() && Sound(w, m, pins, copied) && ev.Valid() && ev.rewriting
    requires ev.Planned(w, m) <= ev.src.Keys && f in Elems(ev.files)
    ensures f in Copied(w, m, copied, ev) && f in ev.Pushed(w, m) && ev.Pushed(w, m)[f].File?
    ensures ev.Pushed(w, m)[f].data == w.Rendered(PinsPushed(w, m, pins, ev), f, Copied(w, m, copied, ev)[f])
  {
    ReconciledContent(w, m, pins, copied, ev, f);
    if f in ev.Planned(w, m) && IsActiveKustomization(f) {
      PlannedInputsRewrite(w, m, ev, f);
    }
    var r := Reconciled(ev.src, ev.checkout, ev.Planned(w, m), Elems(ev.files));
    RenderedTwice(w, pins, ev.pins, f, Copied(w, m, copied, ev)[f]);
    assert ev.Rewrites(w, m) ==> ev.Pushed(w, m)[f] == w.RewriteNode(ev.pins, f, r[f]);
    assert !ev.Rewrites(w, m) ==> ev.Pushed(w, m)[f] == r[f];
  }

  lemma PlannedInputsRewrite(w: World, m: Metadata, ev: Sync, f: string)
    requires ev.rewriting && f in ev.Planned(w, m) && IsBootstrapRewriteInputPath(f)
    ensures ev.Rewrites(w, m)
  {
    assert HasInput(ev.Planned(w, m));
  }

  lemma RenderedTwice(w: World, p: Bytes, q: Bytes, f: string, data: Bytes)
    requires w.Assumed()
    ensures w.Rendered(q, f, w.Rendered(p, f, data)) == w.Rendered(q, f, data)
  {
  }

  lemma SkippedIsKept(w: World, m: Metadata, ev: Sync, f: string)
    requires ev.Valid() && f in Elems(ev.files) && f !in ev.Planned(w, m)
    ensures f in Kept(ev.checkout, ev.Planned(w, m), Elems(ev.files))
  {
    forall a | a in Ancestors(f) ensures a !in Elems(ev.files) { assert Under(a, f); }
  }

  lemma GitHoldsNoKustomization(p: string)
    ensures InGit(p) ==> !IsActiveKustomization(p)
  {
    if HasPrefix(p, MANIFESTS) {
      assert MANIFESTS[0] == 'p';
      assert p[0] == p[..|MANIFESTS|][0];
    }
  }

  /** `t` holds `.git`, a node for each leaf path, and directories above them. */
  ghost predicate Shaped(t: Tree, git: Tree, leaves: set<string>) {
    && t.Keys == git.Keys + leaves + AllAncestors(leaves)
    && (forall p :: p in t && p !in leaves && p in AllAncestors(leaves) ==> t[p] == Dir)
    && (forall p :: p in t && p !in leaves && p !in AllAncestors(leaves) ==> t[p] == git[p])
  }

  lemma GrownIsShaped(git: Tree, leaves: Tree)
    ensures Shaped(git + Grow(leaves), git, leaves.Keys)
    ensures forall p :: p in leaves ==> (git + Grow(leaves))[p] == leaves[p]
  {
  }

  lemma RewriteKeepsShape(w: World, pins: Bytes, t: Tree, git: Tree, leaves: set<string>)
    requires Shaped(t, git, leaves) && forall p :: p in git ==> InGit(p)
    ensures Shaped(w.RewriteTree(pins, t), git, leaves)
  {
    forall p | p in git ensures w.RewriteNode(pins, p, git[p]) == git[p] { GitHoldsNoKustomization(p); }
  }

  lemma RewrittenShape(w: World, pins: Bytes, git: Tree, leaves: Tree)
    requires forall p :: p in git ==> InGit(p)
    ensures Shaped(git + Grow(leaves), git, leaves.Keys)
    ensures var t := w.RewriteTree(pins, git + Grow(leaves));
            Shaped(t, git, leaves.Keys) && forall p :: p in leaves ==> t[p] == w.RewriteNode(pins, p, leaves[p])
  {
    GrownIsShaped(git, leaves);
    RewriteKeepsShape(w, pins, git + Grow(leaves), git, leaves.Keys);
  }

  lemma PushedShape(w: World, m: Metadata, ev: Sync)
    requires ev.Planned(w, m) <= ev.src.Keys
    requires ev.Planned(w, m) + Kept(ev.checkout, ev.Planned(w, m), Elems(ev.files)) == Elems(ev.files)
    ensures Shaped(ev.Pushed(w, m), GitPart(ev.checkout), Elems(ev.files))
  {
    var part: Tree := KeptPart(ev.src, ev.checkout, ev.Planned(w, m), Elems(ev.files));
    assert part.Keys == Elems(ev.files);
    RewrittenShape(w, ev.pins, GitPart(ev.checkout), part);
  }

  lemma ScratchShape(w: World, ev: Sync)
    requires Elems(ev.files) <= ev.src.Keys
    ensures Shaped(ev.FromScratch(w), GitPart(ev.checkout), Elems(ev.files))
    ensures forall f :: f in Elems(ev.files) ==>
      f in ev.FromScratch(w) && ev.FromScratch(w)[f] == w.RewriteNode(ev.pins, f, ev.src[f])
  {
    var whole: Tree := map p | p in Elems(ev.files) :: ev.src[p];
    assert whole.Keys == Elems(ev.files);
    RewrittenShape(w, ev.pins, GitPart(ev.checkout), whole);
  }

  /** Trees of one shape whose leaves are files have the same content exactly when their leaves have. */
  lemma CompareShaped(a: Tree, b: Tree, git: Tree, leaves: set<string>)
    requires Shaped(a, git, leaves) && Shaped(b, git, leaves)
    requires forall f :: f in leaves ==> a[f].File? && b[f].File?
    ensures SameContent(a, b) <==> forall f :: f in leaves ==> a[f].data == b[f].data
  {
    assert forall f :: f in leaves ==> f in a && f in b;
  }

  lemma SkippedAreKept(w: World, m: Metadata, ev: Sync)
    requires ev.Valid()
    ensures ev.Planned(w, m) + Kept(ev.checkout, ev.Planned(w, m), Elems(ev.files)) == Elems(ev.files)
  {
    forall f | f in Elems(ev.files) && f !in ev.Planned(w, m) { SkippedIsKept(w, m, ev, f); }
  }

  /** A skipped input is still in the source, and what the sync pushes for it is the present rendering of the present
      source content. */
  ghost predicate InDate(w: World, m: Metadata, pins: Bytes, copied: map<string, Bytes>, ev: Sync, f: string) {
    && f in copied && f in ev.src && ev.src[f].File?
    && w.Rendered(PinsPushed(w, m, pins, ev), f, copied[f]) == w.Rendered(ev.pins, f, ev.src[f].data)
  }

  /** All skipped inputs are. */
  ghost predicate SkippedInDate(w: World, m: Metadata, pins: Bytes, copied: map<string, Bytes>, ev: Sync) {
    forall f :: f in Elems(ev.files) && f !in ev.Planned(w, m) ==> InDate(w, m, pins, copied, ev, f)
  }

  /** One listed file, pushed and from scratch. */
  lemma SameLeafIff(w: World, m: Metadata, pins: Bytes, copied: map<string, Bytes>, ev: Sync, f: string)
    requires w.Assumed() && Sound(w, m, pins, copied) && ev.Valid() && ev.rewriting
    requires ev.Planned(w, m) <= ev.src.Keys && Elems(ev.files) <= ev.src.Keys && f in Elems(ev.files)
    ensures f in ev.Pushed(w, m) && ev.Pushed(w, m)[f].File?
    ensures f in ev.FromScratch(w) && ev.FromScratch(w)[f].File?
    ensures ev.Pushed(w, m)[f].data == ev.FromScratch(w)[f].data <==>
      f in ev.Planned(w, m) || InDate(w, m, pins, copied, ev, f)
  {
    PushedContent(w, m, pins, copied, ev, f);
    ScratchShape(w, ev);
    if f in ev.Planned(w, m) && IsActiveKustomization(f) {
      PlannedInputsRewrite(w, m, ev, f);
    }
  }

  /** The incremental push leaves the worktree that wiping, copying and rewriting would leave if and only if every
      skipped input is in date. */
  lemma PushedIsFromScratchIff(w: World, m: Metadata, pins: Bytes, copied: map<string, Bytes>, ev: Sync)
    requires w.Assumed() && Sound(w, m, pins, copied) && ev.Valid() && ev.rewriting
    requires ev.Planned(w, m) <= ev.src.Keys
    ensures Elems(ev.files) <= ev.src.Keys && SameContent(ev.Pushed(w, m), ev.FromScratch(w)) <==>
      SkippedInDate(w, m, pins, copied, ev)
  {
    var wanted := Elems(ev.files);
    if wanted <= ev.src.Keys {
      forall f | f in wanted { SameLeafIff(w, m, pins, copied, ev, f); }
      SkippedAreKept(w, m, ev);
      PushedShape(w, m, ev);
      ScratchShape(w, ev);
      CompareShaped(ev.Pushed(w, m), ev.FromScratch(w), GitPart(ev.checkout), wanted);
    } else {
      var f :| f in wanted && f !in ev.src;
      assert !InDate(w, m, pins, copied, ev, f);
    }
  }

  /** Without rewriting the two trees are equal. */
  lemma PlainPushIsFromScratch(w: World, m: Metadata, ev: Sync)
    requires !ev.rewriting && ev.Planned(w, m) <= ev.src.Keys
    ensures Elems(ev.files) <= ev.src.Keys
    ensures ev.Pushed(w, m) == GitPart(ev.checkout) + Scratch(ev.src, Elems(ev.files))
  {
    assert ev.Planned(w, m) == Elems(ev.files);
    IncrementalIsFromScratch(ev.src, ev.checkout, Elems(ev.files));
  }
}
