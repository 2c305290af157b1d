/** Whole runs of syncs: sources edited at any moment, worktrees replaced, rewriting switched on and off, and metadata
    saved, torn or lost in between. */
module BootstrapRuns {
  import opened Text
  import opened FileTree
  import opened CacheSpec
  import opened SnapshotCache
  import opened BootstrapRewrite

  /** What stands behind the metadata: the pins of the last sync that rewrote and saved, and the source contents as
      they were copied. */
  datatype Behind = Behind(pins: Bytes, copied: map<string, Bytes>)

  ghost predicate SoundWith(w: World, m: Metadata, b: Behind) {
    Sound(w, m, b.pins, b.copied)
  }

  /** What stands behind the rewrite inputs that a sync pushes. */
  ghost function BehindPush(w: World, m: Metadata, b: Behind, ev: Sync): Behind {
    Behind(PinsPushed(w, m, b.pins, ev), Copied(w, m, b.copied, ev))
  }

  /** What a completed sync saves stands on what it pushed, whatever the source has become meanwhile. */
  lemma SavedIsSound(w: World, m: Metadata, b: Behind, ev: Sync)
    requires w.Assumed() && SoundWith(w, m, b) && ev.Valid() && ev.rewriting && ev.Planned(w, m) <= ev.src.Keys
    ensures SoundWith(w, Saved(w, ev.atSave, ev.Pushed(w, m), Elems(ev.files)), BehindPush(w, m, b, ev))
  {
    forall f | f in Elems(ev.files) { PushedContent(w, m, b.pins, b.copied, ev, f); }
  }

  /** What the from-scratch sync leaves. */
  ghost predicate Faithful(w: World, ev: Sync, tree: Tree) {
    && Elems(ev.files) <= ev.src.Keys
    && if ev.rewriting then SameContent(tree, ev.FromScratch(w))
       else tree == GitPart(ev.checkout) + Scratch(ev.src, Elems(ev.files))
  }

  /** The metadata that a sync starts from, once it has its clone. */
  function Loaded(ev: Sync, m: Metadata): Metadata {
    if ev.recloned then map[] else m
  }

  /** The metadata left by a sync are those that it saved. */
  ghost predicate Replaces(w: World, ev: Sync, tree: Tree, m1: Metadata, done: bool) {
    done && ev.rewriting && m1 == Saved(w, ev.atSave, tree, Elems(ev.files))
  }

  ghost function BehindAfter(w: World, m: Metadata, b: Behind, ev: Sync, tree: Tree, m1: Metadata, done: bool): Behind {
    if Replaces(w, ev, tree, m1, done) then BehindPush(w, Loaded(ev, m), b, ev) else b
  }

  /** Sound metadata stay sound, however the sync ends. */
  lemma StepStaysSound(w: World, m0: Metadata, b: Behind, ev: Sync, tree: Tree, m1: Metadata, done: bool)
    requires w.Assumed() && SoundWith(w, m0, b) && ev.Valid() && Step(w, m0, ev, tree, m1, done)
    ensures SoundWith(w, m1, BehindAfter(w, m0, b, ev, tree, m1, done))
  {
    if Replaces(w, ev, tree, m1, done) {
      SavedIsSound(w, Loaded(ev, m0), b, ev);
    }
  }

  /** One sync that got through is faithful if and only if it did not rewrite or every input that it skipped is in
      date. */
  lemma StepIsFaithfulIff(w: World, m0: Metadata, b: Behind, ev: Sync, tree: Tree, m1: Metadata)
    requires w.Assumed() && SoundWith(w, m0, b) && ev.Valid() && Step(w, m0, ev, tree, m1, true)
    ensures Faithful(w, ev, tree) <==> ev.rewriting ==> SkippedInDate(w, Loaded(ev, m0), b.pins, b.copied, ev)
  {
    if ev.rewriting {
      PushedIsFromScratchIff(w, Loaded(ev, m0), b.pins, b.copied, ev);
    } else {
      PlainPushIsFromScratch(w, Loaded(ev, m0), ev);
    }
  }

  /** One sync of a run and what it left. */
  datatype Observed = Observed(ev: Sync, tree: Tree, metadata: Metadata, done: bool)

  /** The metadata a sync of the run starts from. */
  function Before(m: Metadata, run: seq<Observed>, i: nat): Metadata
    requires i <= |run|
  {
    if i == 0 then m else run[i - 1].metadata
  }

  ghost predicate StepAt(w: World, m: Metadata, run: seq<Observed>, i: nat)
    requires i < |run|
  {
    Step(w, Before(m, run, i), run[i].ev, run[i].tree, run[i].metadata, run[i].done)
  }

  ghost predicate IsRun(w: World, m: Metadata, run: seq<Observed>) {
    forall i :: 0 <= i < |run| ==> StepAt(w, m, run, i)
  }

  /** What stands behind the metadata before sync `i`. */
  ghost function BehindAt(w: World, run: seq<Observed>, i: nat): Behind
    requires i <= |run|
  {
    if i == 0 then Behind([], map[])
    else
      var o := run[i - 1];
      BehindAfter(w, Before(map[], run, i - 1), BehindAt(w, run, i - 1), o.ev, o.tree, o.metadata, o.done)
  }

  /** The metadata that sync `i` goes by. */
  function LoadedAt(run: seq<Observed>, i: nat): Metadata
    requires i < |run|
  {
    Loaded(run[i].ev, Before(map[], run, i))
  }

  ghost predicate AllValid(run: seq<Observed>) {
    forall k :: 0 <= k < |run| ==> run[k].ev.Valid()
  }

  lemma {:induction false} MetadataStaysSound(w: World, run: seq<Observed>, i: nat)
    requires w.Assumed() && IsRun(w, map[], run) && AllValid(run) && i <= |run|
    ensures SoundWith(w, Before(map[], run, i), BehindAt(w, run, i))
  {
    if i > 0 {
      MetadataStaysSound(w, run, i - 1);
      assert StepAt(w, map[], run, i - 1);
      var o, m, b := run[i - 1], Before(map[], run, i - 1), BehindAt(w, run, i - 1);
      StepStaysSound(w, m, b, o.ev, o.tree, o.metadata, o.done);
    }
  }

  /** In every run from an empty cache, a sync that got through left the worktree that wiping, copying and rewriting
      everything would have left if and only if it did not rewrite, or for each input that it skipped the content last
      copied, rendered with the pins pushed, is the present content rendered with the present pins. */
  lemma PushIsFromScratchIff(w: World, run: seq<Observed>, i: nat)
    requires w.Assumed() && IsRun(w, map[], run) && AllValid(run) && i < |run| && run[i].done
    ensures var b := BehindAt(w, run, i);
      Faithful(w, run[i].ev, run[i].tree) <==>
      run[i].ev.rewriting ==> SkippedInDate(w, LoadedAt(run, i), b.pins, b.copied, run[i].ev)
  {
    MetadataStaysSound(w, run, i);
    assert StepAt(w, map[], run, i);
    var o := run[i];
    StepIsFaithfulIff(w, Before(map[], run, i), BehindAt(w, run, i), o.ev, o.tree, o.metadata);
  }

  // ---- metadata that tell the truth about the sources ----

  /** The hash of some source content, with the hash of what `pins` make of it. */
  ghost predicate SourcedBy(w: World, e: Entry, pins: Bytes, f: string, x: Bytes) {
    e == Entry(w.hash(x), w.hash(w.Rendered(pins, f, x))) && (f == PINS ==> x == pins)
  }

  ghost predicate SourcedAt(w: World, e: Entry, pins: Bytes, f: string) {
    exists x :: SourcedBy(w, e, pins, f, x)
  }

  /** Every remembered source content is one whose rendering the cache holds. */
  ghost predicate Sourced(w: World, m: Metadata, pins: Bytes) {
    forall f :: f in m ==> SourcedAt(w, m[f], pins, f)
  }

  /** An input found at the save renders as the content that was copied; the pins file is the pins pushed. */
  ghost predicate AgreesOn(w: World, b: Behind, atSave: Tree, f: string)
    requires ReadFile(atSave, f).Data?
  {
    && f in b.copied && w.Rendered(b.pins, f, ReadFile(atSave, f).data) == w.Rendered(b.pins, f, b.copied[f])
    && (f == PINS ==> ReadFile(atSave, f) == Data(b.pins))
  }

  ghost predicate Agrees(w: World, m1: Metadata, b: Behind, atSave: Tree)
    requires forall f :: f in m1 ==> ReadFile(atSave, f).Data?
  {
    forall f :: f in m1 ==> AgreesOn(w, b, atSave, f)
  }

  lemma EntryIsSourcedIff(w: World, pins: Bytes, f: string, x: Bytes, y: Bytes)
    requires w.Assumed()
    ensures SourcedAt(w, Entry(w.hash(x), w.hash(y)), pins, f) <==>
      w.Rendered(pins, f, x) == y && (f == PINS ==> x == pins)
  {
    var e := Entry(w.hash(x), w.hash(y));
    if w.Rendered(pins, f, x) == y && (f == PINS ==> x == pins) {
      assert SourcedBy(w, e, pins, f, x);
    }
    if SourcedAt(w, e, pins, f) {
      var z :| SourcedBy(w, e, pins, f, z);
      assert w.hash(z) == w.hash(x) && w.hash(w.Rendered(pins, f, z)) == w.hash(y);
    }
  }

  /** What a sync saves tells the truth if and only if the source it finds then agrees with what it copied. */
  lemma SavedIsSourcedIff(w: World, m: Metadata, b: Behind, ev: Sync)
    requires w.Assumed() && SoundWith(w, m, b) && ev.Valid() && ev.rewriting && ev.Planned(w, m) <= ev.src.Keys
    ensures var m1, b1 := Saved(w, ev.atSave, ev.Pushed(w, m), Elems(ev.files)), BehindPush(w, m, b, ev);
      Sourced(w, m1, b1.pins) <==> Agrees(w, m1, b1, ev.atSave)
  {
    var m1, b1 := Saved(w, ev.atSave, ev.Pushed(w, m), Elems(ev.files)), BehindPush(w, m, b, ev);
    forall f | f in m1
      ensures SourcedAt(w, m1[f], b1.pins, f) <==> AgreesOn(w, b1, ev.atSave, f)
    {
      PushedContent(w, m, b.pins, b.copied, ev, f);
      EntryIsSourcedIff(w, b1.pins, f, ReadFile(ev.atSave, f).data, ev.Pushed(w, m)[f].data);
    }
  }

  /** If the sync replaced the metadata, the source that it hashed then agreed with what it had copied. */
  ghost predicate SaveAgrees(w: World, m0: Metadata, b: Behind, ev: Sync, tree: Tree, m1: Metadata, done: bool) {
    Replaces(w, ev, tree, m1, done) ==> Agrees(w, m1, BehindPush(w, Loaded(ev, m0), b, ev), ev.atSave)
  }

  lemma StepStaysSourced(w: World, m0: Metadata, b: Behind, ev: Sync, tree: Tree, m1: Metadata, done: bool)
    requires w.Assumed() && SoundWith(w, m0, b) && ev.Valid() && Step(w, m0, ev, tree, m1, done)
    requires Sourced(w, m0, b.pins) && SaveAgrees(w, m0, b, ev, tree, m1, done)
    ensures Sourced(w, m1, BehindAfter(w, m0, b, ev, tree, m1, done).pins)
  {
    if Replaces(w, ev, tree, m1, done) {
      SavedIsSourcedIff(w, Loaded(ev, m0), b, ev);
    }
  }

  ghost predicate AgreesAt(w: World, run: seq<Observed>, j: nat)
    requires j < |run|
  {
    var o := run[j];
    SaveAgrees(w, Before(map[], run, j), BehindAt(w, run, j), o.ev, o.tree, o.metadata, o.done)
  }

  lemma {:induction false} MetadataStaySourced(w: World, run: seq<Observed>, i: nat)
    requires w.Assumed() && IsRun(w, map[], run) && AllValid(run) && i <= |run|
    requires forall j :: 0 <= j < i ==> AgreesAt(w, run, j)
    ensures Sourced(w, Before(map[], run, i), BehindAt(w, run, i).pins)
  {
    if i > 0 {
      MetadataStaySourced(w, run, i - 1);
      MetadataStaysSound(w, run, i - 1);
      assert StepAt(w, map[], run, i - 1) && AgreesAt(w, run, i - 1);
      var o, m, b := run[i - 1], Before(map[], run, i - 1), BehindAt(w, run, i - 1);
      StepStaysSourced(w, m, b, o.ev, o.tree, o.metadata, o.done);
    }
  }

  // ---- syncs that nobody edits into ----

  /** The rewrite inputs are copied as the plan saw them. */
  ghost predicate StillWhileCopying(ev: Sync) {
    forall f :: f in Elems(ev.files) && IsBootstrapRewriteInputPath(f) ==> ReadFile(ev.plan, f) == ReadFile(ev.src, f)
  }

  /** The script reads the pins file as it was copied. */
  predicate PinsAsCopied(ev: Sync) {
    ReadFile(ev.src, PINS) == Data(ev.pins)
  }

  /** And the inputs are hashed again as they were copied. */
  ghost predicate StillUntilSaved(ev: Sync) {
    && StillWhileCopying(ev) && (PINS in Elems(ev.files) ==> PinsAsCopied(ev))
    && forall f :: f in Elems(ev.files) && IsBootstrapRewriteInputPath(f) ==>
         ReadFile(ev.src, f) == ReadFile(ev.atSave, f)
  }

  /** With truthful metadata a skipped input is in the source as it was when its rendering was copied, up to
      rendering. */
  lemma SkippedSource(w: World, m: Metadata, b: Behind, ev: Sync, f: string)
    requires w.Assumed() && SoundWith(w, m, b) && Sourced(w, m, b.pins) && ev.Valid() && ev.rewriting
    requires StillWhileCopying(ev) && f in Elems(ev.files) && f !in ev.Planned(w, m)
    ensures f in ev.src && ev.src[f].File? && f in b.copied && IsBootstrapRewriteInputPath(f)
    ensures w.Rendered(b.pins, f, b.copied[f]) == w.Rendered(b.pins, f, ev.src[f].data)
    ensures f == PINS ==> ev.src[f].data == b.pins
  {
    assert Skippable(w, ev.plan, ev.checkout, m, f);
    assert SourcedAt(w, m[f], b.pins, f);
    var x :| SourcedBy(w, m[f], b.pins, f, x);
    assert w.hash(x) == w.hash(ReadFile(ev.plan, f).data);
    assert w.hash(w.Rendered(b.pins, f, x)) == w.hash(w.Rendered(b.pins, f, b.copied[f]));
  }

  lemma RenderedAgain(w: World, p: Bytes, q: Bytes, f: string, x: Bytes, y: Bytes)
    requires w.Assumed() && w.Rendered(p, f, x) == w.Rendered(p, f, y)
    ensures w.Rendered(q, f, x) == w.Rendered(q, f, y)
  {
    RenderedTwice(w, p, q, f, x);
    RenderedTwice(w, p, q, f, y);
  }

  /** The rewrite is due, or would change nothing that is listed. */
  ghost predicate PinsUpToDate(w: World, m: Metadata, pins: Bytes, ev: Sync) {
    || ev.Rewrites(w, m)
    || forall f :: f in Elems(ev.files) && IsActiveKustomization(f) && f in ev.src && ev.src[f].File? ==>
         w.rewrite(pins, ev.src[f].data) == w.rewrite(ev.pins, ev.src[f].data)
  }

  /** Where no rewrite is due nothing that it reads was planned. */
  lemma NoInputIsPlanned(w: World, m: Metadata, ev: Sync, f: string)
    requires ev.rewriting && !ev.Rewrites(w, m) && IsBootstrapRewriteInputPath(f)
    ensures f !in ev.Planned(w, m)
  {
    if f in ev.Planned(w, m) {
      PlannedInputsRewrite(w, m, ev, f);
    }
  }

  lemma SourcedInDateIff(w: World, m: Metadata, b: Behind, ev: Sync, f: string)
    requires w.Assumed() && SoundWith(w, m, b) && Sourced(w, m, b.pins) && ev.Valid() && ev.rewriting
    requires StillWhileCopying(ev) && f in Elems(ev.files) && f !in ev.Planned(w, m)
    ensures f in ev.src && ev.src[f].File?
    ensures InDate(w, m, b.pins, b.copied, ev, f) <==>
      ev.Rewrites(w, m) || w.Rendered(b.pins, f, ev.src[f].data) == w.Rendered(ev.pins, f, ev.src[f].data)
  {
    SkippedSource(w, m, b, ev, f);
    RenderedAgain(w, b.pins, ev.pins, f, b.copied[f], ev.src[f].data);
  }

  /** Truthful metadata leave the pins as the only thing that can be out of date. */
  lemma OnlyPinsMatter(w: World, m: Metadata, b: Behind, ev: Sync)
    requires w.Assumed() && SoundWith(w, m, b) && Sourced(w, m, b.pins) && ev.Valid() && ev.rewriting
    requires StillWhileCopying(ev)
    ensures SkippedInDate(w, m, b.pins, b.copied, ev) <==> PinsUpToDate(w, m, b.pins, ev)
  {
    forall f | f in Elems(ev.files) && f !in ev.Planned(w, m) { SourcedInDateIff(w, m, b, ev, f); }
    if !ev.Rewrites(w, m) {
      forall f | IsActiveKustomization(f) ensures f !in ev.Planned(w, m) { NoInputIsPlanned(w, m, ev, f); }
    }
  }

  lemma TrackedPinsAreUpToDate(w: World, m: Metadata, b: Behind, ev: Sync)
    requires w.Assumed() && SoundWith(w, m, b) && Sourced(w, m, b.pins) && ev.Valid() && ev.rewriting
    requires StillWhileCopying(ev) && PINS in Elems(ev.files) && PinsAsCopied(ev)
    ensures PinsUpToDate(w, m, b.pins, ev)
  {
    if !ev.Rewrites(w, m) {
      NoInputIsPlanned(w, m, ev, PINS);
      SkippedSource(w, m, b, ev, PINS);
    }
  }

  /** When every save so far told the truth and nobody edits between the plan and the copy, the push is faithful if and
      only if the rewrite was due or the remembered pins render every listed kustomization as the present ones do; so
      it always is when the snapshot holds the pins file as the script reads it. */
  lemma EveryPushIsFromScratch(w: World, run: seq<Observed>, i: nat)
    requires w.Assumed() && IsRun(w, map[], run) && AllValid(run) && i < |run| && run[i].done
    requires forall j :: 0 <= j < i ==> AgreesAt(w, run, j)
    requires run[i].ev.rewriting ==> StillWhileCopying(run[i].ev)
    ensures Faithful(w, run[i].ev, run[i].tree) <==>
      run[i].ev.rewriting ==> PinsUpToDate(w, LoadedAt(run, i), BehindAt(w, run, i).pins, run[i].ev)
    ensures (run[i].ev.rewriting ==> PINS in Elems(run[i].ev.files) && PinsAsCopied(run[i].ev)) ==>
      Faithful(w, run[i].ev, run[i].tree)
  {
    MetadataStaysSound(w, run, i);
    MetadataStaySourced(w, run, i);
    PushIsFromScratchIff(w, run, i);
    if run[i].ev.rewriting {
      OnlyPinsMatter(w, LoadedAt(run, i), BehindAt(w, run, i), run[i].ev);
      if PINS in Elems(run[i].ev.files) && PinsAsCopied(run[i].ev) {
        TrackedPinsAreUpToDate(w, LoadedAt(run, i), BehindAt(w, run, i), run[i].ev);
      }
    }
  }

  /** Nobody edits during a sync: then what it saves tells the truth again. */
  lemma StillSyncAgrees(w: World, m: Metadata, b: Behind, ev: Sync)
    requires w.Assumed() && SoundWith(w, m, b) && Sourced(w, m, b.pins) && ev.Valid() && ev.rewriting
    requires ev.Planned(w, m) <= ev.src.Keys && StillUntilSaved(ev)
    ensures Agrees(w, Saved(w, ev.atSave, ev.Pushed(w, m), Elems(ev.files)), BehindPush(w, m, b, ev), ev.atSave)
  {
    forall f | f in Elems(ev.files) && IsBootstrapRewriteInputPath(f) && ReadFile(ev.atSave, f).Data?
      ensures AgreesOn(w, BehindPush(w, m, b, ev), ev.atSave, f)
    {
      if f in ev.Planned(w, m) {
        PlannedInputsRewrite(w, m, ev, f);
      } else {
        SkippedSource(w, m, b, ev, f);
        RenderedAgain(w, b.pins, ev.pins, f, b.copied[f], ev.src[f].data);
      }
    }
  }

  lemma StillStepAgrees(w: World, m0: Metadata, b: Behind, ev: Sync, tree: Tree, m1: Metadata, done: bool)
    requires w.Assumed() && SoundWith(w, m0, b) && Sourced(w, m0, b.pins) && ev.Valid()
    requires Step(w, m0, ev, tree, m1, done) && (done && ev.rewriting ==> StillUntilSaved(ev))
    ensures SaveAgrees(w, m0, b, ev, tree, m1, done)
  {
    if Replaces(w, ev, tree, m1, done) {
      StillSyncAgrees(w, Loaded(ev, m0), b, ev);
    }
  }

  ghost predicate StillAt(run: seq<Observed>, j: nat)
    requires j < |run|
  {
    run[j].done && run[j].ev.rewriting ==> StillUntilSaved(run[j].ev)
  }

  lemma NextAgrees(w: World, run: seq<Observed>, i: nat)
    requires w.Assumed() && IsRun(w, map[], run) && AllValid(run) && i < |run|
    requires (forall j :: 0 <= j < i ==> AgreesAt(w, run, j)) && StillAt(run, i)
    ensures AgreesAt(w, run, i)
  {
    MetadataStaysSound(w, run, i);
    MetadataStaySourced(w, run, i);
    assert StepAt(w, map[], run, i);
    var o := run[i];
    StillStepAgrees(w, Before(map[], run, i), BehindAt(w, run, i), o.ev, o.tree, o.metadata, o.done);
  }

  /** So as long as nobody edits during a sync that saves, every save tells the truth. */
  lemma {:induction false} StillSyncsAgree(w: World, run: seq<Observed>, i: nat)
    requires w.Assumed() && IsRun(w, map[], run) && AllValid(run) && i <= |run|
    requires forall j :: 0 <= j < i ==> StillAt(run, j)
    ensures forall j :: 0 <= j < i ==> AgreesAt(w, run, j)
  {
    if i > 0 {
      StillSyncsAgree(w, run, i - 1);
      forall j | 0 <= j < i ensures AgreesAt(w, run, j) {
        if j == i - 1 { NextAgrees(w, run, j); }
      }
    }
  }

  // ---- what an edit during a sync, and a pins file that is not tracked, leave behind ----

  lemma {:induction false} BaseOfJoin(dir: string, name: string)
    requires dir != "" && dir[|dir| - 1] == '/' && '/' !in name
    ensures Base(dir + name) == name
  {
    if name == "" {
      assert dir + name == dir;
    } else {
      var n := |name| - 1;
      assert (dir + name)[..|dir + name| - 1] == dir + name[..n];
      BaseOfJoin(dir, name[..n]);
      assert name == name[..n] + [name[n]];
    }
  }

  /** The active kustomizations are the files of the three names in the directory of the manifests and all below it. */
  lemma ActiveKustomizationIff(dir: string, name: string)
    requires (dir == "" || dir[|dir| - 1] == '/') && '/' !in name
    ensures IsActiveKustomization(MANIFESTS + dir + name) <==>
      name in {"kustomization.yaml", "kustomization.yml", "Kustomization"}
  {
    assert MANIFESTS[|MANIFESTS| - 1] == '/';
    BaseOfJoin(MANIFESTS + dir, name);
    assert (MANIFESTS + dir + name)[..|MANIFESTS|] == MANIFESTS;
  }

  /** An active kustomization and the pins file lie apart from each other and from `.git`. */
  lemma KustomizationIsApart(k: string)
    requires IsActiveKustomization(k)
    ensures k != PINS && k != "" && !InGit(k) && !InGit(PINS)
    ensures !Under(k, PINS) && !Under(PINS, k) && !Under(k, k) && !Under(PINS, PINS)
  {
    PinsIsNoKustomization();
    GitHoldsNoKustomization(k);
    assert PINS[0] == 'p';
    assert k[20] == k[..|MANIFESTS|][20] == MANIFESTS[20];
    assert PINS[20] != MANIFESTS[20] && |PINS| > 20;
  }

  lemma GrowIsWellFormed(leaves: Tree)
    requires "" !in leaves && forall p, q :: p in leaves && q in leaves ==> !Under(p, q)
    ensures WellFormed(Grow(leaves))
  {
    var t := Grow(leaves);
    forall d, p | p in t && Under(d, p) ensures d in t && t[d].Dir? {
      if p in leaves {
        assert d in Ancestors(p);
      } else {
        var f :| f in leaves && p in Ancestors(f);
        AncestorsClosed(f);
        assert d in Ancestors(f);
      }
    }
  }

  function Plain(data: Bytes): Node {
    File(data, 420, 0)
  }

  /** A kustomization and, if it is tracked, the pins file. */
  function Leaves(k: string, data: Bytes, pins: Bytes, tracked: bool): Tree {
    if tracked then map[k := Plain(data), PINS := Plain(pins)] else map[k := Plain(data)]
  }

  function Listed(k: string, tracked: bool): seq<string> {
    if tracked then [k, PINS] else [k]
  }

  ghost function Only(k: string, data: Bytes, pins: Bytes, tracked: bool): Tree {
    Grow(Leaves(k, data, pins, tracked))
  }

  /** A rewriting sync of one kustomization, which holds `x` until it is copied and `y` when it is hashed again; the
      source holds the pins file whether git lists it or not. Every step succeeds and the metadata are saved; only from
      an empty worktree is there something to commit. */
  ghost function Copying(k: string, x: Bytes, y: Bytes, pins: Bytes, tracked: bool, checkout: Tree): Sync {
    var src := Only(k, x, pins, true);
    Sync(src, src, pins, Only(k, y, pins, true), Listed(k, tracked), checkout,
         false, true, true, true, true, checkout == map[], true, Stored)
  }

  lemma OnlyIsPlain(k: string, x: Bytes, pins: Bytes, tracked: bool)
    requires IsActiveKustomization(k)
    ensures var t := Only(k, x, pins, tracked);
            && WellFormed(t) && NoLinks(t) && k in t && t[k] == Plain(x) && ReadFile(t, k) == Data(x)
            && (tracked ==> PINS in t && t[PINS] == Plain(pins) && ReadFile(t, PINS) == Data(pins))
    ensures Elems(Listed(k, tracked)) == Leaves(k, x, pins, tracked).Keys
  {
    KustomizationIsApart(k);
    GrowIsWellFormed(Leaves(k, x, pins, tracked));
  }

  lemma OnlyHasNothingStale(k: string, x: Bytes, pins: Bytes, tracked: bool)
    requires IsActiveKustomization(k)
    ensures StaleTops(Only(k, x, pins, tracked), Elems(Listed(k, tracked))) == {}
  {
    OnlyIsPlain(k, x, pins, tracked);
    var t, leaves := Only(k, x, pins, tracked), Leaves(k, x, pins, tracked);
    KustomizationIsApart(k);
    forall p | p in t && p !in leaves ensures p in AllAncestors(leaves.Keys) && t[p] == Dir { }
  }

  lemma OnlyReads(k: string, x: Bytes, pins: Bytes, tracked: bool)
    requires IsActiveKustomization(k)
    ensures var t := Only(k, x, pins, tracked);
            ReadFile(t, k) == Data(x) && (tracked ==> ReadFile(t, PINS) == Data(pins))
    ensures Elems(Listed(k, tracked)) == if tracked then {k, PINS} else {k}
  {
    OnlyIsPlain(k, x, pins, tracked);
  }

  lemma OnlyIsSnapshot(k: string, x: Bytes, pins: Bytes, tracked: bool)
    requires IsActiveKustomization(k)
    ensures Snapshot(Only(k, x, pins, true), Elems(Listed(k, tracked))) && NoLinks(Only(k, x, pins, true))
    ensures Elems(Listed(k, tracked)) <= Only(k, x, pins, true).Keys
  {
    KustomizationIsApart(k);
    OnlyIsPlain(k, x, pins, true);
    OnlyReads(k, x, pins, tracked);
  }

  lemma CopyingIsValid(k: string, x: Bytes, y: Bytes, pins: Bytes, tracked: bool, checkout: Tree)
    requires IsActiveKustomization(k) && WellFormed(checkout) && NoLinks(checkout)
    ensures Copying(k, x, y, pins, tracked, checkout).Valid()
  {
    OnlyIsSnapshot(k, x, pins, tracked);
    OnlyIsSnapshot(k, y, pins, tracked);
  }

  lemma RewrittenOnly(w: World, pins: Bytes, k: string, x: Bytes, tracked: bool)
    requires IsActiveKustomization(k)
    ensures w.RewriteTree(pins, Only(k, x, pins, tracked)) == Only(k, w.rewrite(pins, x), pins, tracked)
  {
    KustomizationIsApart(k);
    PinsIsNoKustomization();
    var a, b := Leaves(k, x, pins, tracked), Leaves(k, w.rewrite(pins, x), pins, tracked);
    assert a.Keys == b.Keys;
    assert Grow(a).Keys == Grow(b).Keys;
  }

  lemma NothingRemembered(w: World, ev: Sync)
    ensures ev.Planned(w, map[]) == Elems(ev.files)
  {
  }

  lemma CopiedAlone(k: string, x: Bytes, pins: Bytes, tracked: bool)
    requires IsActiveKustomization(k)
    ensures var src, wanted := Only(k, x, pins, true), Leaves(k, x, pins, tracked).Keys;
            wanted <= src.Keys && Reconciled(src, map[], wanted, wanted) == Only(k, x, pins, tracked)
  {
    var src, leaves := Only(k, x, pins, true), Leaves(k, x, pins, tracked);
    OnlyIsPlain(k, x, pins, true);
    assert KeptPart(src, map[], leaves.Keys, leaves.Keys) == leaves;
    assert GitPart(map[]) == map[];
    assert map[] + Grow(leaves) == Grow(leaves);
  }

  /** The first sync copies what is listed and rewrites it. */
  lemma FirstPush(w: World, k: string, x: Bytes, y: Bytes, pins: Bytes, tracked: bool)
    requires IsActiveKustomization(k)
    ensures var ev := Copying(k, x, y, pins, tracked, map[]);
            && ev.Planned(w, map[]) == Elems(ev.files) <= ev.src.Keys && ev.Rewrites(w, map[])
            && ev.Pushed(w, map[]) == Only(k, w.rewrite(pins, x), pins, tracked)
  {
    var ev := Copying(k, x, y, pins, tracked, map[]);
    NothingRemembered(w, ev);
    OnlyIsPlain(k, x, pins, tracked);
    PlannedInputsRewrite(w, map[], ev, k);
    CopiedAlone(k, x, pins, tracked);
    RewrittenOnly(w, pins, k, x, tracked);
  }

  /** What it saves: the hash of the later source content beside that of the rendering of the earlier one. */
  function Remembering(w: World, k: string, x: Bytes, y: Bytes, pins: Bytes, tracked: bool): Metadata {
    var m := map[k := Entry(w.hash(y), w.hash(w.rewrite(pins, x)))];
    if tracked then m[PINS := Entry(w.hash(pins), w.hash(pins))] else m
  }

  lemma SavedAre(w: World, src: Tree, t: Tree, m: Metadata)
    requires forall f :: f in m ==>
      && IsBootstrapRewriteInputPath(f) && ReadFile(src, f).Data? && ReadFile(t, f).Data?
      && m[f] == Entry(w.hash(ReadFile(src, f).data), w.hash(ReadFile(t, f).data))
    ensures Readable(src, t, m.Keys) && Saved(w, src, t, m.Keys) == m
  {
  }

  lemma SavedIsRemembered(w: World, k: string, x: Bytes, y: Bytes, p1: Bytes, p2: Bytes, tracked: bool)
    requires IsActiveKustomization(k) && (tracked ==> p2 == p1)
    ensures var src, t := Only(k, y, p2, true), Only(k, w.rewrite(p1, x), p1, tracked);
            var wanted := Elems(Listed(k, tracked));
            Readable(src, t, wanted) && Saved(w, src, t, wanted) == Remembering(w, k, x, y, p1, tracked)
  {
    PinsIsNoKustomization();
    OnlyReads(k, y, p2, true);
    OnlyReads(k, w.rewrite(p1, x), p1, tracked);
    var m := Remembering(w, k, x, y, p1, tracked);
    assert m.Keys == Elems(Listed(k, tracked));
    SavedAre(w, Only(k, y, p2, true), Only(k, w.rewrite(p1, x), p1, tracked), m);
  }

  ghost function First(w: World, k: string, x: Bytes, y: Bytes, pins: Bytes, tracked: bool): Observed {
    Observed(Copying(k, x, y, pins, tracked, map[]), Only(k, w.rewrite(pins, x), pins, tracked),
             Remembering(w, k, x, y, pins, tracked), true)
  }

  /** A sync with rewriting that succeeds, lands and saves. */
  lemma CompletedStep(w: World, m: Metadata, ev: Sync, tree: Tree)
    requires ev.rewriting && ev.prepared && !ev.recloned && ev.Lands() && ev.save == Stored
    requires ev.Succeeds(w, m) && ev.Planned(w, m) <= ev.src.Keys && tree == ev.Pushed(w, m)
    requires Readable(ev.atSave, tree, Elems(ev.files))
    ensures Step(w, m, ev, tree, Saved(w, ev.atSave, tree, Elems(ev.files)), true)
  {
  }

  lemma CopyingSucceeds(w: World, m: Metadata, k: string, x: Bytes, y: Bytes, pins: Bytes, tracked: bool,
                        checkout: Tree)
    requires IsActiveKustomization(k)
    requires forall f :: f in Listed(k, tracked) ==> Replaceable(checkout, f)
    ensures Copying(k, x, y, pins, tracked, checkout).Succeeds(w, m)
  {
    OnlyIsPlain(k, x, pins, true);
    OnlyReads(k, x, pins, tracked);
    PlainSyncSucceeds(w, m, Copying(k, x, y, pins, tracked, checkout));
  }

  lemma FirstStep(w: World, k: string, x: Bytes, y: Bytes, pins: Bytes, tracked: bool)
    requires IsActiveKustomization(k)
    ensures var o := First(w, k, x, y, pins, tracked);
            && o.ev.Valid() && Step(w, map[], o.ev, o.tree, o.metadata, true)
            && Replaces(w, o.ev, o.tree, o.metadata, true)
  {
    CopyingIsValid(k, x, y, pins, tracked, map[]);
    FirstPush(w, k, x, y, pins, tracked);
    SavedIsRemembered(w, k, x, y, pins, pins, tracked);
    CopyingSucceeds(w, map[], k, x, y, pins, tracked, map[]);
    var o := First(w, k, x, y, pins, tracked);
    CompletedStep(w, map[], o.ev, o.tree);
  }

  /** A later sync of the edited source, with these pins or others, on the worktree that the first has pushed. */
  ghost function Later(w: World, k: string, x: Bytes, y: Bytes, p1: Bytes, p2: Bytes, tracked: bool): Observed {
    var t := Only(k, w.rewrite(p1, x), p1, tracked);
    Observed(Copying(k, y, y, p2, tracked, t), t, Remembering(w, k, x, y, p1, tracked), true)
  }

  /** It finds both hashes remembered. */
  lemma LaterSkips(w: World, k: string, x: Bytes, y: Bytes, p1: Bytes, p2: Bytes, tracked: bool)
    requires IsActiveKustomization(k) && (tracked ==> p2 == p1)
    ensures var o := Later(w, k, x, y, p1, p2, tracked);
            o.ev.Planned(w, o.metadata) == {} && !o.ev.Rewrites(w, o.metadata)
  {
    var o := Later(w, k, x, y, p1, p2, tracked);
    OnlyIsPlain(k, w.rewrite(p1, x), p1, tracked);
    OnlyIsPlain(k, y, p2, true);
    assert Skippable(w, o.ev.plan, o.ev.checkout, o.metadata, k);
    assert tracked ==> Skippable(w, o.ev.plan, o.ev.checkout, o.metadata, PINS);
    assert o.ev.Planned(w, o.metadata) == {};
    OnlyHasNothingStale(k, w.rewrite(p1, x), p1, tracked);
    assert Touched(o.ev.src, o.tree, {}, Elems(o.ev.files)) == {};
  }

  lemma OnlyIsNotGit(k: string, x: Bytes, pins: Bytes, tracked: bool)
    requires IsActiveKustomization(k)
    ensures GitPart(Only(k, x, pins, tracked)) == map[]
  {
    var t, leaves := Only(k, x, pins, tracked), Leaves(k, x, pins, tracked);
    KustomizationIsApart(k);
    forall p | p in t ensures !InGit(p) {
      if p !in leaves {
        var f :| f in leaves && p in Ancestors(f);
        AncestorsOutsideGit(f);
      }
    }
  }

  lemma OnlyIsKept(k: string, x: Bytes, pins: Bytes, tracked: bool)
    requires IsActiveKustomization(k)
    ensures var leaves := Leaves(k, x, pins, tracked); Kept(Grow(leaves), {}, leaves.Keys) == leaves.Keys
  {
    KustomizationIsApart(k);
    var leaves := Leaves(k, x, pins, tracked);
    forall p | p in leaves ensures p in Grow(leaves) && !leaves[p].Dir? && Ancestors(p) !! leaves.Keys { }
  }

  lemma AllKept(src: Tree, leaves: Tree)
    requires Kept(Grow(leaves), {}, leaves.Keys) == leaves.Keys && GitPart(Grow(leaves)) == map[]
    ensures Reconciled(src, Grow(leaves), {}, leaves.Keys) == Grow(leaves)
  {
    assert KeptPart(src, Grow(leaves), {}, leaves.Keys) == leaves;
  }

  /** And leaves everything as it is. */
  lemma NothingPlannedKeeps(k: string, x: Bytes, pins: Bytes, tracked: bool, src: Tree)
    requires IsActiveKustomization(k)
    ensures var t := Only(k, x, pins, tracked); Reconciled(src, t, {}, Elems(Listed(k, tracked))) == t
  {
    OnlyIsPlain(k, x, pins, tracked);
    OnlyIsKept(k, x, pins, tracked);
    OnlyIsNotGit(k, x, pins, tracked);
    AllKept(src, Leaves(k, x, pins, tracked));
  }

  lemma OnlyIsReplaceable(k: string, x: Bytes, pins: Bytes, tracked: bool, f: string)
    requires IsActiveKustomization(k) && f in Listed(k, tracked)
    ensures Replaceable(Only(k, x, pins, tracked), f)
  {
    OnlyIsPlain(k, x, pins, tracked);
  }

  lemma LaterSucceeds(w: World, k: string, x: Bytes, y: Bytes, p1: Bytes, p2: Bytes, tracked: bool)
    requires IsActiveKustomization(k)
    ensures var o := Later(w, k, x, y, p1, p2, tracked); o.ev.Succeeds(w, o.metadata)
  {
    forall f | f in Listed(k, tracked) { OnlyIsReplaceable(k, w.rewrite(p1, x), p1, tracked, f); }
    var t := Only(k, w.rewrite(p1, x), p1, tracked);
    CopyingSucceeds(w, Remembering(w, k, x, y, p1, tracked), k, y, y, p2, tracked, t);
  }

  lemma LaterPushes(w: World, k: string, x: Bytes, y: Bytes, p1: Bytes, p2: Bytes, tracked: bool)
    requires IsActiveKustomization(k) && (tracked ==> p2 == p1)
    ensures var o := Later(w, k, x, y, p1, p2, tracked);
            o.ev.Planned(w, o.metadata) <= o.ev.src.Keys && o.tree == o.ev.Pushed(w, o.metadata)
  {
    LaterSkips(w, k, x, y, p1, p2, tracked);
    NothingPlannedKeeps(k, w.rewrite(p1, x), p1, tracked, Only(k, y, p2, true));
  }

  lemma LaterStep(w: World, k: string, x: Bytes, y: Bytes, p1: Bytes, p2: Bytes, tracked: bool)
    requires IsActiveKustomization(k) && (tracked ==> p2 == p1)
    ensures var o := Later(w, k, x, y, p1, p2, tracked); Step(w, o.metadata, o.ev, o.tree, o.metadata, true)
  {
    var o := Later(w, k, x, y, p1, p2, tracked);
    LaterPushes(w, k, x, y, p1, p2, tracked);
    LaterSucceeds(w, k, x, y, p1, p2, tracked);
    SavedIsRemembered(w, k, x, y, p1, p2, tracked);
    CompletedStep(w, o.metadata, o.ev, o.tree);
  }

  lemma LaterIsValid(w: World, k: string, x: Bytes, y: Bytes, p1: Bytes, p2: Bytes, tracked: bool)
    requires IsActiveKustomization(k)
    ensures Later(w, k, x, y, p1, p2, tracked).ev.Valid()
  {
    OnlyIsPlain(k, w.rewrite(p1, x), p1, tracked);
    CopyingIsValid(k, y, y, p2, tracked, Only(k, w.rewrite(p1, x), p1, tracked));
  }

  /** The first sync and then any number of later ones. */
  ghost function Story(w: World, k: string, x: Bytes, y: Bytes, p1: Bytes, p2: Bytes, tracked: bool, later: nat)
    : seq<Observed>
  {
    [First(w, k, x, y, p1, tracked)] + seq(later, i => Later(w, k, x, y, p1, p2, tracked))
  }

  lemma RepeatedIsRun(w: World, a: Observed, b: Observed, later: nat)
    requires Step(w, map[], a.ev, a.tree, a.metadata, a.done) && Step(w, a.metadata, b.ev, b.tree, b.metadata, b.done)
    requires a.metadata == b.metadata
    ensures IsRun(w, map[], [a] + seq(later, i => b))
  {
    var run := [a] + seq(later, i => b);
    forall i | 0 <= i < |run| ensures StepAt(w, map[], run, i) {
      assert run[i] == if i == 0 then a else b;
      assert Before(map[], run, i) == if i == 0 then map[] else b.metadata;
    }
  }

  lemma RepeatedIsValid(a: Observed, b: Observed, later: nat)
    requires a.ev.Valid() && b.ev.Valid()
    ensures AllValid([a] + seq(later, i => b))
  {
    var run := [a] + seq(later, i => b);
    assert forall i :: 0 <= i < |run| ==> run[i] == a || run[i] == b;
  }

  lemma StoryIsRun(w: World, k: string, x: Bytes, y: Bytes, p1: Bytes, p2: Bytes, tracked: bool, later: nat)
    requires IsActiveKustomization(k) && (tracked ==> p2 == p1)
    ensures var run := Story(w, k, x, y, p1, p2, tracked, later);
            IsRun(w, map[], run) && AllValid(run)
  {
    FirstStep(w, k, x, y, p1, tracked);
    LaterStep(w, k, x, y, p1, p2, tracked);
    LaterIsValid(w, k, x, y, p1, p2, tracked);
    var a, b := First(w, k, x, y, p1, tracked), Later(w, k, x, y, p1, p2, tracked);
    RepeatedIsRun(w, a, b, later);
    var run := Story(w, k, x, y, p1, p2, tracked, later);
    assert run == [a] + seq(later, i => b);
    RepeatedIsValid(a, b, later);
  }

  lemma BehindTheFirst(w: World, k: string, x: Bytes, y: Bytes, pins: Bytes, tracked: bool)
    requires IsActiveKustomization(k)
    ensures var o := First(w, k, x, y, pins, tracked);
            var b := BehindAfter(w, map[], Behind([], map[]), o.ev, o.tree, o.metadata, true);
            && b.pins == pins && k in b.copied && b.copied[k] == x
            && (tracked ==> PINS in b.copied && b.copied[PINS] == pins)
  {
    FirstStep(w, k, x, y, pins, tracked);
    FirstPush(w, k, x, y, pins, tracked);
    OnlyIsPlain(k, x, pins, true);
    OnlyIsPlain(k, x, pins, tracked);
  }

  lemma LaterInDateIff(w: World, k: string, x: Bytes, y: Bytes, p1: Bytes, p2: Bytes, tracked: bool, b: Behind)
    requires IsActiveKustomization(k) && (tracked ==> p2 == p1)
    requires b.pins == p1 && k in b.copied && b.copied[k] == x && (tracked ==> PINS in b.copied && b.copied[PINS] == p1)
    ensures var o := Later(w, k, x, y, p1, p2, tracked);
            SkippedInDate(w, o.metadata, b.pins, b.copied, o.ev) <==> w.rewrite(p1, x) == w.rewrite(p2, y)
  {
    var o := Later(w, k, x, y, p1, p2, tracked);
    PinsIsNoKustomization();
    LaterSkips(w, k, x, y, p1, p2, tracked);
    OnlyIsPlain(k, y, p2, true);
    OnlyIsPlain(k, y, p2, tracked);
    assert k in Elems(o.ev.files);
    assert InDate(w, o.metadata, b.pins, b.copied, o.ev, k) <==> w.rewrite(p1, x) == w.rewrite(p2, y);
    assert tracked ==> InDate(w, o.metadata, b.pins, b.copied, o.ev, PINS);
  }

  lemma LaterIsFaithfulIff(w: World, k: string, x: Bytes, y: Bytes, p1: Bytes, p2: Bytes, tracked: bool)
    requires w.Assumed() && IsActiveKustomization(k) && (tracked ==> p2 == p1)
    ensures var o := Later(w, k, x, y, p1, p2, tracked);
            Faithful(w, o.ev, o.tree) <==> w.rewrite(p1, x) == w.rewrite(p2, y)
  {
    var run := Story(w, k, x, y, p1, p2, tracked, 1);
    StoryIsRun(w, k, x, y, p1, p2, tracked, 1);
    assert run[1] == Later(w, k, x, y, p1, p2, tracked);
    PushIsFromScratchIff(w, run, 1);
    BehindTheFirst(w, k, x, y, p1, tracked);
    LaterInDateIff(w, k, x, y, p1, p2, tracked, BehindAt(w, run, 1));
  }

  lemma FirstIsFaithful(w: World, k: string, x: Bytes, y: Bytes, pins: Bytes, tracked: bool)
    requires w.Assumed() && IsActiveKustomization(k)
    ensures var o := First(w, k, x, y, pins, tracked); Faithful(w, o.ev, o.tree)
  {
    FirstStep(w, k, x, y, pins, tracked);
    FirstPush(w, k, x, y, pins, tracked);
    var o := First(w, k, x, y, pins, tracked);
    StepIsFaithfulIff(w, map[], Behind([], map[]), o.ev, o.tree, o.metadata);
  }

  /** From nothing, the kustomization `k` is copied as `x` and pushed; by the time the metadata are saved it holds `y`.
      Then it is synced any number of times without further edits, the pins file being tracked and unchanged, or not
      tracked. Every one of these syncs leaves the worktree as it is, and is faithful if and only if the old pins make
      of `x` what the new ones make of `y`. */
  lemma LaterSyncsAreFaithfulIff(w: World, k: string, x: Bytes, y: Bytes, p1: Bytes, p2: Bytes, tracked: bool,
                                 later: nat)
    returns (run: seq<Observed>)
    requires w.Assumed() && IsActiveKustomization(k) && (tracked ==> p2 == p1)
    ensures |run| == later + 1 && IsRun(w, map[], run) && AllValid(run)
    ensures forall i :: 0 <= i <= later ==> run[i].done
    ensures run[0].ev == Copying(k, x, y, p1, tracked, map[]) && Faithful(w, run[0].ev, run[0].tree)
    ensures forall i :: 0 < i <= later ==>
      run[i].ev == Copying(k, y, y, p2, tracked, run[0].tree) && run[i].tree == run[0].tree
    ensures forall i :: 0 < i <= later ==>
      (Faithful(w, run[i].ev, run[i].tree) <==> w.rewrite(p1, x) == w.rewrite(p2, y))
  {
    run := Story(w, k, x, y, p1, p2, tracked, later);
    StoryIsRun(w, k, x, y, p1, p2, tracked, later);
    FirstIsFaithful(w, k, x, y, p1, tracked);
    LaterIsFaithfulIff(w, k, x, y, p1, p2, tracked);
    assert forall i :: 0 < i <= later ==> run[i] == Later(w, k, x, y, p1, p2, tracked);
  }

  /** An edit that comes while the first sync pushes is hashed as if it had been copied. With the pins file tracked and
      never touched, no later sync brings it over until the kustomization is edited again. */
  lemma EditDuringSyncGoesStale(w: World, k: string, x: Bytes, y: Bytes, pins: Bytes, later: nat)
    returns (run: seq<Observed>)
    requires w.Assumed() && IsActiveKustomization(k) && w.rewrite(pins, x) != w.rewrite(pins, y)
    ensures |run| == later + 1 && IsRun(w, map[], run) && AllValid(run)
    ensures forall i :: 0 <= i <= later ==> run[i].done
    ensures run[0].ev == Copying(k, x, y, pins, true, map[]) && Faithful(w, run[0].ev, run[0].tree)
    ensures forall i :: 0 < i <= later ==>
      run[i].ev == Copying(k, y, y, pins, true, run[0].tree) && !Faithful(w, run[i].ev, run[i].tree)
  {
    run := LaterSyncsAreFaithfulIff(w, k, x, y, pins, pins, true, later);
  }

  lemma NobodyEdits(k: string, x: Bytes, pins: Bytes, checkout: Tree)
    requires IsActiveKustomization(k)
    ensures StillUntilSaved(Copying(k, x, x, pins, false, checkout))
  {
    PinsIsNoKustomization();
  }

  /** The script reads the pins from the source worktree whether git lists the file or not. When it does not, new
      pins go unnoticed, even if nobody edits during a sync. */
  lemma UntrackedPinsGoStale(w: World, k: string, x: Bytes, p1: Bytes, p2: Bytes, later: nat)
    returns (run: seq<Observed>)
    requires w.Assumed() && IsActiveKustomization(k) && w.rewrite(p1, x) != w.rewrite(p2, x)
    ensures |run| == later + 1 && IsRun(w, map[], run) && AllValid(run)
    ensures forall i :: 0 <= i <= later ==> run[i].done
    ensures forall i :: 0 <= i <= later ==> StillUntilSaved(run[i].ev)
    ensures run[0].ev == Copying(k, x, x, p1, false, map[]) && Faithful(w, run[0].ev, run[0].tree)
    ensures forall i :: 0 < i <= later ==>
      run[i].ev == Copying(k, x, x, p2, false, run[0].tree) && !Faithful(w, run[i].ev, run[i].tree)
  {
    run := LaterSyncsAreFaithfulIff(w, k, x, x, p1, p2, false, later);
    forall i | 0 <= i <= later ensures StillUntilSaved(run[i].ev) {
      NobodyEdits(k, x, if i == 0 then p1 else p2, if i == 0 then map[] else run[0].tree);
    }
  }

  function Stamp(pins: Bytes, data: Bytes): Bytes {
    if data == [] then [] else [if pins == [] then 0 else pins[0]] + data[1..]
  }

  /** The assumptions about hashing and rewriting can be met, by hashes that tell contents apart and a rewrite whose
      outcome depends on the pins and on the content. */
  lemma AssumptionsCanBeMet() returns (w: World)
    ensures w.Assumed()
    ensures w.rewrite([1], [0]) != w.rewrite([2], [0]) && w.rewrite([1], [0, 1]) != w.rewrite([1], [0, 2])
  {
    w := World((x: Bytes) => ['#'] + seq(|x|, i requires 0 <= i < |x| => (x[i] as char)), Stamp);
    forall x: Bytes, y: Bytes | w.hash(x) == w.hash(y) ensures x == y {
      assert |w.hash(x)| == 1 + |x| && |w.hash(y)| == 1 + |y|;
      forall i | 0 <= i < |x| ensures x[i] == y[i] {
        assert w.hash(x)[i + 1] == x[i] as char && w.hash(y)[i + 1] == y[i] as char;
      }
    }
    assert Stamp([1], [0]) == [1] && Stamp([2], [0]) == [2];
    assert Stamp([1], [0, 1]) == [1, 1] && Stamp([1], [0, 2]) == [1, 2];
    assert [1, 1][1] != [1, 2][1];
  }

  /** So in every directory of manifests there is a kustomization of which both can happen. */
  lemma SomeKustomizationsGoStale(dir: string, later: nat)
    returns (w: World, edited: seq<Observed>, untracked: seq<Observed>)
    requires dir == "" || dir[|dir| - 1] == '/'
    ensures w.Assumed() && |edited| == |untracked| == later + 1
    ensures IsRun(w, map[], edited) && AllValid(edited) && IsRun(w, map[], untracked) && AllValid(untracked)
    ensures forall i :: 0 < i <= later ==> !Faithful(w, edited[i].ev, edited[i].tree)
    ensures forall i :: 0 < i <= later ==> !Faithful(w, untracked[i].ev, untracked[i].tree)
  {
    w := AssumptionsCanBeMet();
    var name := "kustomization.yaml";
    assert '/' !in name;
    ActiveKustomizationIff(dir, name);
    edited := EditDuringSyncGoesStale(w, MANIFESTS + dir + "kustomization.yaml", [0, 1], [0, 2], [1], later);
    untracked := UntrackedPinsGoStale(w, MANIFESTS + dir + "kustomization.yaml", [0], [1], [2], later);
  }
}
