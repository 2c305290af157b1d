/** Refreshing applications after a push and waiting until they have seen the commit. Everything outside the
    program answers from scripts that may say anything; a log records what was asked and what was seen. */
module Refresh {
  import opened Options
  import opened Text
  import opened RepoPaths
  import opened Repository
  import opened AffectedPlan

  datatype Mode = ModeNone | ModeAll | ModeAffected | Unsupported

  datatype AppStatus = AppStatus(phase: string, revision: string, revisions: seq<string>, sync: string)

  /** One answer of the cluster while waiting, and how the checks made after it come out. */
  datatype Poll = Poll(apps: Option<map<string, AppStatus>>, superseded: bool, expired: bool, cancelled: bool)

  datatype Event =
    | Refreshed(name: string, ok: bool)
    | Observed(names: seq<string>, apps: map<string, AppStatus>)

  predicate RevisionMatches(got: string, want: string) {
    var g, w := TrimSpace(got), TrimSpace(want);
    g != "" && w != "" && (g == w || HasPrefix(g, w) || HasPrefix(w, g))
  }

  predicate ApplicationObservedRevision(app: AppStatus, commit: string) {
    RevisionMatches(app.revision, commit) || exists r :: r in app.revisions && RevisionMatches(r, commit)
  }

  /** Not running an operation, and at a revision that matches the commit. */
  predicate Seen(apps: map<string, AppStatus>, name: string, commit: string) {
    name in apps && apps[name].phase != "Running" && ApplicationObservedRevision(apps[name], commit)
  }

  /** Of two revisions without white space around them one has to be a beginning of the other, so that of two of one
      length only equal ones match; blank ones match nothing. */
  lemma RevisionMatchesIff(got: string, want: string)
    requires TrimSpace(got) == got && TrimSpace(want) == want
    ensures RevisionMatches(got, want) <==>
      got != "" && want != "" && exists rest :: got == want + rest || want == got + rest
    ensures |got| == |want| ==> (RevisionMatches(got, want) <==> got != "" && got == want)
  {
    if HasPrefix(got, want) {
      assert got == want + got[|want|..];
    }
    if HasPrefix(want, got) {
      assert want == got + want[|got|..];
    }
    forall rest | got == want + rest || want == got + rest ensures HasPrefix(got, want) || HasPrefix(want, got) {
      assert got == want + rest ==> got[..|want|] == want;
      assert want == got + rest ==> want[..|got|] == got;
    }
  }

  /** An application is seen at a commit when it is listed, no operation runs on it, and its revision or one of its
      revisions matches. */
  lemma SeenIff(apps: map<string, AppStatus>, name: string, commit: string, status: AppStatus)
    requires name in apps && apps[name] == status
    ensures status.phase == "Running" ==> !Seen(apps, name, commit)
    ensures status.phase != "Running" ==>
      (Seen(apps, name, commit) <==>
        exists r :: r in [status.revision] + status.revisions && RevisionMatches(r, commit))
  {
    assert status.revision in [status.revision] + status.revisions;
    forall r ensures r in [status.revision] + status.revisions <==> r == status.revision || r in status.revisions { }
  }

  ghost predicate AllSeen(apps: map<string, AppStatus>, names: seq<string>, commit: string) {
    forall name :: name in names ==> Seen(apps, name, commit)
  }

  /** After an accepted refresh of the application an observation shows it at the commit. */
  ghost predicate SeenInLog(log: seq<Event>, name: string, commit: string) {
    exists h, i :: 0 <= h < i < |log| && log[h] == Refreshed(name, true) && SeenAt(log, i, name, commit)
  }

  ghost predicate SeenAt(log: seq<Event>, i: nat, name: string, commit: string) {
    i < |log| && log[i].Observed? && name in log[i].names && Seen(log[i].apps, name, commit)
  }

  /** Whenever a child is asked to refresh, the root has been refreshed before and then seen at the commit. */
  ghost predicate RootBeforeChildren(log: seq<Event>, commit: string) {
    forall i :: 0 <= i < |log| && log[i].Refreshed? && log[i].name != ROOT_APPLICATION ==>
      RootDone(log[..i], commit)
  }

  ghost predicate RootDone(log: seq<Event>, commit: string) {
    exists j, k :: 0 <= j < k < |log| && log[j] == Refreshed(ROOT_APPLICATION, true)
      && log[k].Observed? && log[k].names == [ROOT_APPLICATION] && Seen(log[k].apps, ROOT_APPLICATION, commit)
  }

  ghost function AppNames(apps: seq<App>): set<string> {
    set a | a in apps && a.name != "" :: a.name
  }

  ghost function ConcernedApps(repo: Repo, apps: seq<App>, changed: seq<string>): set<string> {
    set name | name in AppNames(apps) && (exists f :: f in NormalizedSet(changed) && Concerns(repo, apps, f, name))
  }

  /** Before a child is asked, an accepted refresh of the root is followed by an observation of the root, listed, at
      the commit and with no operation running. */
  lemma OrderMeans(log: seq<Event>, commit: string, i: nat) returns (j: nat, k: nat)
    requires RootBeforeChildren(log, commit) && i < |log| && log[i].Refreshed? && log[i].name != "root-application"
    ensures j < k < i && log[j] == Refreshed("root-application", true) && log[k].Observed?
    ensures "root-application" in log[k].names && "root-application" in log[k].apps
            && log[k].apps["root-application"].phase != "Running"
            && ApplicationObservedRevision(log[k].apps["root-application"], commit)
  {
    assert RootDone(log[..i], commit);
    var front := log[..i];
    j, k :| 0 <= j < k < |front| && front[j] == Refreshed(ROOT_APPLICATION, true)
      && front[k].Observed? && front[k].names == [ROOT_APPLICATION] && Seen(front[k].apps, ROOT_APPLICATION, commit);
    assert log[j] == front[j] && log[k] == front[k];
  }

  /** And what it means to be seen after a refresh. */
  lemma SeenMeans(log: seq<Event>, name: string, commit: string) returns (h: nat, i: nat)
    requires SeenInLog(log, name, commit)
    ensures h < i < |log| && log[h] == Refreshed(name, true) && log[i].Observed? && name in log[i].names
    ensures name in log[i].apps && log[i].apps[name].phase != "Running"
            && ApplicationObservedRevision(log[i].apps[name], commit)
  {
    h, i :| 0 <= h < i < |log| && log[h] == Refreshed(name, true) && SeenAt(log, i, name, commit);
  }

  // ---- logs grow ----

  lemma SeenStays(log: seq<Event>, more: seq<Event>, name: string, commit: string)
    ensures SeenInLog(log, name, commit) ==> SeenInLog(log + more, name, commit)
    ensures SeenInLog(more, name, commit) ==> SeenInLog(log + more, name, commit)
  {
    if SeenInLog(log, name, commit) {
      var h, i :| 0 <= h < i < |log| && log[h] == Refreshed(name, true) && SeenAt(log, i, name, commit);
      assert (log + more)[h] == log[h] && SeenAt(log + more, i, name, commit);
    }
    if SeenInLog(more, name, commit) {
      var h, i :| 0 <= h < i < |more| && more[h] == Refreshed(name, true) && SeenAt(more, i, name, commit);
      assert (log + more)[|log| + h] == more[h] && SeenAt(log + more, |log| + i, name, commit);
    }
  }

  lemma SeenAfterStage(before: seq<Event>, tail: seq<Event>, first: seq<string>, second: seq<string>, all: seq<string>,
                       commit: string)
    requires Elems(all) <= Elems(first) + Elems(second)
    requires forall name :: name in first ==> SeenInLog(before, name, commit)
    requires forall name :: name in second ==> SeenInLog(tail, name, commit)
    ensures forall name :: name in all ==> SeenInLog(before + tail, name, commit)
  {
    forall name | name in all ensures SeenInLog(before + tail, name, commit) {
      assert name in Elems(all);
      SeenStays(before, tail, name, commit);
    }
  }

  lemma RootDoneStays(log: seq<Event>, more: seq<Event>, commit: string)
    requires RootDone(log, commit)
    ensures RootDone(log + more, commit)
  {
    var j, k :| 0 <= j < k < |log| && log[j] == Refreshed(ROOT_APPLICATION, true)
      && log[k].Observed? && log[k].names == [ROOT_APPLICATION] && Seen(log[k].apps, ROOT_APPLICATION, commit);
    assert (log + more)[j] == log[j] && (log + more)[k] == log[k];
  }

  /** Once the root is done, anything may follow. */
  lemma ChildrenMayFollow(log: seq<Event>, more: seq<Event>, commit: string)
    ensures RootBeforeChildren(log, commit) && RootDone(log, commit) ==> RootBeforeChildren(log + more, commit)
  {
    if RootBeforeChildren(log, commit) && RootDone(log, commit) {
      var all := log + more;
      forall i | 0 <= i < |all| && all[i].Refreshed? && all[i].name != ROOT_APPLICATION
        ensures RootDone(all[..i], commit)
      {
        if i < |log| {
          assert all[..i] == log[..i];
        } else {
          assert all[..i] == log + more[..i - |log|];
          RootDoneStays(log, more[..i - |log|], commit);
        }
      }
    }
  }

  ghost predicate IsRefreshOf(log: seq<Event>, names: seq<string>) {
    |log| == |names| && forall i :: 0 <= i < |log| ==> log[i].Refreshed? && log[i].name == names[i]
  }

  ghost predicate AllAccepted(log: seq<Event>) {
    forall i :: 0 <= i < |log| && log[i].Refreshed? ==> log[i].ok
  }

  /** The names that the log shows asked to refresh. */
  ghost function AskedIn(log: seq<Event>): set<string> {
    set i | 0 <= i < |log| && log[i].Refreshed? :: log[i].name
  }

  lemma AskedAppend(log: seq<Event>, more: seq<Event>)
    ensures AskedIn(log + more) == AskedIn(log) + AskedIn(more)
  {
    var all := log + more;
    forall i | 0 <= i < |log| ensures all[i] == log[i] { }
    forall i | 0 <= i < |more| ensures all[|log| + i] == more[i] { }
    forall n | n in AskedIn(more) ensures n in AskedIn(all) {
      var i :| 0 <= i < |more| && more[i].Refreshed? && more[i].name == n;
      assert all[|log| + i] == more[i];
    }
  }

  lemma AskedByStage(tail: seq<Event>, names: seq<string>)
    requires |tail| >= |names| && IsRefreshOf(tail[..|names|], names)
    requires forall i :: |names| <= i < |tail| ==> tail[i].Observed?
    ensures AskedIn(tail) == Elems(names)
  {
    forall i | 0 <= i < |names| ensures tail[i].Refreshed? && tail[i].name == names[i] {
      assert tail[..|names|][i] == tail[i];
    }
    forall n | n in names ensures n in AskedIn(tail) {
      var i :| 0 <= i < |names| && names[i] == n;
      assert tail[i].Refreshed? && tail[i].name == n;
    }
  }

  lemma ObservingAsksNothing(log: seq<Event>, names: seq<string>, apps: map<string, AppStatus>)
    ensures AskedIn(log + [Observed(names, apps)]) == AskedIn(log)
  {
    AskedAppend(log, [Observed(names, apps)]);
    assert AskedIn([Observed(names, apps)]) == {};
  }

  predicate Behind(apps: map<string, AppStatus>, name: string) {
    name in apps && apps[name].sync != "" && apps[name].sync != "Synced"
  }

  /** Not synced is a status that is known and another. */
  lemma BehindIff(apps: map<string, AppStatus>, name: string)
    ensures Behind(apps, name) <==> name in apps && apps[name].sync !in {"", "Synced"}
  {
  }

  /** The names that an observation in the log shows not synced. */
  ghost function BehindInLog(log: seq<Event>): set<string> {
    set i, n | 0 <= i < |log| && log[i].Observed? && n in log[i].names && n != "" && Behind(log[i].apps, n) :: n
  }

  lemma BehindAppend(log: seq<Event>, more: seq<Event>)
    ensures BehindInLog(log + more) == BehindInLog(log) + BehindInLog(more)
  {
    var all := log + more;
    forall n | n in BehindInLog(more) ensures n in BehindInLog(all) {
      var i :| 0 <= i < |more| && more[i].Observed? && n in more[i].names && Behind(more[i].apps, n);
      assert all[|log| + i] == more[i];
    }
    forall n | n in BehindInLog(log) ensures n in BehindInLog(all) {
      var i :| 0 <= i < |log| && log[i].Observed? && n in log[i].names && Behind(log[i].apps, n);
      assert all[i] == log[i];
    }
  }

  lemma {:induction false} LastNamedIsListed(apps: seq<App>, name: string)
    ensures LastNamed(apps, name).Some? ==>
      LastNamed(apps, name).value in apps && LastNamed(apps, name).value.name == name
  {
    if apps != [] && apps[|apps| - 1].name != name {
      LastNamedIsListed(apps[..|apps| - 1], name);
    }
  }

  lemma ConcernedName(repo: Repo, apps: seq<App>, changed: seq<string>, name: string)
    ensures name in ConcernedApps(repo, apps, changed) <==>
      exists f :: f in SortedSeq(NormalizedSet(changed)) && Concerns(repo, apps, f, name)
  {
    var files := SortedSeq(NormalizedSet(changed));
    assert forall f :: f in files <==> f in Elems(files);
    LastNamedIsListed(apps, name);
    assert LastNamed(apps, name).Some? && name != "" ==> name in AppNames(apps);
  }

  /** A plan lists exactly the applications some changed file concerns. */
  lemma PlanLists(repo: Repo, apps: seq<App>, changed: seq<string>, index: Index, plan: Plan)
    requires IsIndex(repo, apps, index) && IsPlan(repo, index, SortedSeq(NormalizedSet(changed)), plan)
    ensures Elems(plan.affected) == ConcernedApps(repo, apps, changed)
    ensures "" !in plan.affected
  {
    forall name ensures name in Elems(plan.affected) <==> name in ConcernedApps(repo, apps, changed) {
      PlanMeansReachability(repo, apps, index, SortedSeq(NormalizedSet(changed)), plan, name);
      ConcernedName(repo, apps, changed, name);
    }
    assert "" in plan.affected <==> "" in Elems(plan.affected);
  }

  ghost predicate IsPlanFor(repo: Repo, apps: seq<App>, changed: seq<string>, plan: Plan) {
    exists index :: IsIndex(repo, apps, index) && IsPlan(repo, index, SortedSeq(NormalizedSet(changed)), plan)
  }

  /** A result names the concerned applications, and the plan's skipped files and manual applications. */
  ghost predicate ListsOf(plan: Plan, concerned: set<string>,
                          affected: seq<string>, skipped: seq<string>, manual: seq<string>)
  {
    && Elems(affected) == Elems(plan.affected) == concerned
    && Elems(skipped) - {""} == Elems(plan.skipped) - {""} && Elems(manual) - {""} == Elems(plan.manual) - {""}
    && Sorted(plan.affected) && "" !in plan.affected && (plan.rootFirst <==> ROOT_APPLICATION in concerned)
  }

  ghost predicate Records(repo: Repo, apps: seq<App>, changed: seq<string>, plan: Plan,
                          affected: seq<string>, skipped: seq<string>, manual: seq<string>)
  {
    IsPlanFor(repo, apps, changed, plan) && ListsOf(plan, ConcernedApps(repo, apps, changed), affected, skipped, manual)
  }

  /** The result is that of the plan. */
  ghost predicate Recorded(repo: Repo, apps: seq<App>, changed: seq<string>,
                           affected: seq<string>, skipped: seq<string>, manual: seq<string>)
  {
    exists plan :: Records(repo, apps, changed, plan, affected, skipped, manual)
  }

  lemma SameLists(plan: Plan, concerned: set<string>,
                  affected: seq<string>, skipped: seq<string>, manual: seq<string>)
    requires ListsOf(plan, concerned, plan.affected, plan.skipped, plan.manual)
    requires Elems(affected) == Elems(plan.affected) - {""}
    requires Elems(skipped) == Elems(plan.skipped) - {""} && Elems(manual) == Elems(plan.manual) - {""}
    ensures ListsOf(plan, concerned, affected, skipped, manual)
  {
    assert "" in Elems(plan.affected) <==> "" in plan.affected;
  }

  lemma ListsHold(plan: Plan, concerned: set<string>,
                  affected: seq<string>, skipped: seq<string>, manual: seq<string>, x: string)
    requires ListsOf(plan, concerned, affected, skipped, manual) && x != ""
    ensures x in affected <==> x in concerned
    ensures x in skipped <==> x in plan.skipped
    ensures x in manual <==> x in plan.manual
  {
    assert x in affected <==> x in Elems(affected);
    assert x in skipped <==> x in Elems(skipped) - {""};
    assert x in manual <==> x in Elems(manual) - {""};
    assert x in plan.skipped <==> x in Elems(plan.skipped) - {""};
    assert x in plan.manual <==> x in Elems(plan.manual) - {""};
  }

  /** What a result of the affected mode says: which applications a changed file concerns, which changed files concern
      none, and which of the applications have no automated sync. */
  lemma RecordedIs(repo: Repo, apps: seq<App>, changed: seq<string>,
                   affected: seq<string>, skipped: seq<string>, manual: seq<string>, x: string)
    requires Recorded(repo, apps, changed, affected, skipped, manual) && x != ""
    ensures x in affected <==>
      x in AppNames(apps) && exists f :: f in NormalizedSet(changed) && Concerns(repo, apps, f, x)
    ensures x in skipped <==> x in NormalizedSet(changed) && !exists name :: Concerns(repo, apps, x, name)
    ensures x in manual <==>
      x in affected && LastNamed(apps, x).Some? && !LastNamed(apps, x).value.automated
  {
    var plan :| Records(repo, apps, changed, plan, affected, skipped, manual);
    var files := SortedSeq(NormalizedSet(changed));
    var index :| IsIndex(repo, apps, index) && IsPlan(repo, index, files, plan);
    ListsHold(plan, ConcernedApps(repo, apps, changed), affected, skipped, manual, x);
    assert x in files <==> x in Elems(files);
    assert x in plan.affected <==> x in Elems(plan.affected);
    UnmatchedMembers(repo, index, files, x);
    if x in files {
      SkippedOrConcerning(repo, apps, index, files, plan, x);
    }
    PlanFlagsMean(repo, apps, index, files, plan, x);
  }

  /** What a refresh stage adds to the log. */
  ghost predicate IsStage(tail: seq<Event>, names: seq<string>, ok: bool, commit: string) {
    && |tail| >= |names| && IsRefreshOf(tail[..|names|], names)
    && (forall i :: |names| <= i < |tail| ==> tail[i].Observed?)
    && (ok || |tail| > |names| ==> AllAccepted(tail))
    && (ok && commit != "" ==> forall name :: name in names ==> SeenInLog(tail, name, commit))
    && (ok && commit != "" && names == [ROOT_APPLICATION] ==> RootDone(tail, commit))
  }

  lemma NoBlank(a: set<string>, b: set<string>)
    requires a <= {ROOT_APPLICATION} && "" !in b
    ensures a + b - {""} == a + b
  {
    assert "" !in {ROOT_APPLICATION};
  }

  lemma RootStageKeepsOrder(tail: seq<Event>, ok: bool, commit: string)
    requires IsStage(tail, [ROOT_APPLICATION], ok, commit)
    ensures RootBeforeChildren(tail, commit)
  {
    assert tail[..1][0] == tail[0];
  }

  function WithoutString(values: seq<string>, drop: string): (r: seq<string>)
    ensures forall v :: v in r <==> v in values && v != drop
  {
    if values == [] then []
    else
      assert values == [values[0]] + values[1..];
      (if values[0] != drop then [values[0]] else []) + WithoutString(values[1..], drop)
  }

  lemma {:induction false} WithoutStringKeepsOrder(values: seq<string>, drop: string)
    requires Sorted(values)
    ensures Sorted(WithoutString(values, drop))
  {
    if values != [] {
      var rest := WithoutString(values[1..], drop);
      WithoutStringKeepsOrder(values[1..], drop);
      forall k | 0 <= k < |rest| ensures Less(values[0], rest[k]) {
        assert rest[k] in rest && rest[k] in values[1..];
        var j :| 0 <= j < |values| - 1 && values[1..][j] == rest[k];
        assert values[j + 1] == rest[k];
      }
    }
  }

  lemma WithoutStringIsSorted(values: seq<string>, drop: string)
    requires Sorted(values)
    ensures WithoutString(values, drop) == SortedSeq(Elems(values) - {drop})
  {
    WithoutStringKeepsOrder(values, drop);
    SortedIsUnique(WithoutString(values, drop), SortedSeq(Elems(values) - {drop}));
  }

  class Session {
    const repo: Repo
    const commit: string
    const changed: seq<string>
    /** What `kubectl` answers: to each annotate, each listing and each poll. Past the end everything fails. */
    const refreshes: seq<bool>
    const listings: seq<Option<seq<App>>>
    const polls: seq<Poll>
    var nextRefresh: nat
    var nextListing: nat
    var nextPoll: nat

    var log: seq<Event>
    var affected: seq<string>
    var refreshed: seq<string>
    var skipped: seq<string>
    var manual: seq<string>
    var unsynced: seq<string>

    constructor (repo: Repo, commit: string, changed: seq<string>,
                 refreshes: seq<bool>, listings: seq<Option<seq<App>>>, polls: seq<Poll>)
      ensures this.repo == repo && this.commit == commit && this.changed == changed
      ensures this.refreshes == refreshes && this.listings == listings && this.polls == polls
      ensures Fresh()
    {
      this.repo, this.commit, this.changed := repo, commit, changed;
      this.refreshes, this.listings, this.polls := refreshes, listings, polls;
      nextRefresh, nextListing, nextPoll := 0, 0, 0;
      log, affected, refreshed, skipped, manual, unsynced := [], [], [], [], [], [];
    }

    /** Nothing asked, seen or recorded yet. */
    ghost predicate Fresh()
      reads this
    {
      && log == [] && affected == refreshed == skipped == manual == unsynced == []
      && nextRefresh == nextListing == nextPoll == 0
    }

    /** The `n` answers from `from` on exist and are all yes. */
    ghost predicate Accepts(from: nat, n: nat) {
      forall i :: from <= i < from + n ==> SaysYes(i)
    }

    predicate SaysYes(i: nat) {
      i < |refreshes| && refreshes[i]
    }

    lemma AcceptsStep(from: nat, n: nat)
      ensures Accepts(from, n + 1) <==> Accepts(from, n) && SaysYes(from + n)
    {
      if Accepts(from, n) && SaysYes(from + n) {
        forall i | from <= i < from + n + 1 ensures SaysYes(i) { }
      }
    }

    /** Asks every application to refresh, going on after a failure. */
    method RefreshApplications(names: seq<string>) returns (ok: bool)
      modifies `nextRefresh, `log
      ensures |log| >= |old(log)| && log[..|old(log)|] == old(log)
      ensures IsRefreshOf(log[|old(log)|..], names) && (ok <==> AllAccepted(log[|old(log)|..]))
      ensures nextRefresh == old(nextRefresh) + |names| && (ok <==> Accepts(old(nextRefresh), |names|))
      ensures ok ==> forall name :: name in names ==> Refreshed(name, true) in log[|old(log)|..]
    {
      ok := true;
      ghost var news: seq<Event> := [];
      var i := 0;
      while i < |names|
        invariant 0 <= i <= |names| && log == old(log) + news && IsRefreshOf(news, names[..i])
        invariant ok <==> AllAccepted(news)
        invariant nextRefresh == old(nextRefresh) + i && (ok <==> Accepts(old(nextRefresh), i))
        invariant ok ==> forall name :: name in names[..i] ==> Refreshed(name, true) in news
      {
        var answer := nextRefresh < |refreshes| && refreshes[nextRefresh];
        AcceptsStep(old(nextRefresh), i);
        nextRefresh := nextRefresh + 1;
        news := news + [Refreshed(names[i], answer)];
        log := log + [Refreshed(names[i], answer)];
        ok := ok && answer;
        assert names[..i + 1] == names[..i] + [names[i]];
        i := i + 1;
      }
      assert names[..i] == names;
      assert log[|old(log)|..] == news;
    }

    method PendingApplications(names: seq<string>, apps: map<string, AppStatus>) returns (pending: seq<string>)
      ensures pending == [] <==> AllSeen(apps, names, commit)
    {
      pending := [];
      var i := 0;
      while i < |names|
        invariant 0 <= i <= |names|
        invariant pending == [] <==> AllSeen(apps, names[..i], commit)
      {
        var name := names[i];
        assert names[..i + 1] == names[..i] + [name];
        assert name in names[..i + 1];
        if name !in apps {
          pending := pending + [name + " (missing)"];
        } else if apps[name].phase == "Running" {
          pending := pending + [name + " (operation running)"];
        } else if !ApplicationObservedRevision(apps[name], commit) {
          pending := pending + [name + " (revision)"];
        }
        i := i + 1;
      }
      assert names[..i] == names;
    }

    /** Poll `p` is the first from `from` on that shows every application at the commit, and none before it ends
        the wait. */
    ghost predicate Answered(names: seq<string>, from: nat, p: nat) {
      && from <= p < |polls| && polls[p].apps.Some? && AllSeen(polls[p].apps.value, names, commit)
      && forall q :: from <= q < p ==> GoesOn(names, q)
    }

    ghost predicate GoesOn(names: seq<string>, q: nat) {
      && q < |polls| && polls[q].apps.Some? && !AllSeen(polls[q].apps.value, names, commit)
      && !polls[q].superseded && !polls[q].expired && !polls[q].cancelled
    }

    lemma NoAnswer(names: seq<string>, from: nat, at: nat)
      requires from <= at < |polls| && (forall q :: from <= q < at ==> GoesOn(names, q)) && !GoesOn(names, at)
      requires polls[at].apps.Some? ==> !AllSeen(polls[at].apps.value, names, commit)
      ensures forall p: nat :: !Answered(names, from, p)
    {
      forall p: nat ensures !Answered(names, from, p) {
        assert from <= p < at ==> GoesOn(names, p);
      }
    }

    predicate Waits(names: seq<string>) {
      names != [] && commit != ""
    }

    /** The wait is over at once, or some poll answers it. */
    ghost predicate WillBeSeen(names: seq<string>, from: nat) {
      Waits(names) ==> exists p :: Answered(names, from, p)
    }

    /** The poll after the one that answers the wait. */
    ghost function PollAfter(names: seq<string>, from: nat): nat {
      if Waits(names) && exists p :: Answered(names, from, p) then
        var p: nat :| Answered(names, from, p); p + 1
      else from
    }

    lemma AnsweredOnce(names: seq<string>, from: nat, p: nat)
      requires Waits(names) && Answered(names, from, p)
      ensures PollAfter(names, from) == p + 1
    {
      forall q: nat | Answered(names, from, q) ensures q == p {
        assert q < p ==> GoesOn(names, q);
        assert p < q ==> GoesOn(names, p);
      }
    }

    /** Polls until every application is seen at the commit; an empty list or commit is not waited for. */
    method WaitForApplicationsObserved(names: seq<string>) returns (ok: bool, behind: seq<string>)
      modifies `nextPoll, `log
      ensures ok <==> WillBeSeen(names, old(nextPoll))
      ensures ok ==> nextPoll == PollAfter(names, old(nextPoll))
      ensures !ok || !Waits(names) ==> log == old(log)
      ensures !Waits(names) ==> behind == []
      ensures ok && Waits(names) ==>
        exists apps :: AllSeen(apps, names, commit) && log == old(log) + [Observed(names, apps)]
                       && forall n :: n in behind <==> n in names && Behind(apps, n)
    {
      behind := [];
      if names == [] || commit == "" {
        return true, [];
      }
      ghost var from := nextPoll;
      while nextPoll < |polls|
        invariant log == old(log) && from <= nextPoll
        invariant forall q :: from <= q < nextPoll ==> GoesOn(names, q)
        decreases |polls| - nextPoll
      {
        var poll := polls[nextPoll];
        ghost var at := nextPoll;
        nextPoll := nextPoll + 1;
        if poll.apps.None? {
          NoAnswer(names, from, at);
          return false, [];
        }
        var pending := PendingApplications(names, poll.apps.value);
        behind := UnsyncedApplications(poll.apps.value, names);
        if pending == [] {
          log := log + [Observed(names, poll.apps.value)];
          AnsweredOnce(names, from, at);
          return true, behind;
        }
        if poll.superseded || poll.expired || poll.cancelled {
          NoAnswer(names, from, at);
          return false, behind;
        }
      }
      forall p | from <= p < |polls| ensures !Answered(names, from, p) {
        assert GoesOn(names, p);
      }
      return false, behind;
    }

    method UnsyncedApplications(apps: map<string, AppStatus>, names: seq<string>) returns (r: seq<string>)
      ensures forall n :: n in r <==> n in names && Behind(apps, n)
    {
      r := [];
      for i := 0 to |names|
        invariant forall n :: n in r <==> n in names[..i] && Behind(apps, n)
      {
        assert names[..i + 1] == names[..i] + [names[i]];
        if names[i] in apps && apps[names[i]].sync != "" && apps[names[i]].sync != "Synced" {
          r := r + [names[i]];
        }
      }
      assert names[..|names|] == names;
    }

    method ListStackApplications() returns (r: Option<seq<App>>)
      modifies `nextListing
      ensures nextListing == old(nextListing) + 1
      ensures r == if old(nextListing) < |listings| then listings[old(nextListing)] else None
    {
      r := if nextListing < |listings| then listings[nextListing] else None;
      nextListing := nextListing + 1;
    }

    /** The application the run depends on is among those selected by the first listing. */
    ghost predicate RootSelected(mode: Mode) {
      && listings != [] && listings[0].Some?
      && ((mode.ModeAll? && ROOT_APPLICATION in AppNames(listings[0].value))
          || (mode.ModeAffected? && ROOT_APPLICATION in ConcernedApps(repo, listings[0].value, changed)))
    }

    /** The result lists what the observations showed not synced. */
    ghost predicate UnsyncedRecorded()
      reads this
    {
      Elems(unsynced) == BehindInLog(log)
    }

    /** The unsynced applications of a result are those that an observation of the run shows with a status that is known
        and not synced. */
    lemma UnsyncedIs(name: string)
      requires UnsyncedRecorded() && name != ""
      ensures name in unsynced <==>
        exists i :: 0 <= i < |log| && log[i].Observed? && name in log[i].names
                    && name in log[i].apps && log[i].apps[name].sync !in {"", "Synced"}
    {
      assert name in unsynced <==> name in Elems(unsynced);
    }

    /** Waits, and records what the last poll showed not synced. */
    method WaitAndRecord(names: seq<string>) returns (ok: bool)
      modifies `nextPoll, `log, `unsynced
      ensures ok <==> WillBeSeen(names, old(nextPoll))
      ensures ok ==> nextPoll == PollAfter(names, old(nextPoll))
      ensures log == old(log)
              || (ok && commit != ""
                  && exists apps :: AllSeen(apps, names, commit) && log == old(log) + [Observed(names, apps)])
      ensures ok && names != [] && commit != "" ==> log != old(log)
      ensures ok && old(UnsyncedRecorded()) ==> UnsyncedRecorded()
    {
      ghost var before, known := log, unsynced;
      var behind;
      ok, behind := WaitForApplicationsObserved(names);
      ghost var tail: seq<Event> := [];
      if ok && names != [] && commit != "" {
        ghost var apps :| AllSeen(apps, names, commit) && log == before + [Observed(names, apps)]
                          && forall n :: n in behind <==> n in names && Behind(apps, n);
        tail := [Observed(names, apps)];
        ObservedBehind(names, apps, behind);
      }
      assert log == before + tail;
      unsynced := SortedUniqueStrings(unsynced + behind);
      if ok {
        BehindRecorded(before, tail, known, behind, unsynced);
      }
    }

    /** One stage: refresh, record, wait, record. */
    method RefreshAndWait(names: seq<string>) returns (ok: bool)
      modifies `nextRefresh, `nextPoll, `log, `refreshed, `unsynced
      ensures |log| >= |old(log)| && log[..|old(log)|] == old(log)
      ensures IsStage(log[|old(log)|..], names, ok, commit)
      ensures ok <==> Accepts(old(nextRefresh), |names|) && WillBeSeen(names, old(nextPoll))
      ensures ok ==> nextPoll == PollAfter(names, old(nextPoll)) && nextRefresh == old(nextRefresh) + |names|
      ensures AskedIn(log) == AskedIn(old(log)) + Elems(names)
      ensures Elems(refreshed) <= Elems(old(refreshed)) + Elems(names)
      ensures ok ==> Elems(refreshed) == Elems(old(refreshed)) + Elems(names) - {""}
      ensures ok && old(UnsyncedRecorded()) ==> UnsyncedRecorded()
    {
      ghost var before := log;
      ok := RefreshApplications(names);
      ghost var asked := log[|before|..];
      assert log == before + asked && asked[..|names|] == asked;
      NothingBehind(before, asked, names);
      AskedByStage(asked, names);
      AskedAppend(before, asked);
      if !ok {
        return false;
      }
      refreshed := SortedUniqueStrings(refreshed + names);
      ElemsConcat(old(refreshed), names);
      ok := WaitAndRecord(names);
      if log == before + asked {
        assert log[|before|..] == asked;
      } else {
        ghost var apps :| AllSeen(apps, names, commit) && log == before + asked + [Observed(names, apps)];
        assert log[|before|..] == asked + [Observed(names, apps)];
        ObservingAsksNothing(before + asked, names, apps);
        StageSeen(asked, names, apps, commit);
      }
    }

    // ---- what decides about a run ----

    /** Listing `k` is answered and, where applications are to be planned, all sources of the named ones can be
        indexed. */
    ghost predicate Usable(mode: Mode, k: nat) {
      && k < |listings| && listings[k].Some?
      && (mode.ModeAffected? ==> Plannable(listings[k].value))
    }

    ghost predicate Plannable(apps: seq<App>) {
      forall i :: 0 <= i < |apps| && apps[i].name != "" ==> AppIndexable(repo, apps[i].sources)
    }

    lemma ListedIsDone(last: nat, reported: seq<string>)
      requires nextListing == last + 1 && affected == reported && last < |listings| && listings[last].Some?
      requires listings[0].Some? && Elems(reported) == AppNames(listings[0].value) + AppNames(listings[last].value)
      requires Elems(refreshed) == {ROOT_APPLICATION} + (AppNames(listings[last].value) - {ROOT_APPLICATION})
      ensures AllDone()
    {
    }

    lemma RecordedIsDone(last: nat, a: seq<string>, k: seq<string>, m: seq<string>)
      requires nextListing == last + 1 && affected == a && skipped == k && manual == m
      requires last < |listings| && listings[last].Some? && Recorded(repo, listings[last].value, changed, a, k, m)
      requires Elems(affected) <= Elems(refreshed) <= Elems(affected) + {ROOT_APPLICATION}
      ensures AffectedDone()
    {
    }

    /** What listing `k` selects: every application it names, or those that a changed file concerns. */
    ghost function Selected(mode: Mode, k: nat): set<string>
      requires Usable(mode, k)
    {
      if mode.ModeAll? then AppNames(listings[k].value) else ConcernedApps(repo, listings[k].value, changed)
    }

    ghost predicate RootSucceeds() {
      Accepts(0, 1) && WillBeSeen([ROOT_APPLICATION], 0)
    }

    /** All that is selected but the root is accepted from answer `r` on and seen from poll `p` on. */
    ghost predicate ChildrenSucceed(selected: set<string>, r: nat, p: nat) {
      var children := SortedSeq(selected - {ROOT_APPLICATION});
      Accepts(r, |children|) && WillBeSeen(children, p)
    }

    /** The first listing can be used; and if it selects the root, this is accepted and seen and the second listing
        can be used too. */
    ghost predicate ReachesChildren(mode: Mode) {
      Usable(mode, 0) && (RootSelected(mode) ==> RootSucceeds() && Usable(mode, 1))
    }

    ghost function LastListing(mode: Mode): nat {
      if RootSelected(mode) then 1 else 0
    }

    ghost function FirstPoll(mode: Mode): nat {
      if RootSelected(mode) then PollAfter([ROOT_APPLICATION], 0) else 0
    }

    /** And the children that the last listing selects are accepted and seen. */
    ghost predicate Succeeds(mode: Mode) {
      && ReachesChildren(mode)
      && ChildrenSucceed(Selected(mode, LastListing(mode)), LastListing(mode), FirstPoll(mode))
    }

    /** The applications asked to refresh, in a run that succeeds or fails. */
    ghost function Asks(mode: Mode): set<string> {
      (if Usable(mode, 0) && RootSelected(mode) then {ROOT_APPLICATION} else {})
      + (if ReachesChildren(mode) then Selected(mode, LastListing(mode)) - {ROOT_APPLICATION} else {})
    }

    method Plan(apps: seq<App>) returns (r: Option<Plan>)
      ensures r.Some? <==> Plannable(apps)
      ensures r.Some? ==> Records(repo, apps, changed, r.value, r.value.affected, r.value.skipped, r.value.manual)
    {
      r := PlanAffectedApplications(repo, apps, changed);
      if r.Some? {
        ghost var index :| IsIndex(repo, apps, index)
                           && IsPlan(repo, index, SortedSeq(NormalizedSet(changed)), r.value);
        PlanLists(repo, apps, changed, index, r.value);
      }
    }

    /** The listing taken last is the one planned for, and the result holds what the plan says. */
    ghost predicate Planned(plan: Plan)
      reads this
    {
      && 1 <= nextListing <= |listings| && listings[nextListing - 1].Some?
      && Records(repo, listings[nextListing - 1].value, changed, plan, affected, skipped, manual)
    }

    /** The refreshed applications are those of the last plan and at most the root more. */
    ghost predicate AffectedDone()
      reads this
    {
      && 1 <= nextListing <= |listings| && listings[nextListing - 1].Some?
      && Recorded(repo, listings[nextListing - 1].value, changed, affected, skipped, manual)
      && Elems(affected) <= Elems(refreshed) <= Elems(affected) + {ROOT_APPLICATION}
    }

    /** The refreshed applications are those of the last listing and at most the root more; those of the first and
        the last listing are reported as affected. */
    ghost predicate AllDone()
      reads this
    {
      && 1 <= nextListing <= |listings| && listings[nextListing - 1].Some? && listings[0].Some?
      && Elems(affected) == AppNames(listings[0].value) + AppNames(listings[nextListing - 1].value)
      && AppNames(listings[nextListing - 1].value) <= Elems(refreshed)
      && Elems(refreshed) <= AppNames(listings[nextListing - 1].value) + {ROOT_APPLICATION}
    }

    /** The answers needed are all there and all yes. */
    lemma AcceptsIff(from: nat, n: nat)
      ensures Accepts(from, n) <==> n == 0 || (from + n <= |refreshes| && false !in refreshes[from..from + n])
    {
      if Accepts(from, n) && n > 0 {
        assert SaysYes(from + n - 1);
        forall i | from <= i < from + n ensures refreshes[i] { assert SaysYes(i); }
      }
      if n > 0 && from + n <= |refreshes| && false !in refreshes[from..from + n] {
        forall i: nat | from <= i < from + n ensures SaysYes(i) {
          assert refreshes[i] == refreshes[from..from + n][i - from];
        }
      }
    }

    /** Nothing is waited for without names or commit. Otherwise the wait ends well exactly when some poll shows every
        application, and every poll before it is answered and finds no reason to stop. */
    lemma WillBeSeenIff(names: seq<string>, from: nat)
      ensures names == [] || commit == "" ==> WillBeSeen(names, from)
      ensures names != [] && commit != "" ==> (WillBeSeen(names, from) <==>
        exists p :: from <= p < |polls| && Shows(names, p) && forall q :: from <= q < p ==>
          polls[q].apps.Some? && !polls[q].superseded && !polls[q].expired && !polls[q].cancelled)
    {
      if p :| from <= p < |polls| && Shows(names, p) && forall q :: from <= q < p ==>
        polls[q].apps.Some? && !polls[q].superseded && !polls[q].expired && !polls[q].cancelled
      {
        var first := from;
        while first < p && !Shows(names, first)
          invariant from <= first <= p && forall q :: from <= q < first ==> GoesOn(names, q)
        {
          first := first + 1;
        }
        assert Answered(names, from, first);
      }
      if p: nat :| Answered(names, from, p) {
        assert Shows(names, p);
        forall q | from <= q < p
          ensures polls[q].apps.Some? && !polls[q].superseded && !polls[q].expired && !polls[q].cancelled
        {
          assert GoesOn(names, q);
        }
      }
    }

    /** Poll `p` shows every application listed, at the commit and with no operation running. */
    predicate Shows(names: seq<string>, p: nat) {
      && p < |polls| && polls[p].apps.Some?
      && forall name :: name in names ==>
           && name in polls[p].apps.value && polls[p].apps.value[name].phase != "Running"
           && ApplicationObservedRevision(polls[p].apps.value[name], commit)
    }

    /** Poll `p` is answered and shows all of these, if there are any. */
    ghost predicate AllShown(selected: set<string>, p: nat) {
      p < |polls| && forall name :: name in selected ==>
        polls[p].apps.Some? && Seen(polls[p].apps.value, name, commit)
    }

    /** A listing can be used when it is answered; to plan for it, every source of a named application must lead only to
        what exists, can be read and lies inside the repository. */
    lemma UsableIff(mode: Mode, k: nat)
      ensures Usable(mode, k) <==>
        && k < |listings| && listings[k] != None
        && (mode == ModeAffected ==> forall app, s :: app in listings[k].value && s in app.sources ==>
              app.name == "" || TrimSpace(s) == "" || Indexable(repo, s))
    {
      if k < |listings| && listings[k] != None {
        var apps := listings[k].value;
        assert forall i :: 0 <= i < |apps| ==> apps[i] in apps;
      }
    }

    /** When both listings are answered and can be planned, every refresh is accepted, and the first two polls show all
        that is selected, a run succeeds. */
    lemma RunsWell(mode: Mode)
      requires mode.ModeAll? || mode.ModeAffected?
      requires Usable(mode, 0) && Usable(mode, 1)
      requires false !in refreshes && |refreshes| > |Selected(mode, 0)| + |Selected(mode, 1)|
      requires AllShown(Selected(mode, 0) + Selected(mode, 1), 0) && AllShown(Selected(mode, 0) + Selected(mode, 1), 1)
      ensures Succeeds(mode)
    {
      if RootSelected(mode) {
        RunsWellWithRoot(Selected(mode, 0), Selected(mode, 1), FirstPoll(mode));
      } else {
        ChildrenRunWell(Selected(mode, 0) + Selected(mode, 1), Selected(mode, 0), 0, 0);
      }
    }

    /** The answers from `r` on accept all of these, and with a commit some poll shows them. */
    ghost predicate AcceptedAndShown(names: seq<string>, r: nat) {
      names == [] || (r + |names| <= |refreshes| && false !in refreshes[r..r + |names|]
                      && (commit != "" ==> exists p :: Shows(names, p)))
    }

    lemma StageNeeds(names: seq<string>, r: nat, p: nat)
      requires Accepts(r, |names|) && WillBeSeen(names, p)
      ensures AcceptedAndShown(names, r)
    {
      AcceptsIff(r, |names|);
      WillBeSeenIff(names, p);
    }

    /** And it succeeds only so: with usable listings, an accepted refresh of the root, if selected, and of every other
        application that the last listing selects, and, with a commit, polls that show them. */
    lemma SucceedsNeeds(mode: Mode)
      requires Succeeds(mode)
      ensures Usable(mode, 0) && (RootSelected(mode) ==> Usable(mode, 1) && AcceptedAndShown([ROOT_APPLICATION], 0))
      ensures var last := if RootSelected(mode) then 1 else 0;
        AcceptedAndShown(SortedSeq(Selected(mode, last) - {ROOT_APPLICATION}), last)
    {
      if RootSelected(mode) {
        StageNeeds([ROOT_APPLICATION], 0, 0);
      }
      var last := LastListing(mode);
      StageNeeds(SortedSeq(Selected(mode, last) - {ROOT_APPLICATION}), last, FirstPoll(mode));
    }

    lemma RunsWellWithRoot(first: set<string>, second: set<string>, p: nat)
      requires ROOT_APPLICATION in first && p == PollAfter([ROOT_APPLICATION], 0)
      requires false !in refreshes && |refreshes| > |second|
      requires AllShown(first + second, 0) && AllShown(first + second, 1)
      ensures RootSucceeds() && ChildrenSucceed(second, 1, p)
    {
      RootRunsWell(first + second);
      if p == 0 {
        ChildrenRunWell(first + second, second, 1, 0);
      } else {
        assert p == 1;
        ChildrenRunWell(first + second, second, 1, 1);
      }
    }

    lemma RootRunsWell(shown: set<string>)
      requires false !in refreshes && |refreshes| > 0 && AllShown(shown, 0) && ROOT_APPLICATION in shown
      ensures RootSucceeds() && PollAfter([ROOT_APPLICATION], 0) <= 1
    {
      ManyAccept(0, 1);
      SeenAtOnce([ROOT_APPLICATION], 0);
    }

    lemma ManyAccept(from: nat, n: nat)
      requires false !in refreshes && from + n <= |refreshes|
      ensures Accepts(from, n)
    {
      AcceptsIff(from, n);
      assert forall x :: x in refreshes[from..from + n] ==> x in refreshes;
    }

    lemma ChildrenRunWell(shown: set<string>, selected: set<string>, r: nat, p: nat)
      requires false !in refreshes && r + |selected| <= |refreshes| && selected <= shown && AllShown(shown, p)
      ensures ChildrenSucceed(selected, r, p)
    {
      var some := selected - {ROOT_APPLICATION};
      var children := SortedSeq(some);
      SortedSize(some);
      assert selected == some + (selected - some);
      ManyAccept(r, |children|);
      forall name | name in children ensures name in shown { assert name in Elems(children); }
      assert children != [] ==> children[0] in shown;
      SeenAtOnce(children, p);
    }

    lemma SeenAtOnce(names: seq<string>, p: nat)
      requires names != [] && commit != "" ==>
        p < |polls| && polls[p].apps.Some? && AllSeen(polls[p].apps.value, names, commit)
      ensures WillBeSeen(names, p) && PollAfter(names, p) <= p + 1
    {
      if Waits(names) {
        assert Answered(names, p, p);
        AnsweredOnce(names, p, p);
      }
    }

    /** What a run that succeeded has refreshed and reports, name by name. */
    lemma DoneIs(mode: Mode, name: string)
      requires (mode.ModeAffected? && AffectedDone()) || (mode.ModeAll? && AllDone())
      ensures 1 <= nextListing <= |listings| && listings[nextListing - 1].Some?
      ensures var last := listings[nextListing - 1].value;
        var selected := if mode.ModeAll? then AppNames(last) else ConcernedApps(repo, last, changed);
        && (name in selected ==> name in refreshed && name in affected)
        && (name in refreshed ==> name in selected || name == "root-application")
        && (name in affected ==> name in selected || (mode.ModeAll? && name in AppNames(listings[0].value)))
    {
      assert name in refreshed <==> name in Elems(refreshed);
      assert name in affected <==> name in Elems(affected);
    }

    method RefreshAfterSync(mode: Mode) returns (ok: bool)
      requires Fresh()
      modifies this
      ensures commit != "" && RootSelected(mode) ==> RootBeforeChildren(log, commit)
      ensures ok && mode.ModeAffected? ==> AffectedDone()
      ensures ok && mode.ModeAll? ==> AllDone()
      ensures ok && commit != "" ==> AllRefreshedSeen()
      ensures ok ==> UnsyncedRecorded()
      ensures mode.ModeNone? ==> ok && log == []
      ensures mode.Unsupported? ==> !ok && log == []
      ensures mode.ModeAll? || mode.ModeAffected? ==> (ok <==> Succeeds(mode)) && AskedIn(log) == Asks(mode)
    {
      match mode
      case ModeNone => ok := true;
      case ModeAll => ok := RefreshAll();
      case ModeAffected => ok := RefreshAffected();
      case Unsupported => ok := false;
    }

    /** The first stage when the root is selected. */
    method RefreshRoot() returns (ok: bool)
      requires log == [] && refreshed == unsynced == [] && nextRefresh == nextPoll == 0
      modifies `nextRefresh, `nextPoll, `log, `refreshed, `unsynced
      ensures (ok <==> RootSucceeds()) && AskedIn(log) == {ROOT_APPLICATION}
      ensures ok ==> nextRefresh == 1 && nextPoll == PollAfter([ROOT_APPLICATION], 0)
      ensures RootBeforeChildren(log, commit) && (ok ==> UnsyncedRecorded())
      ensures ok ==> Elems(refreshed) == {ROOT_APPLICATION}
      ensures ok && commit != "" ==> RootDone(log, commit) && AllRefreshedSeen()
    {
      ok := RefreshAndWait([ROOT_APPLICATION]);
      assert log[0..] == log;
      RootStageKeepsOrder(log, ok, commit);
      assert Elems([ROOT_APPLICATION]) == {ROOT_APPLICATION} && ROOT_APPLICATION in [ROOT_APPLICATION];
      assert forall name :: name in refreshed <==> name in Elems(refreshed);
    }

    ghost predicate AllRefreshedSeen()
      reads this
    {
      forall name :: name in refreshed ==> SeenInLog(log, name, commit)
    }

    /** Lists the applications and reports them as affected. */
    method ListNames() returns (names: Option<seq<string>>)
      modifies `nextListing, `affected
      ensures nextListing == old(nextListing) + 1 && (names.Some? <==> Usable(ModeAll, old(nextListing)))
      ensures names.Some? ==> Sorted(names.value) && "" !in names.value
      ensures names.Some? ==>
        && Elems(names.value) == AppNames(listings[old(nextListing)].value)
        && Elems(affected) == (Elems(old(affected)) - {""}) + AppNames(listings[old(nextListing)].value)
    {
      var apps := ListStackApplications();
      if apps.None? {
        return None;
      }
      var list := StackApplicationNamesFromList(apps.value);
      ElemsConcat(affected, list);
      assert "" !in Elems(list);
      affected := SortedUniqueStrings(affected + list);
      names := Some(list);
    }

    method RefreshAll() returns (ok: bool)
      requires Fresh()
      modifies this
      ensures (ok <==> Succeeds(ModeAll)) && AskedIn(log) == Asks(ModeAll)
      ensures commit != "" && RootSelected(ModeAll) ==> RootBeforeChildren(log, commit)
      ensures ok ==> AllDone()
      ensures ok && commit != "" ==> AllRefreshedSeen()
      ensures ok ==> UnsyncedRecorded()
    {
      assert AskedIn([]) == {};
      var names := ListNames();
      if names.None? {
        return false;
      }
      assert ROOT_APPLICATION in names.value <==> ROOT_APPLICATION in Elems(names.value);
      assert "" !in Elems(names.value) && Elems([]) == {};
      if ROOT_APPLICATION !in names.value {
        SortedIsUnique(names.value, SortedSeq(Selected(ModeAll, 0) - {ROOT_APPLICATION}));
        ok := RefreshAndWait(names.value);
        assert log[0..] == log;
        assert forall name :: name in names.value <==> name in Elems(names.value);
        assert forall name :: name in refreshed <==> name in Elems(refreshed);
        return;
      }
      ok := RefreshRoot();
      if !ok {
        return false;
      }
      names := ListNames();
      if names.None? {
        return false;
      }
      ghost var last, reported := nextListing - 1, affected;
      assert Elems(reported) == AppNames(listings[0].value) + AppNames(listings[last].value);
      ok := RefreshChildren(names.value);
      if ok {
        ListedIsDone(last, reported);
      }
    }

    /** The last stage of both modes: everything selected except the root. */
    method RefreshChildren(names: seq<string>) returns (ok: bool)
      requires Sorted(names) && "" !in names && Elems(refreshed) <= {ROOT_APPLICATION}
      requires (commit != "" ==> AllRefreshedSeen()) && UnsyncedRecorded()
      modifies `nextRefresh, `nextPoll, `log, `refreshed, `unsynced
      ensures ok <==> ChildrenSucceed(Elems(names), old(nextRefresh), old(nextPoll))
      ensures AskedIn(log) == AskedIn(old(log)) + (Elems(names) - {ROOT_APPLICATION})
      ensures commit != "" && RootBeforeChildren(old(log), commit) && RootDone(old(log), commit) ==>
        RootBeforeChildren(log, commit)
      ensures ok ==> Elems(refreshed) == Elems(old(refreshed)) + (Elems(names) - {ROOT_APPLICATION})
      ensures ok && commit != "" ==> AllRefreshedSeen()
      ensures ok ==> UnsyncedRecorded()
    {
      var children := WithoutString(names, ROOT_APPLICATION);
      WithoutStringIsSorted(names, ROOT_APPLICATION);
      assert Elems(children) == Elems(names) - {ROOT_APPLICATION} && "" !in Elems(children);
      if children == [] {
        return true;
      }
      ghost var before := log;
      ok := RefreshAndWait(children);
      ghost var tail := log[|before|..];
      assert log == before + tail;
      ChildrenMayFollow(before, tail, commit);
      NoBlank(Elems(old(refreshed)), Elems(children));
      if ok && commit != "" {
        SeenAfterStage(before, tail, old(refreshed), children, refreshed, commit);
      }
    }

    method StackApplicationNamesFromList(apps: seq<App>) returns (names: seq<string>)
      ensures Elems(names) == AppNames(apps) && Sorted(names) && "" !in names
    {
      var seen: set<string> := {};
      var i := 0;
      while i < |apps|
        invariant 0 <= i <= |apps| && seen == AppNames(apps[..i])
      {
        assert apps[..i + 1] == apps[..i] + [apps[i]];
        if apps[i].name != "" {
          seen := seen + {apps[i].name};
        }
        i := i + 1;
      }
      assert apps[..i] == apps;
      names := SortedKeys(seen);
      assert "" in names <==> "" in Elems(names);
    }

    /** The first plan is merged into an empty result. */
    method ApplyPlan() returns (plan: Option<Plan>)
      requires affected == skipped == manual == [] && nextListing == 0
      modifies `nextListing, `affected, `skipped, `manual
      ensures nextListing == 1 && (plan.Some? <==> Usable(ModeAffected, 0)) && (plan.Some? ==> Planned(plan.value))
      ensures plan.Some? ==> (plan.value.rootFirst <==> RootSelected(ModeAffected))
    {
      var apps := ListStackApplications();
      if apps.None? {
        return None;
      }
      plan := Plan(apps.value);
      if plan.Some? {
        assert Elems([]) == {};
        ElemsConcat(affected, plan.value.affected);
        ElemsConcat(skipped, plan.value.skipped);
        ElemsConcat(manual, plan.value.manual);
        affected := SortedUniqueStrings(affected + plan.value.affected);
        skipped := SortedUniqueStrings(skipped + plan.value.skipped);
        manual := SortedUniqueStrings(manual + plan.value.manual);
        SameLists(plan.value, ConcernedApps(repo, apps.value, changed), affected, skipped, manual);
      }
    }

    /** A plan made after the root refresh takes the place of the first. */
    method ReplacePlan() returns (plan: Option<Plan>)
      modifies `nextListing, `affected, `skipped, `manual
      ensures nextListing == old(nextListing) + 1 && (plan.Some? <==> Usable(ModeAffected, old(nextListing)))
      ensures plan.Some? ==> Planned(plan.value)
    {
      var apps := ListStackApplications();
      if apps.None? {
        return None;
      }
      plan := Plan(apps.value);
      if plan.Some? {
        affected, skipped, manual := plan.value.affected, plan.value.skipped, plan.value.manual;
      }
    }

    /** The root is refreshed and observed, and then a new plan is made. */
    method RootStage() returns (plan: Option<Plan>)
      requires log == [] && refreshed == unsynced == [] && nextRefresh == nextPoll == 0 && nextListing == 1
      modifies this
      ensures (plan.Some? <==> RootSucceeds() && Usable(ModeAffected, 1)) && AskedIn(log) == {ROOT_APPLICATION}
      ensures plan.Some? ==> nextListing == 2 && nextRefresh == 1 && nextPoll == PollAfter([ROOT_APPLICATION], 0)
      ensures RootBeforeChildren(log, commit)
      ensures plan.Some? ==> Planned(plan.value) && Elems(refreshed) == {ROOT_APPLICATION} && UnsyncedRecorded()
      ensures plan.Some? && commit != "" ==> RootDone(log, commit) && AllRefreshedSeen()
    {
      var ok := RefreshRoot();
      if !ok {
        return None;
      }
      plan := ReplacePlan();
    }

    /** Everything before the children's stage; no plan means that the run has failed. */
    method SelectApplications() returns (plan: Option<Plan>)
      requires Fresh()
      modifies this
      ensures plan.Some? <==> ReachesChildren(ModeAffected)
      ensures AskedIn(log) ==
        if Usable(ModeAffected, 0) && RootSelected(ModeAffected) then {ROOT_APPLICATION} else {}
      ensures plan.Some? ==>
        && nextListing == LastListing(ModeAffected) + 1
        && nextRefresh == LastListing(ModeAffected) && nextPoll == FirstPoll(ModeAffected)
        && Elems(plan.value.affected) == Selected(ModeAffected, LastListing(ModeAffected))
      ensures plan.Some? ==> Planned(plan.value) && Elems(refreshed) <= {ROOT_APPLICATION} && UnsyncedRecorded()
      ensures plan.Some? && ROOT_APPLICATION in Elems(affected) ==> Elems(refreshed) == {ROOT_APPLICATION}
      ensures plan.Some? && commit != "" ==> AllRefreshedSeen()
      ensures commit != "" && RootSelected(ModeAffected) ==>
        RootBeforeChildren(log, commit) && (plan.Some? ==> RootDone(log, commit))
    {
      assert Elems(refreshed) == {} == BehindInLog([]) && AskedIn([]) == {};
      plan := ApplyPlan();
      if plan.Some? && plan.value.rootFirst {
        plan := RootStage();
      }
    }

    method RefreshAffected() returns (ok: bool)
      requires Fresh()
      modifies this
      ensures (ok <==> Succeeds(ModeAffected)) && AskedIn(log) == Asks(ModeAffected)
      ensures commit != "" && RootSelected(ModeAffected) ==> RootBeforeChildren(log, commit)
      ensures ok ==> AffectedDone()
      ensures ok && commit != "" ==> AllRefreshedSeen()
      ensures ok ==> UnsyncedRecorded()
    {
      var plan := SelectApplications();
      if plan.None? {
        return false;
      }
      ghost var last, a, k, m := nextListing - 1, affected, skipped, manual;
      ghost var apps := listings[last].value;
      assert Recorded(repo, apps, changed, a, k, m);
      ok := RefreshChildren(plan.value.affected);
      if ok {
        RecordedIsDone(last, a, k, m);
      }
    }
  }

  lemma SortedSize(m: set<string>)
    ensures |SortedSeq(m)| == |m|
  {
    SortedHasSize(SortedSeq(m));
  }

  lemma {:induction false} SortedHasSize(s: seq<string>)
    requires Sorted(s)
    ensures |Elems(s)| == |s|
  {
    if s != [] {
      var n := |s| - 1;
      SortedHasSize(s[..n]);
      LessIrreflexive(s[n]);
      assert s[n] !in s[..n];
      ElemsAppend(s[..n], s[n]);
      assert s == s[..n] + [s[n]];
    }
  }

  lemma ElemsConcat(a: seq<string>, b: seq<string>)
    ensures Elems(a + b) == Elems(a) + Elems(b)
  {
  }

  lemma ObservedBehind(names: seq<string>, apps: map<string, AppStatus>, behind: seq<string>)
    requires forall n :: n in behind <==> n in names && Behind(apps, n)
    ensures BehindInLog([Observed(names, apps)]) == Elems(behind) - {""}
  {
    assert [Observed(names, apps)][0] == Observed(names, apps);
  }

  lemma BehindRecorded(before: seq<Event>, tail: seq<Event>, known: seq<string>, behind: seq<string>,
                       unsynced: seq<string>)
    requires Elems(unsynced) == Elems(known + behind) - {""} && BehindInLog(tail) == Elems(behind) - {""}
    ensures Elems(known) == BehindInLog(before) ==> Elems(unsynced) == BehindInLog(before + tail)
  {
    ElemsConcat(known, behind);
    BehindAppend(before, tail);
    assert "" !in BehindInLog(before);
  }

  lemma NothingBehind(before: seq<Event>, asked: seq<Event>, names: seq<string>)
    requires IsRefreshOf(asked, names)
    ensures BehindInLog(before + asked) == BehindInLog(before)
  {
    BehindAppend(before, asked);
    assert BehindInLog(asked) == {};
  }

  lemma StageSeen(asked: seq<Event>, names: seq<string>, apps: map<string, AppStatus>, commit: string)
    requires IsRefreshOf(asked, names) && AllAccepted(asked) && AllSeen(apps, names, commit) && commit != ""
    requires forall name :: name in names ==> Refreshed(name, true) in asked
    ensures IsStage(asked + [Observed(names, apps)], names, true, commit)
  {
    var tail := asked + [Observed(names, apps)];
    var n := |asked|;
    assert tail[..n] == asked;
    assert tail[n] == Observed(names, apps);
    forall name | name in names ensures SeenInLog(tail, name, commit) {
      var h :| 0 <= h < n && asked[h] == Refreshed(name, true);
      assert tail[h] == asked[h] && SeenAt(tail, n, name, commit);
    }
    if names == [ROOT_APPLICATION] {
      assert ROOT_APPLICATION in names;
      assert Refreshed(ROOT_APPLICATION, true) in asked;
      assert tail[0] == Refreshed(ROOT_APPLICATION, true);
      assert RootDone(tail, commit);
    }
  }
}
