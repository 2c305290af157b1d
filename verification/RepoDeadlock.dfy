/** Exactly when reconciles can block each other for ever. */
module RepoDeadlock {
  import opened RepoLocks

  /** A group of threads each of which waits for a mutex that a member of the group holds. */
  ghost predicate Deadlocked(s: State, group: set<Tid>) {
    && group != {}
    && forall t {:trigger StuckIn(s, group, t)} :: t in group ==> StuckIn(s, group, t)
  }

  ghost predicate StuckIn(s: State, group: set<Tid>, t: Tid) {
    Blocked(s, t) && s.holder[s.threads[t].stage.mutex] in group
  }

  ghost predicate CanDeadlock(p: Programs) {
    exists s, group :: Reachable(p, s) && Deadlocked(s, group)
  }

  /** The reconcile copies from the first URL into the second. */
  ghost predicate Copies(p: Programs, t: Tid) {
    t in p && |p[t]| == 2
  }

  function Next(i: nat, n: nat): nat
    requires i < n
    ensures Next(i, n) < n
  {
    if i + 1 == n then 0 else i + 1
  }

  /** Copies whose target is the next one's source, all the way round. */
  ghost predicate IsCycle(p: Programs, c: seq<Tid>) {
    && c != []
    && (forall i :: 0 <= i < |c| ==> Copies(p, c[i]))
    && (forall i {:trigger CycleLink(p, c, i)} :: 0 <= i < |c| ==> CycleLink(p, c, i))
    && (forall i, j :: 0 <= i < j < |c| ==> c[i] != c[j] && p[c[i]][0] != p[c[j]][0])
  }

  ghost predicate CycleLink(p: Programs, c: seq<Tid>, i: nat) {
    i < |c| && Copies(p, c[i]) && Copies(p, c[Next(i, |c|)]) && p[c[i]][1] == p[c[Next(i, |c|)]][0]
  }

  ghost predicate HasCycle(p: Programs) {
    exists c :: IsCycle(p, c)
  }

  // ---- from a deadlock to a cycle ----

  ghost function WaitsFor(s: State, t: Tid): Tid
    requires Blocked(s, t)
  {
    s.holder[s.threads[t].stage.mutex]
  }

  ghost predicate IsChain(s: State, group: set<Tid>, path: seq<Tid>) {
    && path != []
    && (forall i :: 0 <= i < |path| ==> path[i] in group && Blocked(s, path[i]))
    && (forall i :: 0 <= i < |path| - 1 ==> WaitsFor(s, path[i]) == path[i + 1])
    && (forall i, j :: 0 <= i < j < |path| ==> path[i] != path[j])
  }

  ghost predicate IsRing(s: State, c: seq<Tid>) {
    && c != []
    && (forall i {:trigger RingLink(s, c, i)} :: 0 <= i < |c| ==> RingLink(s, c, i))
    && (forall i, j :: 0 <= i < j < |c| ==> c[i] != c[j])
  }

  ghost predicate RingLink(s: State, c: seq<Tid>, i: nat) {
    i < |c| && Blocked(s, c[i]) && WaitsFor(s, c[i]) == c[Next(i, |c|)]
  }

  /** Following who waits for whom in a finite group comes round. */
  lemma {:induction false} FindRing(s: State, group: set<Tid>, path: seq<Tid>) returns (c: seq<Tid>)
    requires Deadlocked(s, group) && IsChain(s, group, path)
    ensures IsRing(s, c)
    decreases group - set t | t in path
  {
    var last := path[|path| - 1];
    assert StuckIn(s, group, last);
    var next := WaitsFor(s, last);
    if next in path {
      var i :| 0 <= i < |path| && path[i] == next;
      c := path[i..];
      forall k | 0 <= k < |c| ensures RingLink(s, c, k) {
        assert c[k] == path[i + k];
      }
    } else {
      var longer := path + [next];
      assert StuckIn(s, group, next);
      assert (group - set t | t in longer) < (group - set t | t in path) by {
        assert next in longer && next in (group - set t | t in path);
        assert forall t :: t in path ==> t in longer;
      }
      c := FindRing(s, group, longer);
    }
  }

  /** A thread that blocks another holds its source and waits for its target. */
  lemma RingMember(p: Programs, s: State, t: Tid, t': Tid)
    requires Inv(p, s) && Blocked(s, t) && Blocked(s, t') && WaitsFor(s, t) == t'
    requires s.threads[t].held != []
    ensures Copies(p, t) && Copies(p, t') && p[t][1] == p[t'][0] && s.threads[t'].held != []
    ensures Owns(s, t', p[t'][0], s.threads[t'].held[0])
  {
    assert ThreadOk(p, s, t) && ThreadOk(p, s, t');
    assert HolderOk(s, s.threads[t].stage.mutex);
    assert Owns(s, t', p[t'][0], s.threads[t'].held[0]);
  }

  lemma WaitedForHolds(p: Programs, s: State, t: Tid)
    requires Inv(p, s) && Blocked(s, t)
    ensures WaitsFor(s, t) in s.threads && s.threads[WaitsFor(s, t)].held != []
  {
    assert HolderOk(s, s.threads[t].stage.mutex);
  }

  lemma RingIsCycle(p: Programs, s: State, c: seq<Tid>)
    requires Inv(p, s) && IsRing(s, c)
    ensures IsCycle(p, c)
  {
    forall i | 0 <= i < |c|
      ensures CycleLink(p, c, i) && s.threads[c[i]].held != [] && Owns(s, c[i], p[c[i]][0], s.threads[c[i]].held[0])
    {
      RingPlace(p, s, c, i);
    }
  }

  lemma RingPlace(p: Programs, s: State, c: seq<Tid>, i: nat)
    requires Inv(p, s) && IsRing(s, c) && i < |c|
    ensures CycleLink(p, c, i) && s.threads[c[i]].held != [] && Owns(s, c[i], p[c[i]][0], s.threads[c[i]].held[0])
  {
    var prev := if i == 0 then |c| - 1 else i - 1;
    assert Next(prev, |c|) == i;
    assert RingLink(s, c, prev) && RingLink(s, c, i) && RingLink(s, c, Next(i, |c|));
    WaitedForHolds(p, s, c[prev]);
    RingMember(p, s, c[i], c[Next(i, |c|)]);
    assert ThreadOk(p, s, c[i]);
  }

  lemma DeadlockNeedsCycle(p: Programs, s: State, group: set<Tid>)
    requires ValidPrograms(p) && Reachable(p, s) && Deadlocked(s, group)
    ensures HasCycle(p)
  {
    ReachableInv(p, s);
    var t :| t in group;
    assert StuckIn(s, group, t);
    assert IsChain(s, group, [t]);
    var c := FindRing(s, group, [t]);
    RingIsCycle(p, s, c);
  }

  // ---- from a cycle to a deadlock ----

  lemma ReachableSteps(p: Programs, s: State, t: Tid, fails: bool)
    requires Reachable(p, s)
    ensures Reachable(p, Step(s, t, fails))
  {
    var s0, schedule :| Initial(p, s0) && s == Run(s0, schedule);
    var longer := schedule + [(t, fails)];
    assert longer[..|longer| - 1] == schedule;
    assert Step(s, t, fails) == Run(s0, longer);
  }

  /** The first `i` threads hold their source, the others have not begun, nobody else holds anything. */
  ghost predicate SourcesTaken(p: Programs, s: State, c: seq<Tid>, i: nat) {
    && i <= |c|
    && (forall j :: 0 <= j < i ==> c[j] in s.threads && |s.threads[c[j]].held| == 1 && s.threads[c[j]].stage.Load?)
    && (forall j :: i <= j < |c| ==> c[j] in s.threads && s.threads[c[j]].held == [] && s.threads[c[j]].stage.Load?)
    && (forall m :: m in s.holder ==> exists j :: 0 <= j < i && c[j] == s.holder[m])
  }

  lemma SourceIsFree(p: Programs, s: State, c: seq<Tid>, i: nat)
    requires IsCycle(p, c) && Inv(p, s) && i < |c| && c[i] in p
    requires s.threads[c[i]].held == [] && s.threads[c[i]].stage.Lock?
    requires forall m :: m in s.holder ==> exists j :: 0 <= j < i && c[j] == s.holder[m] && |s.threads[c[j]].held| == 1
    ensures s.threads[c[i]].stage.mutex !in s.holder
  {
    assert ThreadOk(p, s, c[i]);
    forall m | m in s.holder ensures m != s.threads[c[i]].stage.mutex {
      var j :| 0 <= j < i && c[j] == s.holder[m] && |s.threads[c[j]].held| == 1;
      assert HolderOk(s, m) && ThreadOk(p, s, c[j]);
      assert Owns(s, c[j], p[c[j]][0], s.threads[c[j]].held[0]);
    }
  }

  /** Between asking for its source and locking it, thread `c[i]` is at its first lock. */
  ghost predicate SourceAsked(p: Programs, s: State, c: seq<Tid>, i: nat) {
    && i < |c|
    && (forall j :: 0 <= j < i ==> c[j] in s.threads && |s.threads[c[j]].held| == 1 && s.threads[c[j]].stage.Load?)
    && c[i] in s.threads && s.threads[c[i]].held == [] && s.threads[c[i]].stage.Lock?
    && (forall j :: i < j < |c| ==> c[j] in s.threads && s.threads[c[j]].held == [] && s.threads[c[j]].stage.Load?)
    && (forall m :: m in s.holder ==> exists j :: 0 <= j < i && c[j] == s.holder[m])
  }

  lemma AskSource(p: Programs, s: State, c: seq<Tid>, i: nat)
    requires IsCycle(p, c) && Inv(p, s) && i < |c| && SourcesTaken(p, s, c, i)
    ensures SourceAsked(p, Step(s, c[i], false), c, i)
  {
    assert ThreadOk(p, s, c[i]);
  }

  lemma LockSource(p: Programs, s: State, c: seq<Tid>, i: nat)
    requires IsCycle(p, c) && Inv(p, s) && SourceAsked(p, s, c, i)
    ensures SourcesTaken(p, Step(s, c[i], false), c, i + 1)
  {
    var t := c[i];
    assert ThreadOk(p, s, t) && Copies(p, t);
    SourceIsFree(p, s, c, i);
    var m := s.threads[t].stage.mutex;
    LockedSource(p, s, c, i, m);
    assert s.threads[t].held + [m] == [m];
    assert Step(s, t, false) == State(s.table, s.holder[m := t], s.threads[t := Thread(p[t], [m], Load)]);
  }

  lemma LockedSource(p: Programs, s: State, c: seq<Tid>, i: nat, m: nat)
    requires IsCycle(p, c) && SourceAsked(p, s, c, i) && m !in s.holder && c[i] in p
    ensures var s' := State(s.table, s.holder[m := c[i]], s.threads[c[i] := Thread(p[c[i]], [m], Load)]);
            SourcesTaken(p, s', c, i + 1)
  {
    var holder := s.holder[m := c[i]];
    forall k | k in holder ensures exists j :: 0 <= j < i + 1 && c[j] == holder[k] {
      if k == m {
        assert c[i] == holder[k];
      } else {
        var j :| 0 <= j < i && c[j] == s.holder[k];
      }
    }
  }

  lemma TakeSource(p: Programs, s: State, c: seq<Tid>, i: nat) returns (s': State)
    requires ValidPrograms(p) && IsCycle(p, c) && Reachable(p, s) && i < |c| && SourcesTaken(p, s, c, i)
    ensures Reachable(p, s') && SourcesTaken(p, s', c, i + 1)
  {
    ReachableInv(p, s);
    AskSource(p, s, c, i);
    var mid := Step(s, c[i], false);
    ReachableSteps(p, s, c[i], false);
    ReachableInv(p, mid);
    LockSource(p, mid, c, i);
    s' := Step(mid, c[i], false);
    ReachableSteps(p, mid, c[i], false);
  }

  /** The first `i` threads wait for their target, the others are about to ask for it; all hold their source. */
  ghost predicate TargetsAsked(p: Programs, s: State, c: seq<Tid>, i: nat) {
    && i <= |c|
    && (forall j :: 0 <= j < |c| ==> c[j] in s.threads && |s.threads[c[j]].held| == 1)
    && (forall j :: 0 <= j < i ==> s.threads[c[j]].stage.Lock?)
    && (forall j :: i <= j < |c| ==> s.threads[c[j]].stage.Load?)
  }

  lemma AskTarget(p: Programs, s: State, c: seq<Tid>, i: nat) returns (s': State)
    requires ValidPrograms(p) && IsCycle(p, c) && Reachable(p, s) && i < |c| && TargetsAsked(p, s, c, i)
    ensures Reachable(p, s') && TargetsAsked(p, s', c, i + 1)
  {
    s' := Step(s, c[i], false);
    ReachableSteps(p, s, c[i], false);
    ReachableInv(p, s);
    assert ThreadOk(p, s, c[i]) && Copies(p, c[i]);
  }

  lemma AllAskedIsDeadlock(p: Programs, s: State, c: seq<Tid>)
    requires IsCycle(p, c) && Inv(p, s) && TargetsAsked(p, s, c, |c|)
    ensures Deadlocked(s, set t | t in c)
  {
    var group := set t | t in c;
    assert c[0] in group;
    forall t | t in group ensures StuckIn(s, group, t) {
      var i :| 0 <= i < |c| && c[i] == t;
      var t' := c[Next(i, |c|)];
      assert CycleLink(p, c, i);
      assert ThreadOk(p, s, t) && ThreadOk(p, s, t');
      assert Owns(s, t', p[t'][0], s.threads[t'].held[0]);
      assert t' in group;
    }
  }

  lemma CycleDeadlocks(p: Programs, c: seq<Tid>)
    requires ValidPrograms(p) && IsCycle(p, c)
    ensures CanDeadlock(p)
  {
    var s := State(map[], map[], map t | t in p :: Thread(p[t], [], Load));
    assert Initial(p, s) && s == Run(s, []);
    forall j | 0 <= j < |c| ensures c[j] in p { assert Copies(p, c[j]); }
    var i := 0;
    while i < |c|
      invariant 0 <= i <= |c| && Reachable(p, s) && SourcesTaken(p, s, c, i)
    {
      s := TakeSource(p, s, c, i);
      i := i + 1;
    }
    i := 0;
    while i < |c|
      invariant 0 <= i <= |c| && Reachable(p, s) && TargetsAsked(p, s, c, i)
    {
      s := AskTarget(p, s, c, i);
      i := i + 1;
    }
    ReachableInv(p, s);
    AllAskedIsDeadlock(p, s, c);
  }

  /** For any number of threads and any interleaving: a deadlock can be reached exactly when the copies from source to
      target repositories form a cycle, a repository copied into itself being the shortest. */
  lemma DeadlockIffCycle(p: Programs)
    requires ValidPrograms(p)
    ensures CanDeadlock(p) <==> HasCycle(p)
  {
    if CanDeadlock(p) {
      var s, group :| Reachable(p, s) && Deadlocked(s, group);
      DeadlockNeedsCycle(p, s, group);
    }
    if HasCycle(p) {
      var c :| IsCycle(p, c);
      CycleDeadlocks(p, c);
    }
  }

  // ---- what that means ----

  /** No repository that is copied from is also copied into. */
  ghost predicate SourcesApartFromTargets(p: Programs) {
    forall t, t' :: Copies(p, t) && Copies(p, t') ==> p[t][1] != p[t'][0]
  }

  lemma SourcesApartNoDeadlock(p: Programs)
    requires ValidPrograms(p) && SourcesApartFromTargets(p)
    ensures !CanDeadlock(p)
  {
    DeadlockIffCycle(p);
    forall c ensures !IsCycle(p, c) {
      assert c != [] ==> !CycleLink(p, c, 0);
    }
  }

  /** Reconciles of single repositories, and copies out of some URLs into others only, cannot deadlock. */
  lemma OneWayCopiesNoDeadlock(p: Programs, sources: set<string>)
    requires forall t :: t in p ==> |p[t]| == 1 || (|p[t]| == 2 && p[t][0] in sources && p[t][1] !in sources)
    ensures !CanDeadlock(p)
  {
    SourcesApartNoDeadlock(p);
  }

  /** Two copies in opposite directions can. */
  lemma OppositeCopiesDeadlock(a: string, b: string)
    requires a != b
    ensures CanDeadlock(map[0 := [a, b], 1 := [b, a]])
  {
    var p: Programs := map[0 := [a, b], 1 := [b, a]];
    assert CycleLink(p, [0, 1], 0) && CycleLink(p, [0, 1], 1);
    assert IsCycle(p, [0, 1]);
    DeadlockIffCycle(p);
  }

  lemma UnblockedMoves(p: Programs, s: State, t: Tid)
    requires Inv(p, s) && t in s.threads && s.threads[t].stage != Done && !Blocked(s, t)
    ensures Step(s, t, false) != s
  {
    assert ThreadOk(p, s, t);
    assert Step(s, t, false).threads[t] != s.threads[t];
  }

  lemma SomeoneIsFree(p: Programs, s: State, t: Tid) returns (free: Tid)
    requires ValidPrograms(p) && Reachable(p, s) && !HasCycle(p)
    requires t in s.threads && s.threads[t].stage != Done
    ensures free in s.threads && s.threads[free].stage != Done && !Blocked(s, free)
  {
    var group := set x | x in s.threads && s.threads[x].stage != Done;
    if forall x :: x in group ==> Blocked(s, x) {
      ReachableInv(p, s);
      forall x | x in group ensures StuckIn(s, group, x) {
        WaitedForHolds(p, s, x);
        assert ThreadOk(p, s, WaitsFor(s, x));
      }
      assert t in group;
      DeadlockNeedsCycle(p, s, group);
    }
    free :| free in group && !Blocked(s, free);
  }

  /** Without a cycle, as long as a reconcile is unfinished some unfinished one is not blocked and moves. */
  lemma SomeoneCanMove(p: Programs, s: State, t: Tid)
    requires ValidPrograms(p) && Reachable(p, s) && !HasCycle(p)
    requires t in s.threads && s.threads[t].stage != Done
    ensures exists t' :: t' in s.threads && !Blocked(s, t') && Step(s, t', false) != s
  {
    var free := SomeoneIsFree(p, s, t);
    ReachableInv(p, s);
    UnblockedMoves(p, s, free);
  }

  // ---- without a cycle every reconcile ends ----

  function Missing(th: Thread): nat {
    if |th.held| < |th.urls| then |th.urls| - |th.held| else 0
  }

  /** More than the moves that a thread still has before it. */
  function Left(th: Thread): nat {
    match th.stage
    case Load => |th.held| + 4 * Missing(th) + 1
    case Lock(_) => |th.held| + 4 * Missing(th)
    case Work => |th.held| + 1
    case Release => |th.held|
    case Done => 0
  }

  /** Every step that changes anything brings its thread nearer to its end and leaves the others where they are. */
  lemma EveryStepCounts(p: Programs, s: State, t: Tid, fails: bool)
    requires Inv(p, s) && Step(s, t, fails) != s
    ensures var s' := Step(s, t, fails);
      && t in s.threads && s'.threads.Keys == s.threads.Keys && Left(s'.threads[t]) < Left(s.threads[t])
      && forall x :: x in s.threads && x != t ==> s'.threads[x] == s.threads[x]
  {
    assert ThreadOk(p, s, t);
  }

  lemma HolderIsBusy(p: Programs, s: State, m: nat)
    requires Inv(p, s) && m in s.holder
    ensures s.holder[m] in s.threads && s.threads[s.holder[m]].stage != Done
  {
    assert HolderOk(s, m);
    assert ThreadOk(p, s, s.holder[m]);
  }

  lemma NothingHeldAtTheEnd(p: Programs, s: State)
    requires Inv(p, s) && forall t :: t in s.threads ==> s.threads[t].stage == Done
    ensures s.holder == map[]
  {
    if m :| m in s.holder {
      HolderIsBusy(p, s, m);
    }
  }

  ghost function Total(threads: map<Tid, Thread>, keys: set<Tid>): nat
    requires keys <= threads.Keys
  {
    if keys == {} then 0
    else
      var t :| t in keys;
      Left(threads[t]) + Total(threads, keys - {t})
  }

  lemma {:induction false} TotalSplits(threads: map<Tid, Thread>, keys: set<Tid>, t: Tid)
    requires keys <= threads.Keys && t in keys
    ensures Total(threads, keys) == Left(threads[t]) + Total(threads, keys - {t})
    decreases |keys|
  {
    var first :| first in keys && Total(threads, keys) == Left(threads[first]) + Total(threads, keys - {first});
    if first != t {
      TotalSplits(threads, keys - {first}, t);
      TotalSplits(threads, keys - {t}, first);
      assert keys - {first} - {t} == keys - {t} - {first};
    }
  }

  lemma {:induction false} TotalOfSame(a: map<Tid, Thread>, b: map<Tid, Thread>, keys: set<Tid>)
    requires keys <= a.Keys && keys <= b.Keys && forall t :: t in keys ==> a[t] == b[t]
    ensures Total(a, keys) == Total(b, keys)
    decreases |keys|
  {
    if keys != {} {
      var t :| t in keys;
      TotalSplits(a, keys, t);
      TotalSplits(b, keys, t);
      TotalOfSame(a, b, keys - {t});
    }
  }

  lemma {:induction false} RunFirst(s: State, move: (Tid, bool), rest: seq<(Tid, bool)>)
    ensures Run(s, [move] + rest) == Run(Step(s, move.0, move.1), rest)
  {
    var all := [move] + rest;
    if rest == [] {
      assert all[..|all| - 1] == [];
    } else {
      var n := |rest| - 1;
      RunFirst(s, move, rest[..n]);
      assert all[..|all| - 1] == [move] + rest[..n];
    }
  }

  /** From every moment of every run without a cycle all reconciles can end, and then nothing is locked. */
  lemma {:induction false} AllCanEnd(p: Programs, s: State) returns (schedule: seq<(Tid, bool)>)
    requires ValidPrograms(p) && Reachable(p, s) && !HasCycle(p)
    ensures var end := Run(s, schedule);
      && end.threads.Keys == s.threads.Keys && (forall t :: t in end.threads ==> end.threads[t].stage == Done)
      && end.holder == map[]
    decreases Total(s.threads, s.threads.Keys)
  {
    ReachableInv(p, s);
    if t :| t in s.threads && s.threads[t].stage != Done {
      var free := SomeoneIsFree(p, s, t);
      UnblockedMoves(p, s, free);
      var next := Step(s, free, false);
      EveryStepCounts(p, s, free, false);
      ReachableSteps(p, s, free, false);
      TotalSplits(s.threads, s.threads.Keys, free);
      TotalSplits(next.threads, next.threads.Keys, free);
      TotalOfSame(s.threads, next.threads, s.threads.Keys - {free});
      var rest := AllCanEnd(p, next);
      RunFirst(s, (free, false), rest);
      schedule := [(free, false)] + rest;
    } else {
      schedule := [];
      NothingHeldAtTheEnd(p, s);
    }
  }

  /** A deadlock is for ever. */
  lemma {:induction false} DeadlockStays(p: Programs, s: State, group: set<Tid>, schedule: seq<(Tid, bool)>)
    requires Inv(p, s) && Deadlocked(s, group)
    ensures Deadlocked(Run(s, schedule), group)
  {
    if schedule != [] {
      var n := |schedule| - 1;
      DeadlockStays(p, s, group, schedule[..n]);
      RunKeepsInv(p, s, schedule[..n]);
      DeadlockStep(p, Run(s, schedule[..n]), group, schedule[n].0, schedule[n].1);
    }
  }

  lemma DeadlockStep(p: Programs, s: State, group: set<Tid>, x: Tid, fails: bool)
    requires Inv(p, s) && Deadlocked(s, group)
    ensures Deadlocked(Step(s, x, fails), group)
  {
    var s' := Step(s, x, fails);
    if x in group {
      assert StuckIn(s, group, x);
    } else if x in s.threads {
      assert ThreadOk(p, s, x);
      var th := s.threads[x];
      forall t | t in group ensures StuckIn(s', group, t) {
        assert StuckIn(s, group, t);
        assert th.stage.Release? ==> Owns(s, x, p[x][|th.held| - 1], th.held[|th.held| - 1]);
      }
    }
  }
}
