/** One mutex per repository URL, shared by three controllers: who can hold what, and exactly when
    the controllers can block each other for ever. */
module RepoLocks {

  type Tid = nat

  /** The URLs a reconcile locks, in order: a source repository, a target repository, or first a source and
      then a target. */
  type Programs = map<Tid, seq<string>>

  datatype Stage = Load | Lock(mutex: nat) | Work | Release | Done

  /** `held` are the mutexes of the first |held| URLs. */
  datatype Thread = Thread(urls: seq<string>, held: seq<nat>, stage: Stage)

  /** `table` is the `RepoMap`; a locked mutex has a holder. */
  datatype State = State(table: map<string, nat>, holder: map<nat, Tid>, threads: map<Tid, Thread>)

  /** The table all controllers share; `Valid` says that no two URLs have one mutex. */
  class RepoMap {
    var repos: map<string, nat>

    ghost predicate Valid()
      reads this
    {
      TableOk(repos)
    }

    constructor ()
      ensures Valid() && repos == map[]
    {
      repos := map[];
    }

    /** The mutex of a URL: always the same one, and never that of another URL. */
    method LoadOrStore(url: string) returns (mutex: nat)
      requires Valid()
      modifies this
      ensures Valid() && repos == Stored(old(repos), url)
      ensures url in repos && mutex == repos[url] && repos.Keys == old(repos.Keys) + {url}
      ensures forall u :: u in old(repos) ==> repos[u] == old(repos)[u]
      ensures forall u :: u in repos && repos[u] == mutex ==> u == url
    {
      StoredIsOk(repos, url);
      if url !in repos {
        repos := repos[url := |repos|];
      }
      mutex := repos[url];
    }
  }

  /** A URL not seen before gets a mutex of its own. */
  function Stored(table: map<string, nat>, url: string): (r: map<string, nat>)
    ensures url in r
  {
    if url in table then table else table[url := |table|]
  }

  ghost predicate Initial(p: Programs, s: State) {
    && s.table == map[] && s.holder == map[]
    && s.threads == map t | t in p :: Thread(p[t], [], Load)
  }

  ghost predicate ValidPrograms(p: Programs) {
    forall t :: t in p ==> 1 <= |p[t]| <= 2
  }

  predicate Blocked(s: State, t: Tid) {
    t in s.threads && s.threads[t].stage.Lock? && s.threads[t].stage.mutex in s.holder
  }

  /** One step of thread `t`; with `fails` an operation between two locks returns early. A blocked or finished
      thread does not move. */
  function Step(s: State, t: Tid, fails: bool): State {
    if t !in s.threads then s
    else
      var th := s.threads[t];
      match th.stage
      case Load =>
        if fails && th.held != [] then s.(threads := s.threads[t := th.(stage := Release)])
        else if |th.held| < |th.urls| then
          var table := Stored(s.table, th.urls[|th.held|]);
          s.(table := table, threads := s.threads[t := th.(stage := Lock(table[th.urls[|th.held|]]))])
        else s
      case Lock(m) =>
        if m in s.holder then s
        else
          var held := th.held + [m];
          s.(holder := s.holder[m := t],
             threads := s.threads[t := th.(held := held, stage := if |held| == |th.urls| then Work else Load)])
      case Work => s.(threads := s.threads[t := th.(stage := Release)])
      case Release =>
        // deferred unlocks: the last lock taken is released first
        if th.held == [] then s
        else
          var n := |th.held| - 1;
          s.(holder := s.holder - {th.held[n]},
             threads := s.threads[t := th.(held := th.held[..n], stage := if n == 0 then Done else Release)])
      case Done => s
  }

  function Run(s: State, schedule: seq<(Tid, bool)>): State {
    if schedule == [] then s
    else
      var last := schedule[|schedule| - 1];
      Step(Run(s, schedule[..|schedule| - 1]), last.0, last.1)
  }

  ghost predicate Reachable(p: Programs, s: State) {
    exists s0, schedule :: Initial(p, s0) && s == Run(s0, schedule)
  }

  // ---- the invariant ----

  ghost predicate TableOk(table: map<string, nat>) {
    && (forall u :: u in table ==> table[u] < |table|)
    && (forall u, v :: u in table && v in table && table[u] == table[v] ==> u == v)
  }

  ghost predicate Extends(table: map<string, nat>, later: map<string, nat>) {
    forall u :: u in table ==> u in later && later[u] == table[u]
  }

  lemma StoredIsOk(table: map<string, nat>, url: string)
    requires TableOk(table)
    ensures TableOk(Stored(table, url)) && Extends(table, Stored(table, url))
  {
  }

  ghost predicate HeldOk(s: State, t: Tid, urls: seq<string>, held: seq<nat>) {
    && |held| <= |urls|
    && (|held| == 2 ==> held[0] != held[1])
    && (forall i {:trigger Owns(s, t, urls[i], held[i])} :: 0 <= i < |held| ==> Owns(s, t, urls[i], held[i]))
  }

  ghost predicate Owns(s: State, t: Tid, url: string, m: nat) {
    url in s.table && m == s.table[url] && m in s.holder && s.holder[m] == t
  }

  ghost predicate StageOk(s: State, th: Thread) {
    match th.stage
    case Load => |th.held| < |th.urls|
    case Lock(m) => |th.held| < |th.urls| && th.urls[|th.held|] in s.table && m == s.table[th.urls[|th.held|]]
    case Work => |th.held| == |th.urls|
    case Release => th.held != []
    case Done => th.held == []
  }

  ghost predicate ThreadOk(p: Programs, s: State, t: Tid) {
    && t in p && t in s.threads && s.threads[t].urls == p[t] && 1 <= |p[t]| <= 2
    && HeldOk(s, t, p[t], s.threads[t].held) && StageOk(s, s.threads[t])
  }

  ghost predicate HolderOk(s: State, m: nat) {
    m in s.holder && s.holder[m] in s.threads && m in s.threads[s.holder[m]].held
  }

  ghost predicate Inv(p: Programs, s: State) {
    && TableOk(s.table)
    && s.threads.Keys == p.Keys
    && (forall t {:trigger ThreadOk(p, s, t)} :: t in p ==> ThreadOk(p, s, t))
    && (forall m {:trigger HolderOk(s, m)} :: m in s.holder ==> HolderOk(s, m))
  }

  /** A thread is not disturbed while the table only grows and the mutexes it holds stay its own. */
  lemma Undisturbed(p: Programs, s: State, s': State, x: Tid)
    requires ThreadOk(p, s, x) && x in s'.threads && s'.threads[x] == s.threads[x]
    requires Extends(s.table, s'.table)
    requires forall m :: m in s.holder && s.holder[m] == x ==> m in s'.holder && s'.holder[m] == x
    ensures ThreadOk(p, s', x)
  {
    forall i | 0 <= i < |s.threads[x].held| ensures Owns(s', x, p[x][i], s.threads[x].held[i]) {
      assert Owns(s, x, p[x][i], s.threads[x].held[i]);
    }
  }

  /** Only the stage of `t` changes, and perhaps a URL is entered in the table. */
  lemma MoveKeepsInv(p: Programs, s: State, t: Tid, table: map<string, nat>, stage: Stage)
    requires Inv(p, s) && t in p && TableOk(table) && Extends(s.table, table)
    requires StageOk(State(table, s.holder, s.threads), s.threads[t].(stage := stage))
    ensures Inv(p, State(table, s.holder, s.threads[t := s.threads[t].(stage := stage)]))
  {
    var s' := State(table, s.holder, s.threads[t := s.threads[t].(stage := stage)]);
    forall x | x in p ensures ThreadOk(p, s', x) {
      assert ThreadOk(p, s, x);
      if x != t { Undisturbed(p, s, s', x); } else { HeldCarries(s, s', t, p[t], s.threads[t].held); }
    }
    forall m | m in s'.holder ensures HolderOk(s', m) { assert HolderOk(s, m); }
  }

  lemma HeldCarries(s: State, s': State, t: Tid, urls: seq<string>, held: seq<nat>)
    requires HeldOk(s, t, urls, held) && Extends(s.table, s'.table) && s'.holder == s.holder
    ensures HeldOk(s', t, urls, held)
  {
    forall i | 0 <= i < |held| ensures Owns(s', t, urls[i], held[i]) { assert Owns(s, t, urls[i], held[i]); }
  }

  lemma AcquireKeepsInv(p: Programs, s: State, t: Tid, m: nat, stage: Stage)
    requires Inv(p, s) && t in p && s.threads[t].stage == Lock(m) && m !in s.holder
    requires stage == if |s.threads[t].held| + 1 == |p[t]| then Work else Load
    ensures Inv(p, State(s.table, s.holder[m := t], s.threads[t := Thread(p[t], s.threads[t].held + [m], stage)]))
  {
    var th := s.threads[t];
    var s' := State(s.table, s.holder[m := t], s.threads[t := Thread(p[t], th.held + [m], stage)]);
    assert ThreadOk(p, s, t);
    forall i | 0 <= i < |th.held| + 1 ensures Owns(s', t, p[t][i], (th.held + [m])[i]) {
      if i < |th.held| { assert Owns(s, t, p[t][i], th.held[i]); }
    }
    forall x | x in p && x != t ensures ThreadOk(p, s', x) { Undisturbed(p, s, s', x); }
    assert |th.held| == 1 ==> Owns(s, t, p[t][0], th.held[0]);
    forall k | k in s'.holder ensures HolderOk(s', k) {
      if k == m { assert (th.held + [m])[|th.held|] == m; } else { assert HolderOk(s, k); }
    }
  }

  lemma UnlockKeepsInv(p: Programs, s: State, t: Tid, n: nat, stage: Stage)
    requires Inv(p, s) && t in p && s.threads[t].stage.Release? && n + 1 == |s.threads[t].held|
    requires stage == if n == 0 then Done else Release
    ensures Inv(p, State(s.table, s.holder - {s.threads[t].held[n]},
                         s.threads[t := Thread(p[t], s.threads[t].held[..n], stage)]))
  {
    var th := s.threads[t];
    var m := th.held[n];
    var s' := State(s.table, s.holder - {m}, s.threads[t := Thread(p[t], th.held[..n], stage)]);
    assert ThreadOk(p, s, t);
    assert Owns(s, t, p[t][n], m);
    forall i | 0 <= i < n ensures Owns(s', t, p[t][i], th.held[..n][i]) {
      assert Owns(s, t, p[t][i], th.held[i]);
    }
    forall x | x in p && x != t ensures ThreadOk(p, s', x) { Undisturbed(p, s, s', x); }
    forall k | k in s'.holder ensures HolderOk(s', k) {
      assert HolderOk(s, k);
      StillHeld(th.held, n, k);
    }
  }

  lemma StillHeld(held: seq<nat>, n: nat, k: nat)
    requires n + 1 == |held|
    ensures k in held && k != held[n] ==> k in held[..n]
  {
    assert held == held[..n] + [held[n]];
  }

  lemma LoadKeepsInv(p: Programs, s: State, t: Tid, fails: bool)
    requires Inv(p, s) && t in p && s.threads[t].stage.Load?
    ensures Inv(p, Step(s, t, fails))
  {
    var th := s.threads[t];
    assert ThreadOk(p, s, t);
    if fails && th.held != [] {
      MoveKeepsInv(p, s, t, s.table, Release);
    } else {
      var u := th.urls[|th.held|];
      StoredIsOk(s.table, u);
      MoveKeepsInv(p, s, t, Stored(s.table, u), Lock(Stored(s.table, u)[u]));
    }
  }

  lemma LockKeepsInv(p: Programs, s: State, t: Tid, fails: bool)
    requires Inv(p, s) && t in p && s.threads[t].stage.Lock?
    ensures Inv(p, Step(s, t, fails))
  {
    var th := s.threads[t];
    assert ThreadOk(p, s, t);
    if th.stage.mutex !in s.holder {
      AcquireKeepsInv(p, s, t, th.stage.mutex, if |th.held| + 1 == |p[t]| then Work else Load);
    }
  }

  lemma StepKeepsInv(p: Programs, s: State, t: Tid, fails: bool)
    requires Inv(p, s)
    ensures Inv(p, Step(s, t, fails))
  {
    if t in p {
      assert ThreadOk(p, s, t);
      match s.threads[t].stage
      case Load => LoadKeepsInv(p, s, t, fails);
      case Lock(_) => LockKeepsInv(p, s, t, fails);
      case Work => MoveKeepsInv(p, s, t, s.table, Release);
      case Release =>
        var n := |s.threads[t].held| - 1;
        UnlockKeepsInv(p, s, t, n, if n == 0 then Done else Release);
      case Done =>
    }
  }

  lemma {:induction false} RunKeepsInv(p: Programs, s: State, schedule: seq<(Tid, bool)>)
    requires Inv(p, s)
    ensures Inv(p, Run(s, schedule))
  {
    if schedule != [] {
      var n := |schedule| - 1;
      RunKeepsInv(p, s, schedule[..n]);
      StepKeepsInv(p, Run(s, schedule[..n]), schedule[n].0, schedule[n].1);
    }
  }

  lemma ReachableInv(p: Programs, s: State)
    requires ValidPrograms(p) && Reachable(p, s)
    ensures Inv(p, s)
  {
    var s0, schedule :| Initial(p, s0) && s == Run(s0, schedule);
    RunKeepsInv(p, s0, schedule);
  }

  // ---- what a reconcile does ----

  /** A reconcile that is not held up takes the lock of its next URL; it works only when it holds all of them. */
  lemma TakesNextLock(p: Programs, s: State, t: Tid)
    requires Inv(p, s) && t in p
    ensures s.threads[t].stage.Load? ==>
      Step(s, t, false).threads[t].stage.Lock? && Step(s, t, false).threads[t].held == s.threads[t].held
    ensures s.threads[t].stage.Lock? && !Blocked(s, t) ==>
      var n := |s.threads[t].held|;
      && n < |p[t]| && forall i :: 0 <= i <= n ==> Holds(Step(s, t, false), t, p[t][i])
    ensures s.threads[t].stage == Work ==> forall i :: 0 <= i < |p[t]| ==> Holds(s, t, p[t][i])
    ensures s.threads[t].stage == Work ==> Step(s, t, false).threads[t].stage == Release
  {
    assert ThreadOk(p, s, t);
    if s.threads[t].stage.Lock? && !Blocked(s, t) {
      var next, n := Step(s, t, false), |s.threads[t].held|;
      forall i | 0 <= i <= n ensures Holds(next, t, p[t][i]) {
        assert i < |next.threads[t].held| && next.threads[t].urls[i] == p[t][i];
      }
    }
    if s.threads[t].stage == Work {
      forall i | 0 <= i < |p[t]| ensures Holds(s, t, p[t][i]) {
        assert i < |s.threads[t].held| && s.threads[t].urls[i] == p[t][i];
      }
    }
  }

  /** A reconcile that fails between its two locks gives back the first and is done. */
  lemma FailureLetsGo(p: Programs, s: State, t: Tid, fails: bool)
    requires Inv(p, s) && t in p && s.threads[t].stage.Load? && s.threads[t].held != []
    ensures var end := Step(Step(s, t, true), t, fails);
      end.threads[t].stage == Done && end.threads[t].held == [] && end.holder == s.holder - {s.threads[t].held[0]}
  {
    assert ThreadOk(p, s, t);
  }

  // ---- mutual exclusion ----

  ghost predicate Holds(s: State, t: Tid, url: string) {
    t in s.threads && exists i :: 0 <= i < |s.threads[t].held| && i < |s.threads[t].urls| && s.threads[t].urls[i] == url
  }

  /** At every moment of every interleaving a URL has at most one holder. */
  lemma AtMostOneHolder(p: Programs, s: State, t: Tid, t': Tid, url: string)
    requires ValidPrograms(p) && Reachable(p, s) && Holds(s, t, url) && Holds(s, t', url)
    ensures t == t'
  {
    ReachableInv(p, s);
    assert ThreadOk(p, s, t) && ThreadOk(p, s, t');
    var i :| 0 <= i < |s.threads[t].held| && i < |p[t]| && p[t][i] == url;
    var j :| 0 <= j < |s.threads[t'].held| && j < |p[t']| && p[t'][j] == url;
    assert Owns(s, t, url, s.threads[t].held[i]) && Owns(s, t', url, s.threads[t'].held[j]);
  }
}
