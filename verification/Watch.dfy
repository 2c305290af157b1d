/** The watch loop: poll the hash of the stacks tree, wait until a change has been stable for the debounce time,
    then sync. */
module Watch {

  import opened Options

  /** One poll as the loop sees it: the context ended, or a tick with the hash of the tree (`None`: hashing
      failed), the clock, what a sync started now would return, the clock after it and the hash taken after a
      successful sync. */
  datatype Poll =
    | Cancelled
    | Tick(hash: Option<string>, now: int, syncs: bool, done: int, after: Option<string>)

  /** The loop's variables. */
  datatype State = State(last: string, pending: string, lastChange: int, failures: nat)

  /** What one turn of the loop did. */
  datatype Turn = Idle | Reverted | Detected | Failed | Synced | HashFailed | Stopped

  /** `Watching`: still running after the last poll given. */
  datatype Ending = Watching | Ended | Error

  function TurnOf(s: State, p: Poll, debounce: int): Turn {
    match p
    case Cancelled => Stopped
    case Tick(hash, now, syncs, done, after) =>
      if hash.None? then HashFailed
      else if s.pending != "" && hash.value == s.last then Reverted
      else if hash.value != s.last && hash.value != s.pending then Detected
      else if s.pending == "" || now - s.lastChange < debounce then Idle
      else if !syncs then Failed
      else if after.None? then HashFailed
      else Synced
  }

  function Next(s: State, p: Poll, debounce: int): State {
    match TurnOf(s, p, debounce)
    case Reverted => s.(pending := "")
    case Detected => s.(pending := p.hash.value, lastChange := p.now)
    case Failed => s.(lastChange := p.done, failures := s.failures + 1)
    case Synced => State(p.after.value, "", s.lastChange, 0)
    case _ => s
  }

  /** The polls of a watch and the loop's variables before, between and after them. */
  datatype Run = Run(debounce: int, polls: seq<Poll>, states: seq<State>)

  ghost predicate StepAt(r: Run, k: nat)
    requires |r.states| == |r.polls| + 1 && k < |r.polls|
  {
    r.states[k + 1] == Next(r.states[k], r.polls[k], r.debounce)
  }

  /** A watch that started with hash `first` and has not ended before its last poll. */
  ghost predicate IsRun(r: Run, first: string) {
    && |r.states| == |r.polls| + 1 && r.states[0] == State(first, "", 0, 0)
    && (forall k {:trigger StepAt(r, k)} :: 0 <= k < |r.polls| ==> StepAt(r, k))
    && (forall k :: 0 <= k < |r.polls| - 1 ==> TurnAt(r, k) != HashFailed && TurnAt(r, k) != Stopped)
  }

  ghost function TurnAt(r: Run, k: nat): Turn
    requires |r.states| == |r.polls| + 1 && k < |r.polls|
  {
    TurnOf(r.states[k], r.polls[k], r.debounce)
  }

  /** The loop. `turns` is what it reports turn by turn; it ends early on a cancelled context or a failed hash. */
  method WatchAndSync(initial: Option<string>, polls: seq<Poll>, debounce: int)
    returns (ending: Ending, turns: seq<Turn>, ghost states: seq<State>)
    ensures |turns| <= |polls|
    ensures initial.None? ==> ending == Error && turns == []
    ensures initial.Some? ==>
      var r := Run(debounce, polls[..|turns|], states);
      && IsRun(r, initial.value)
      && (forall k :: 0 <= k < |turns| ==> turns[k] == TurnAt(r, k))
      && (ending == Watching <==> turns == [] || turns[|turns| - 1] !in {HashFailed, Stopped})
      && (ending == Error <==> turns != [] && turns[|turns| - 1] == HashFailed)
      && (ending == Watching ==> |turns| == |polls|)
  {
    turns, states := [], [];
    if initial.None? {
      return Error, turns, states;
    }
    var last, pending, lastChange, failures := initial.value, "", 0, 0;
    states := [State(last, pending, lastChange, failures)];
    var k := 0;
    while k < |polls|
      invariant 0 <= k <= |polls| && |turns| == k && |states| == k + 1
      invariant State(last, pending, lastChange, failures) == states[k]
      invariant states[0] == State(initial.value, "", 0, 0)
      invariant forall i :: 0 <= i < k ==> turns[i] == TurnOf(states[i], polls[i], debounce)
      invariant forall i :: 0 <= i < k ==> states[i + 1] == Next(states[i], polls[i], debounce)
      invariant forall i :: 0 <= i < k ==> turns[i] != HashFailed && turns[i] != Stopped
    {
      var p := polls[k];
      k := k + 1;
      states := states + [Next(states[k - 1], p, debounce)];
      if p.Cancelled? {
        return Ended, turns + [Stopped], states;
      }
      if p.hash.None? {
        return Error, turns + [HashFailed], states;
      }
      var hash := p.hash.value;
      if pending != "" && hash == last {
        pending := "";
        turns := turns + [Reverted];
        continue;
      }
      if hash != last && hash != pending {
        pending, lastChange := hash, p.now;
        turns := turns + [Detected];
        continue;
      }
      if pending == "" || p.now - lastChange < debounce {
        turns := turns + [Idle];
        continue;
      }
      if !p.syncs {
        failures := failures + 1;
        lastChange := p.done;
        turns := turns + [Failed];
        continue;
      }
      if p.after.None? {
        return Error, turns + [HashFailed], states;
      }
      last, pending, failures := p.after.value, "", 0;
      turns := turns + [Synced];
    }
    ending := Watching;
  }

  // ---- what a run looks like ----

  predicate Saw(p: Poll, hash: string) {
    p.Tick? && p.hash == Some(hash)
  }

  /** Before the last poll of a run every poll is a tick with a hash. */
  lemma EarlierTicked(r: Run, first: string, k: nat)
    requires IsRun(r, first) && k + 1 < |r.polls|
    ensures r.polls[k].Tick? && r.polls[k].hash.Some? && StepAt(r, k)
    ensures TurnAt(r, k) == Synced ==> r.polls[k].after.Some?
  {
    assert TurnAt(r, k) != HashFailed && TurnAt(r, k) != Stopped;
  }

  /** A turn that records the clock: a change detected, or a failed sync. */
  ghost predicate Stamps(r: Run, k: nat)
    requires |r.states| == |r.polls| + 1 && k < |r.polls|
  {
    r.polls[k].Tick? && TurnAt(r, k) in {Detected, Failed}
  }

  ghost function Stamp(r: Run, k: nat): int
    requires |r.states| == |r.polls| + 1 && k < |r.polls| && Stamps(r, k)
  {
    if TurnAt(r, k) == Detected then r.polls[k].now else r.polls[k].done
  }

  /** Between two polls the pending hash is what the last poll saw, unless that is the hash last synced or the
      poll itself synced it; so it is never the hash last synced. */
  lemma {:induction false} PendingIsTheUnsyncedHash(r: Run, first: string, k: nat)
    requires IsRun(r, first) && k + 1 < |r.polls|
    ensures r.polls[k].Tick? && r.polls[k].hash.Some?
    ensures var s, seen := r.states[k + 1], r.polls[k].hash.value;
            && s.pending == (if TurnAt(r, k) == Synced || seen == s.last then "" else seen)
            && (s.pending != "" ==> s.pending != s.last)
  {
    EarlierTicked(r, first, k);
    if k > 0 {
      PendingIsTheUnsyncedHash(r, first, k - 1);
    }
  }

  /** Turn `j` recorded the clock, and up to poll `k` the tree was seen unchanged and nothing else happened. */
  ghost predicate Stable(r: Run, j: nat, k: nat, hash: string)
    requires |r.states| == |r.polls| + 1
  {
    && j < k < |r.polls| && Stamps(r, j)
    && (forall i :: j <= i < k ==> Saw(r.polls[i], hash))
    && (forall i :: j < i < k ==> TurnAt(r, i) == Idle)
  }

  /** While a change is pending, the tree has been stable since the turn whose clock reading is `lastChange`. */
  lemma {:induction false} PendingIsStable(r: Run, first: string, k: nat) returns (j: nat)
    requires IsRun(r, first) && k < |r.polls| && r.states[k].pending != ""
    ensures Stable(r, j, k, r.states[k].pending) && r.states[k].lastChange == Stamp(r, j)
  {
    EarlierTicked(r, first, k - 1);
    PendingIsTheUnsyncedHash(r, first, k - 1);
    if TurnAt(r, k - 1) == Detected || TurnAt(r, k - 1) == Failed {
      j := k - 1;
    } else {
      j := PendingIsStable(r, first, k - 1);
    }
  }

  lemma {:induction false} StableIsPending(r: Run, first: string, j: nat, k: nat, hash: string)
    requires IsRun(r, first) && Stable(r, j, k, hash)
    ensures r.states[k].pending == hash && r.states[k].lastChange == Stamp(r, j)
  {
    EarlierTicked(r, first, k - 1);
    PendingIsTheUnsyncedHash(r, first, k - 1);
    if j < k - 1 {
      StableIsPending(r, first, j, k - 1, hash);
    }
  }

  /** Turn `k` calls the sync. */
  ghost predicate CallsSync(r: Run, k: nat)
    requires |r.states| == |r.polls| + 1 && k < |r.polls|
  {
    || TurnAt(r, k) in {Failed, Synced}
    || (TurnAt(r, k) == HashFailed && r.polls[k].hash.Some?)
  }

  /** A sync is due at poll `k`: the tree is not as last synced, it was seen unchanged since turn `j`, and the
      debounce time has passed since that turn's clock reading. */
  ghost predicate Due(r: Run, j: nat, k: nat)
    requires |r.states| == |r.polls| + 1 && k < |r.polls|
  {
    && r.polls[k].Tick? && r.polls[k].hash.Some? && r.polls[k].hash.value !in {"", r.states[k].last}
    && Stable(r, j, k, r.polls[k].hash.value)
    && r.debounce <= r.polls[k].now - Stamp(r, j)
  }

  /** The sync is called exactly when it is due; and what then becomes of the turn is what the sync and the hash after
      it say. */
  lemma SyncsExactlyWhenDue(r: Run, first: string, k: nat)
    requires IsRun(r, first) && k < |r.polls|
    ensures CallsSync(r, k) <==> exists j :: Due(r, j, k)
    ensures CallsSync(r, k) ==>
      && r.polls[k].Tick?
      && (TurnAt(r, k) == Failed <==> !r.polls[k].syncs)
      && (TurnAt(r, k) == Synced <==> r.polls[k].syncs && r.polls[k].after.Some?)
      && (TurnAt(r, k) == Synced ==> r.states[k + 1].last == r.polls[k].after.value)
  {
    assert StepAt(r, k);
    if CallsSync(r, k) {
      var j := PendingIsStable(r, first, k);
      if k > 0 { PendingIsTheUnsyncedHash(r, first, k - 1); }
      assert Due(r, j, k);
    }
    if j :| Due(r, j, k) {
      StableIsPending(r, first, j, k, r.polls[k].hash.value);
    }
  }

  /** The failures counted are those since the last sync that succeeded. */
  lemma {:induction false} FailuresAreSinceLastSync(r: Run, first: string, k: nat) returns (j: nat)
    requires IsRun(r, first) && k <= |r.polls|
    ensures j <= k && (j == 0 || TurnAt(r, j - 1) == Synced) && forall i :: j <= i < k ==> TurnAt(r, i) != Synced
    ensures r.states[k].failures == FailedBetween(r, j, k)
  {
    if k == 0 {
      j := 0;
    } else {
      assert StepAt(r, k - 1);
      j := FailuresAreSinceLastSync(r, first, k - 1);
      if TurnAt(r, k - 1) == Synced {
        j := k;
      }
    }
  }

  ghost function FailedBetween(r: Run, j: nat, k: nat): nat
    requires |r.states| == |r.polls| + 1 && j <= k <= |r.polls|
  {
    if j == k then 0 else FailedBetween(r, j, k - 1) + (if TurnAt(r, k - 1) == Failed then 1 else 0)
  }

  /** After a failed sync, as long as the tree stays as it is, the change stays pending and the next attempt comes
      at the first poll a debounce time later. */
  lemma {:induction false} FailedSyncIsRetried(r: Run, first: string, k: nat, m: nat)
    requires IsRun(r, first) && k < m < |r.polls| && TurnAt(r, k) == Failed
    requires forall i :: k < i <= m ==> Saw(r.polls[i], r.states[k].pending)
    requires forall i :: k < i < m ==> r.polls[i].Tick? && r.polls[i].now - r.polls[k].done < r.debounce
    ensures r.states[m] == r.states[k + 1]
    ensures r.polls[m].Tick? && (CallsSync(r, m) <==> r.debounce <= r.polls[m].now - r.polls[k].done)
  {
    EarlierTicked(r, first, m - 1);
    EarlierTicked(r, first, k);
    if k > 0 { PendingIsTheUnsyncedHash(r, first, k - 1); }
    if k + 1 < m {
      FailedSyncIsRetried(r, first, k, m - 1);
    }
  }

  /** An edit made while a sync runs is taken for synced: after the sync the turns are idle exactly as long as the tree
      hashes as it did right after that sync. */
  lemma {:induction false} EditDuringSyncIsAbsorbed(r: Run, first: string, k: nat, m: nat)
    requires IsRun(r, first) && k < m < |r.polls| && TurnAt(r, k) == Synced
    requires forall i :: k < i <= m ==> !Saw(r.polls[i], "")
    ensures (forall i :: k < i <= m ==> TurnAt(r, i) == Idle) <==>
            (forall i :: k < i <= m ==> Saw(r.polls[i], r.polls[k].after.value))
    ensures (forall i :: k < i <= m ==> TurnAt(r, i) == Idle) ==> r.states[m] == r.states[k + 1]
  {
    EarlierTicked(r, first, m - 1);
    EarlierTicked(r, first, k);
    if k + 1 < m {
      EditDuringSyncIsAbsorbed(r, first, k, m - 1);
    }
    assert r.states[m] == r.states[k + 1] ==>
      (TurnAt(r, m) == Idle <==> Saw(r.polls[m], r.polls[k].after.value));
  }
}
