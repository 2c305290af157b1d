/** Core package installation: the installers run side by side and report failures on one buffered channel,
    which is closed once all have returned; the reconciler waits for the first message, for the close, or leaves
    because its own context ended. */
module InstallerChannel {

  datatype Stage = Running | Sending | Returned(failed: bool)

  /** `Failed(i)`: received the error of installer i. `Clear`: received nil from the closed channel. */
  datatype Receiver = Waiting | Failed(installer: nat) | Clear | Left

  /** `buffer` lists the installers whose errors are in the channel. `panicked` records a send on a closed
      channel. */
  datatype State = State(stages: seq<Stage>, buffer: seq<nat>, closed: bool, receiver: Receiver, panicked: bool)

  datatype Event = Finish(i: nat, failed: bool) | Send(i: nat) | Close | Receive | Leave

  function Start(n: nat): State {
    State(seq(n, _ => Running), [], false, Waiting, false)
  }

  predicate AllReturned(s: State) {
    forall i :: 0 <= i < |s.stages| ==> s.stages[i].Returned?
  }

  /** An event that cannot happen now leaves the state as it is. */
  function Step(s: State, capacity: nat, e: Event): State {
    match e
    case Finish(i, failed) =>
      if i < |s.stages| && s.stages[i].Running? then
        s.(stages := s.stages[i := if failed then Sending else Returned(false)])
      else s
    case Send(i) =>
      if i < |s.stages| && s.stages[i].Sending? then
        if s.closed then s.(panicked := true)
        else if |s.buffer| < capacity then s.(buffer := s.buffer + [i], stages := s.stages[i := Returned(true)])
        else s
      else s
    case Close =>
      if AllReturned(s) then s.(closed := true) else s
    case Receive =>
      if !s.receiver.Waiting? then s
      else if s.buffer != [] then s.(receiver := Failed(s.buffer[0]), buffer := s.buffer[1..])
      else if s.closed then s.(receiver := Clear)
      else s
    case Leave =>
      if s.receiver.Waiting? then s.(receiver := Left) else s
  }

  function Run(s: State, capacity: nat, events: seq<Event>): State {
    if events == [] then s
    else Step(Run(s, capacity, events[..|events| - 1]), capacity, events[|events| - 1])
  }

  /** Reached from `n` running installers. */
  ghost predicate Reachable(n: nat, capacity: nat, s: State) {
    exists events :: s == Run(Start(n), capacity, events)
  }

  // ---- the invariant ----

  predicate Distinct(b: seq<nat>) {
    forall i, j :: 0 <= i < j < |b| ==> b[i] != b[j]
  }

  /** Every failed installer's error is in the channel or was received, each once; the channel is closed only
      when all have returned; a nil was received only from a closed channel that never held an error. */
  ghost predicate Inv(n: nat, s: State) {
    && |s.stages| == n && !s.panicked && Distinct(s.buffer)
    && (forall x :: x in s.buffer ==> x < n && s.stages[x] == Returned(true))
    && (s.receiver.Failed? ==>
      s.receiver.installer < n && s.stages[s.receiver.installer] == Returned(true) && s.receiver.installer !in s.buffer)
    && (forall i :: 0 <= i < n && s.stages[i] == Returned(true) ==> i in s.buffer || s.receiver == Failed(i))
    && (s.closed ==> AllReturned(s))
    && (s.receiver.Clear? ==> s.closed && s.buffer == [])
  }

  lemma StepKeepsInv(n: nat, capacity: nat, s: State, e: Event)
    requires Inv(n, s)
    ensures Inv(n, Step(s, capacity, e))
  {
    var s' := Step(s, capacity, e);
    if e.Receive? && s.receiver.Waiting? && s.buffer != [] {
      assert forall x :: x in s.buffer ==> x == s.buffer[0] || x in s'.buffer;
      assert forall x :: x in s'.buffer ==> x in s.buffer;
    } else if e.Send? {
      assert forall x :: x in s'.buffer ==> x in s.buffer || x == e.i;
      assert forall x :: x in s.buffer ==> x in s'.buffer;
    }
  }

  lemma {:induction false} RunKeepsInv(n: nat, capacity: nat, events: seq<Event>)
    ensures Inv(n, Run(Start(n), capacity, events))
  {
    if events != [] {
      RunKeepsInv(n, capacity, events[..|events| - 1]);
      StepKeepsInv(n, capacity, Run(Start(n), capacity, events[..|events| - 1]), events[|events| - 1]);
    }
  }

  // ---- no sender blocks ----

  function Below(n: nat): (r: set<nat>)
    ensures |r| == n && forall x: nat :: x in r <==> x < n
  {
    if n == 0 then {} else Below(n - 1) + {n - 1}
  }

  lemma {:induction false} DistinctFit(b: seq<nat>, room: set<nat>)
    requires Distinct(b) && forall x :: x in b ==> x in room
    ensures |b| <= |room|
  {
    if b != [] {
      DistinctFit(b[1..], room - {b[0]});
    }
  }

  /** With room for one error each, no installer ever waits to send or sends on the closed channel, whatever the
      receiver does. */
  lemma NoSenderBlocks(n: nat, capacity: nat, s: State, i: nat)
    requires n <= capacity && Reachable(n, capacity, s) && i < |s.stages| && s.stages[i].Sending?
    ensures |s.buffer| < capacity && !s.closed
    ensures Step(s, capacity, Send(i)).stages[i] == Returned(true)
  {
    var events :| s == Run(Start(n), capacity, events);
    RunKeepsInv(n, capacity, events);
    assert Inv(n, s);
    DistinctFit(s.buffer, Below(n) - {i});
  }

  /** A send on the closed channel would panic; that never happens, whatever the room. */
  lemma NothingPanics(n: nat, capacity: nat, s: State, i: nat)
    ensures i < |s.stages| && s.stages[i].Sending? && s.closed ==> Step(s, capacity, Send(i)).panicked
    ensures Reachable(n, capacity, s) ==> !s.panicked
  {
    if Reachable(n, capacity, s) {
      var events :| s == Run(Start(n), capacity, events);
      RunKeepsInv(n, capacity, events);
    }
  }

  /** An installer waits to send on a full channel that nobody reads any more. */
  predicate Stuck(s: State, capacity: nat, i: nat) {
    && i < |s.stages| && s.stages[i].Sending? && !s.closed
    && capacity <= |s.buffer| && !s.receiver.Waiting?
  }

  lemma {:induction false} StuckForEver(s: State, capacity: nat, i: nat, events: seq<Event>)
    requires Stuck(s, capacity, i)
    ensures Stuck(Run(s, capacity, events), capacity, i)
  {
    if events != [] {
      StuckForEver(s, capacity, i, events[..|events| - 1]);
    }
  }

  /** The receiver leaves and the first `k` installers fail. */
  lemma {:induction false} FillChannel(n: nat, capacity: nat, k: nat) returns (s: State)
    requires k <= n && k <= capacity
    ensures Reachable(n, capacity, s) && s.receiver.Left? && !s.closed && |s.buffer| == k && |s.stages| == n
    ensures forall i :: k <= i < n ==> s.stages[i].Running?
  {
    if k == 0 {
      assert Start(n) == Run(Start(n), capacity, []);
      s := ReachStep(n, capacity, Start(n), Leave);
    } else {
      var before := FillChannel(n, capacity, k - 1);
      var failing := ReachStep(n, capacity, before, Finish(k - 1, true));
      s := ReachStep(n, capacity, failing, Send(k - 1));
    }
  }

  lemma ReachStep(n: nat, capacity: nat, s: State, e: Event) returns (next: State)
    requires Reachable(n, capacity, s)
    ensures next == Step(s, capacity, e) && Reachable(n, capacity, next)
  {
    var events :| s == Run(Start(n), capacity, events);
    next := Step(s, capacity, e);
    assert (events + [e])[..|events|] == events;
    assert next == Run(Start(n), capacity, events + [e]);
  }

  ghost predicate CanStick(n: nat, capacity: nat) {
    exists s, i :: Reachable(n, capacity, s) && Stuck(s, capacity, i)
  }

  /** Some interleaving leaves an installer blocked for ever exactly when the channel has fewer places than there
      are installers. */
  lemma SticksIff(n: nat, capacity: nat)
    ensures CanStick(n, capacity) <==> capacity < n
  {
    if capacity < n {
      var full := FillChannel(n, capacity, capacity);
      var s := ReachStep(n, capacity, full, Finish(capacity, true));
      assert Stuck(s, capacity, capacity);
    } else {
      forall s: State, i: nat | Reachable(n, capacity, s) ensures !Stuck(s, capacity, i) {
        if i < |s.stages| && s.stages[i].Sending? {
          NoSenderBlocks(n, capacity, s, i);
        }
      }
    }
  }

  // ---- what the receiver may conclude ----

  /** Reconciliation goes on past the installation only when every installer has returned without an error; a
      reported error is that of an installer that failed. */
  lemma ProceedsOnlyAfterSuccess(n: nat, capacity: nat, s: State)
    requires Reachable(n, capacity, s)
    ensures s.receiver.Clear? ==> |s.stages| == n && forall i :: 0 <= i < n ==> s.stages[i] == Returned(false)
    ensures s.receiver.Failed? ==> s.receiver.installer < |s.stages| && s.stages[s.receiver.installer] == Returned(true)
  {
    var events :| s == Run(Start(n), capacity, events);
    RunKeepsInv(n, capacity, events);
    assert Inv(n, s);
  }

  /** The installer whose error enters the channel with the event, if one does. */
  function SentBy(s: State, capacity: nat, e: Event): seq<nat> {
    if e.Send? && |Step(s, capacity, e).buffer| > |s.buffer| then [e.i] else []
  }

  /** The installers whose errors entered the channel, in the order in which they did. */
  function Sent(n: nat, capacity: nat, events: seq<Event>): seq<nat> {
    if events == [] then []
    else
      var front := events[..|events| - 1];
      Sent(n, capacity, front) + SentBy(Run(Start(n), capacity, front), capacity, events[|events| - 1])
  }

  /** The first of `sent` was received, if anything was, and the others are in the channel. */
  predicate Tells(s: State, sent: seq<nat>) {
    sent == if s.receiver.Failed? then [s.receiver.installer] + s.buffer else s.buffer
  }

  lemma StepTells(s: State, capacity: nat, e: Event, sent: seq<nat>)
    requires Tells(s, sent)
    ensures Tells(Step(s, capacity, e), sent + SentBy(s, capacity, e))
  {
    if e.Receive? && s.receiver.Waiting? && s.buffer != [] {
      assert s.buffer == [s.buffer[0]] + s.buffer[1..];
    }
  }

  /** The receiver is told of the error that was sent first. */
  lemma {:induction false} FirstErrorIsReceived(n: nat, capacity: nat, events: seq<Event>)
    ensures Tells(Run(Start(n), capacity, events), Sent(n, capacity, events))
    ensures var r := Run(Start(n), capacity, events).receiver;
      r.Failed? ==> Sent(n, capacity, events) != [] && r.installer == Sent(n, capacity, events)[0]
  {
    if events != [] {
      var front := events[..|events| - 1];
      FirstErrorIsReceived(n, capacity, front);
      StepTells(Run(Start(n), capacity, front), capacity, events[|events| - 1], Sent(n, capacity, front));
    }
  }

  /** What is still to happen: two moves for each running installer, one for each sending one, the close and the
      receive. */
  function Pending(stages: seq<Stage>): nat {
    if stages == [] then 0
    else Pending(stages[..|stages| - 1])
         + (match stages[|stages| - 1] case Running => 2 case Sending => 1 case Returned(_) => 0)
  }

  function Remaining(s: State): nat {
    Pending(s.stages) + (if s.closed then 0 else 1) + (if s.receiver.Waiting? then 1 else 0)
  }

  lemma {:induction false} PendingDrops(stages: seq<Stage>, i: nat, next: Stage)
    requires i < |stages|
    requires (stages[i].Running? && !next.Running?) || (stages[i].Sending? && next.Returned?)
    ensures Pending(stages[i := next]) < Pending(stages)
  {
    var n := |stages| - 1;
    if i < n {
      PendingDrops(stages[..n], i, next);
      assert stages[i := next][..n] == stages[..n][i := next];
    } else {
      assert stages[i := next][..n] == stages[..n];
    }
  }

  /** Every event that changes anything brings the end nearer. */
  lemma EveryMoveCounts(n: nat, capacity: nat, s: State, e: Event)
    requires Inv(n, s) && Step(s, capacity, e) != s
    ensures Remaining(Step(s, capacity, e)) < Remaining(s)
  {
    match e
    case Finish(i, failed) => PendingDrops(s.stages, i, if failed then Sending else Returned(false));
    case Send(i) => PendingDrops(s.stages, i, Returned(true));
    case _ =>
  }

  /** With room for every error, a run in which nothing but leaving is possible has returned every
      installer, closed the channel and released the receiver. */
  lemma EndsClosed(n: nat, capacity: nat, s: State)
    requires n <= capacity && Reachable(n, capacity, s)
    requires forall e: Event :: !e.Leave? ==> Step(s, capacity, e) == s
    ensures AllReturned(s) && s.closed && !s.receiver.Waiting?
    ensures s.receiver.Left?
            || (s.receiver.Clear? <==> forall i :: 0 <= i < |s.stages| ==> s.stages[i] == Returned(false))
  {
    var events :| s == Run(Start(n), capacity, events);
    RunKeepsInv(n, capacity, events);
    forall i | 0 <= i < |s.stages| ensures s.stages[i].Returned? {
      assert Step(s, capacity, Finish(i, false)) == s;
      assert Step(s, capacity, Send(i)) == s;
      if s.stages[i].Sending? {
        NoSenderBlocks(n, capacity, s, i);
      }
    }
    assert Step(s, capacity, Close) == s;
    assert Step(s, capacity, Receive) == s;
  }
}
