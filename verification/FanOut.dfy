/** The poll fan-out: a spawn loop, a semaphore of five slots and a WaitGroup. */
module FanOut {
  const CONCURRENCY: nat := 5

  /** A target's goroutine: the slot is released, then the WaitGroup told. */
  datatype Phase = Unspawned | Polling | Polled | Freed | Finished

  datatype Target = Target(phase: Phase, polls: nat)

  /** The spawner: before wg.Add for the next target, before taking its slot, or back from wg.Wait. */
  datatype Spawner = Adding | Taking | Returned

  datatype State = State(targets: seq<Target>, next: nat, spawner: Spawner, sem: nat, wg: int)

  function Start(n: nat): State {
    State(seq(n, _ => Target(Unspawned, 0)), 0, Adding, 0, 0)
  }

  datatype Event =
    | Add                // wg.Add(1)
    | Spawn              // sem <- struct{}{}, then the go statement
    | Poll(i: nat)       // pollAgent returns
    | Release(i: nat)    // <-sem
    | Finish(i: nat)     // wg.Done()
    | WaitReturns        // wg.Wait() after the loop

  predicate Enabled(s: State, e: Event) {
    match e
    case Add => s.spawner.Adding? && s.next < |s.targets|
    case Spawn => s.spawner.Taking? && s.next < |s.targets| && s.sem < CONCURRENCY
    case Poll(i) => i < |s.targets| && s.targets[i].phase.Polling?
    case Release(i) => i < |s.targets| && s.targets[i].phase.Polled? && s.sem > 0
    case Finish(i) => i < |s.targets| && s.targets[i].phase.Freed?
    case WaitReturns => s.spawner.Adding? && s.next == |s.targets| && s.wg == 0
  }

  function Move(s: State, i: nat, phase: Phase): State
    requires i < |s.targets|
  {
    s.(targets := s.targets[i := s.targets[i].(phase := phase)])
  }

  function Step(s: State, e: Event): State
    requires Enabled(s, e)
  {
    match e
    case Add => s.(wg := s.wg + 1, spawner := Taking)
    case Spawn => Move(s, s.next, Polling).(sem := s.sem + 1, next := s.next + 1, spawner := Adding)
    case Poll(i) => s.(targets := s.targets[i := Target(Polled, s.targets[i].polls + 1)])
    case Release(i) => Move(s, i, Freed).(sem := s.sem - 1)
    case Finish(i) => Move(s, i, Finished).(wg := s.wg - 1)
    case WaitReturns => s.(spawner := Returned)
  }

  predicate Possible(s: State, es: seq<Event>)
    decreases |es|
  {
    es == [] || (Enabled(s, es[0]) && Possible(Step(s, es[0]), es[1..]))
  }

  function Run(s: State, es: seq<Event>): State
    requires Possible(s, es)
    decreases |es|
  {
    if es == [] then s else Run(Step(s, es[0]), es[1..])
  }

  // ---------- the invariant ----------

  predicate Holds(t: Target) { t.phase.Polling? || t.phase.Polled? }
  predicate Pending(t: Target) { Holds(t) || t.phase.Freed? }

  function Holders(ts: seq<Target>): nat {
    if ts == [] then 0 else Holders(ts[..|ts| - 1]) + if Holds(ts[|ts| - 1]) then 1 else 0
  }

  /** Spawned goroutines that have not called wg.Done. */
  function Outstanding(ts: seq<Target>): nat {
    if ts == [] then 0 else Outstanding(ts[..|ts| - 1]) + if Pending(ts[|ts| - 1]) then 1 else 0
  }

  function InFlight(ts: seq<Target>): nat {
    if ts == [] then 0 else InFlight(ts[..|ts| - 1]) + if ts[|ts| - 1].phase.Polling? then 1 else 0
  }

  ghost predicate Inv(s: State) {
    && s.next <= |s.targets| && (s.spawner.Taking? ==> s.next < |s.targets|)
    && s.sem == Holders(s.targets) && s.sem <= CONCURRENCY
    && s.wg == Outstanding(s.targets) + (if s.spawner.Taking? then 1 else 0)
    && (s.spawner.Returned? ==> s.next == |s.targets| && s.wg == 0)
    && forall i :: 0 <= i < |s.targets| ==>
         && (s.targets[i].phase.Unspawned? <==> s.next <= i)
         && s.targets[i].polls == if s.targets[i].phase.Unspawned? || s.targets[i].phase.Polling? then 0 else 1
  }

  lemma {:induction false} CountsUpdate(ts: seq<Target>, i: nat, t: Target)
    requires i < |ts|
    ensures Holders(ts[i := t]) + (if Holds(ts[i]) then 1 else 0) == Holders(ts) + if Holds(t) then 1 else 0
    ensures Outstanding(ts[i := t]) + (if Pending(ts[i]) then 1 else 0) == Outstanding(ts) + if Pending(t) then 1 else 0
  {
    var n := |ts| - 1;
    var u := ts[i := t];
    if i == n {
      assert u[..n] == ts[..n];
    } else {
      assert u[..n] == ts[..n][i := t];
      CountsUpdate(ts[..n], i, t);
    }
  }

  lemma StepKeeps(s: State, e: Event)
    requires Inv(s) && Enabled(s, e)
    ensures Inv(Step(s, e))
  {
    var t := Step(s, e);
    match e
    case Spawn => CountsUpdate(s.targets, s.next, t.targets[s.next]);
    case Poll(i) => CountsUpdate(s.targets, i, t.targets[i]);
    case Release(i) => CountsUpdate(s.targets, i, t.targets[i]);
    case Finish(i) => CountsUpdate(s.targets, i, t.targets[i]);
    case _ =>
  }

  lemma {:induction false} RunKeeps(s: State, es: seq<Event>)
    requires Inv(s) && Possible(s, es)
    ensures Inv(Run(s, es))
    ensures |Run(s, es).targets| == |s.targets|
    decreases |es|
  {
    hide Inv;
    if es != [] {
      StepKeeps(s, es[0]);
      RunKeeps(Step(s, es[0]), es[1..]);
    }
  }

  lemma {:induction false} StartCounts(ts: seq<Target>)
    requires forall t :: t in ts ==> t.phase.Unspawned?
    ensures Holders(ts) == 0 && Outstanding(ts) == 0
  {
    if ts != [] {
      assert ts[|ts| - 1] in ts;
      StartCounts(ts[..|ts| - 1]);
    }
  }

  lemma {:induction false} FewerInFlight(ts: seq<Target>)
    ensures InFlight(ts) <= Holders(ts)
  {
    if ts != [] { FewerInFlight(ts[..|ts| - 1]); }
  }

  lemma {:induction false} NoneOutstanding(ts: seq<Target>)
    requires Outstanding(ts) == 0
    ensures forall t :: t in ts ==> !Pending(t)
  {
    if ts != [] {
      NoneOutstanding(ts[..|ts| - 1]);
      assert ts == ts[..|ts| - 1] + [ts[|ts| - 1]];
    }
  }

  /** In every reachable state at most five polls are in flight and the semaphore counts the slot
      holders; when wg.Wait has returned, every target was polled exactly once and no slot is held. */
  lemma FanOutSafe(n: nat, es: seq<Event>)
    requires Possible(Start(n), es)
    ensures var s := Run(Start(n), es);
            && InFlight(s.targets) <= CONCURRENCY && s.sem == Holders(s.targets)
            && |s.targets| == n
            && (s.spawner.Returned? ==> s.sem == 0 && forall t :: t in s.targets ==> t.polls == 1 && t.phase.Finished?)
  {
    StartCounts(Start(n).targets);
    RunKeeps(Start(n), es);
    var s := Run(Start(n), es);
    FewerInFlight(s.targets);
    if s.spawner.Returned? {
      NoneOutstanding(s.targets);
      HoldersPending(s.targets);
    }
  }

  lemma {:induction false} HoldersPending(ts: seq<Target>)
    ensures Holders(ts) <= Outstanding(ts)
  {
    if ts != [] { HoldersPending(ts[..|ts| - 1]); }
  }

  /** Until wg.Wait returns some goroutine can move. */
  lemma NeverStuck(s: State)
    requires Inv(s)
    ensures !s.spawner.Returned? <==> exists e :: Enabled(s, e)
  {
    if s.spawner.Returned? {
      NoneOutstanding(s.targets);
      forall e ensures !Enabled(s, e) {
        match e
        case Poll(i) => if i < |s.targets| { assert s.targets[i] in s.targets; }
        case Release(i) => if i < |s.targets| { assert s.targets[i] in s.targets; }
        case Finish(i) => if i < |s.targets| { assert s.targets[i] in s.targets; }
        case _ =>
      }
    } else if i :| 0 <= i < |s.targets| && Pending(s.targets[i]) {
      PendingMoves(s, i);
    } else {
      NonePending(s.targets);
      HoldersPending(s.targets);
      assert Enabled(s, Add) || Enabled(s, Spawn) || Enabled(s, WaitReturns);
    }
  }

  lemma PendingMoves(s: State, i: nat)
    requires Inv(s) && i < |s.targets| && Pending(s.targets[i])
    ensures exists e :: Enabled(s, e)
  {
    if s.targets[i].phase.Polling? {
      assert Enabled(s, Poll(i));
    } else if s.targets[i].phase.Polled? {
      SomeHolder(s.targets, i);
      assert Enabled(s, Release(i));
    } else {
      assert Enabled(s, Finish(i));
    }
  }

  lemma {:induction false} SomeHolder(ts: seq<Target>, i: nat)
    requires i < |ts| && Holds(ts[i])
    ensures Holders(ts) > 0
  {
    if i < |ts| - 1 { SomeHolder(ts[..|ts| - 1], i); }
  }

  lemma {:induction false} NonePending(ts: seq<Target>)
    requires forall i :: 0 <= i < |ts| ==> !Pending(ts[i])
    ensures Outstanding(ts) == 0
  {
    if ts != [] { NonePending(ts[..|ts| - 1]); }
  }

  // ---------- how long a run is ----------

  function Rank(p: Phase): nat {
    match p
    case Unspawned => 5
    case Polling => 3
    case Polled => 2
    case Freed => 1
    case Finished => 0
  }

  function TargetWork(ts: seq<Target>): nat {
    if ts == [] then 0 else TargetWork(ts[..|ts| - 1]) + Rank(ts[|ts| - 1].phase)
  }

  /** The steps a run has left. */
  function Work(s: State): nat {
    TargetWork(s.targets) + if s.spawner.Adding? then 1 else 0
  }

  lemma {:induction false} WorkUpdate(ts: seq<Target>, i: nat, t: Target)
    requires i < |ts|
    ensures TargetWork(ts[i := t]) + Rank(ts[i].phase) == TargetWork(ts) + Rank(t.phase)
  {
    var n := |ts| - 1;
    var u := ts[i := t];
    if i == n {
      assert u[..n] == ts[..n];
    } else {
      assert u[..n] == ts[..n][i := t];
      WorkUpdate(ts[..n], i, t);
    }
  }

  /** Every step uses up exactly one. */
  lemma StepUsesOne(s: State, e: Event)
    requires Inv(s) && Enabled(s, e)
    ensures Work(Step(s, e)) == Work(s) - 1
  {
    var t := Step(s, e);
    match e
    case Spawn => WorkUpdate(s.targets, s.next, t.targets[s.next]);
    case Poll(i) => WorkUpdate(s.targets, i, t.targets[i]);
    case Release(i) => WorkUpdate(s.targets, i, t.targets[i]);
    case Finish(i) => WorkUpdate(s.targets, i, t.targets[i]);
    case _ =>
  }

  lemma {:induction false} RunUses(s: State, es: seq<Event>)
    requires Inv(s) && Possible(s, es)
    ensures |es| + Work(Run(s, es)) == Work(s)
    decreases |es|
  {
    hide Inv, Enabled, Step, Work;
    if es != [] {
      StepKeeps(s, es[0]);
      StepUsesOne(s, es[0]);
      RunUses(Step(s, es[0]), es[1..]);
    }
  }

  lemma {:induction false} UnspawnedWork(ts: seq<Target>)
    requires forall t :: t in ts ==> t.phase.Unspawned?
    ensures TargetWork(ts) == 5 * |ts|
  {
    if ts != [] {
      assert ts[|ts| - 1] in ts;
      UnspawnedWork(ts[..|ts| - 1]);
    }
  }

  lemma {:induction false} NoWorkLeft(ts: seq<Target>)
    requires forall t :: t in ts ==> t.phase.Finished?
    ensures TargetWork(ts) == 0
  {
    if ts != [] {
      assert ts[|ts| - 1] in ts;
      NoWorkLeft(ts[..|ts| - 1]);
    }
  }

  /** However the goroutines are scheduled, wg.Wait returns after exactly 5n + 1 steps, and with
      NeverStuck every run can be continued until then. */
  lemma ReturnsExactly(n: nat, es: seq<Event>)
    requires Possible(Start(n), es)
    ensures |es| <= 5 * n + 1
    ensures Run(Start(n), es).spawner.Returned? <==> |es| == 5 * n + 1
    ensures |es| < 5 * n + 1 <==> exists e :: Enabled(Run(Start(n), es), e)
  {
    var s := Run(Start(n), es);
    StartCounts(Start(n).targets);
    UnspawnedWork(Start(n).targets);
    RunKeeps(Start(n), es);
    RunUses(Start(n), es);
    FanOutSafe(n, es);
    NeverStuck(s);
    if s.spawner.Returned? {
      NoWorkLeft(s.targets);
    } else {
      var e :| Enabled(s, e);
      StepUsesOne(s, e);
    }
  }

  /** In every reachable state the next target's goroutine can start exactly when the spawner has counted it
      and fewer than five targets hold a slot: no slot is ever lost. */
  lemma SpawnsExactly(n: nat, es: seq<Event>)
    requires Possible(Start(n), es)
    ensures var s := Run(Start(n), es);
            Enabled(s, Spawn) <==> s.spawner == Taking && Holders(s.targets) < 5
  {
    StartCounts(Start(n).targets);
    RunKeeps(Start(n), es);
  }
}
