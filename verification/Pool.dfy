/** The LLM worker pool: goroutines that share a semaphore channel, one result channel each. */
module Pool {
  /** Where a submitted goroutine is.  Deferred calls run last-in first-out: the slot is released, then
      the result channel closed. */
  datatype Phase =
    | Waiting    // in the select: slot or cancellation
    | Calling    // holds a slot, the provider call is in flight
    | Answered   // holds a slot, the result is sent
    | Refused    // cancelled before a slot was free, the error is sent
    | Released   // the slot is given back
    | Finished   // the result channel is closed

  /** sent and closes count operations on the result channel, which has room for one value. */
  datatype Call = Call(phase: Phase, cancelled: bool, sent: nat, closes: nat, failed: bool)

  datatype State = State(workers: nat, sem: nat, calls: seq<Call>, panicked: bool)

  /** NewPool: a non-positive number of workers becomes one. */
  function NewPool(workers: int): State {
    State(if workers <= 0 then 1 else workers, 0, [], false)
  }

  datatype Event =
    | Submit
    | CancelContext(i: nat)  // the caller's context ends
    | Acquire(i: nat)        // p.sem <- struct{}{}
    | GiveUp(i: nat)         // <-ctx.Done(), then ch <- error
    | Answer(i: nat)         // the provider returns, then ch <- result
    | Release(i: nat)        // <-p.sem
    | Close(i: nat)          // close(ch)

  predicate Enabled(s: State, e: Event) {
    match e
    case Submit => true
    case CancelContext(i) => i < |s.calls|
    case Acquire(i) => i < |s.calls| && s.calls[i].phase.Waiting? && s.sem < s.workers
    case GiveUp(i) => i < |s.calls| && s.calls[i].phase.Waiting? && s.calls[i].cancelled
    case Answer(i) => i < |s.calls| && s.calls[i].phase.Calling? && s.calls[i].sent == 0
    case Release(i) => i < |s.calls| && s.calls[i].phase.Answered? && s.sem > 0
    case Close(i) => i < |s.calls| && (s.calls[i].phase.Released? || s.calls[i].phase.Refused?)
  }

  function Send(s: State, i: nat, phase: Phase, failed: bool): State
    requires i < |s.calls|
  {
    var c := s.calls[i];
    s.(calls := s.calls[i := c.(phase := phase, sent := c.sent + 1, failed := failed)],
       panicked := s.panicked || c.closes > 0)
  }

  function Step(s: State, e: Event): State
    requires Enabled(s, e)
  {
    match e
    case Submit => s.(calls := s.calls + [Call(Waiting, false, 0, 0, false)])
    case CancelContext(i) => s.(calls := s.calls[i := s.calls[i].(cancelled := true)])
    case Acquire(i) => s.(sem := s.sem + 1, calls := s.calls[i := s.calls[i].(phase := Calling)])
    case GiveUp(i) => Send(s, i, Refused, true)
    case Answer(i) => Send(s, i, Answered, false)
    case Release(i) => s.(sem := s.sem - 1, calls := s.calls[i := s.calls[i].(phase := Released)])
    case Close(i) =>
      var c := s.calls[i];
      s.(calls := s.calls[i := c.(phase := Finished, closes := c.closes + 1)], panicked := s.panicked || c.closes > 0)
  }

  predicate Possible(s: State, es: seq<Event>)
    decreases |es|
  {
    es == [] || (Enabled(s, es[0]) && Possible(Step(s, es[0]), es[1..]))
  }

  function Run(s: State, es: seq<Event>): State
    requires Possible(s, es)
    decreases |es|
  {
    if es == [] then s else Run(Step(s, es[0]), es[1..])
  }

  // ---------- the invariant ----------

  predicate Holds(c: Call) {
    c.phase.Calling? || c.phase.Answered?
  }

  /** How many goroutines hold a slot. */
  function Holders(calls: seq<Call>): nat {
    if calls == [] then 0 else Holders(calls[..|calls| - 1]) + if Holds(calls[|calls| - 1]) then 1 else 0
  }

  /** How many provider calls are in flight. */
  function InFlight(calls: seq<Call>): nat {
    if calls == [] then 0 else InFlight(calls[..|calls| - 1]) + if calls[|calls| - 1].phase.Calling? then 1 else 0
  }

  /** One result is sent before the channel is closed, and nothing after; only a cancelled call fails. */
  ghost predicate CallOk(c: Call) {
    && (c.failed ==> c.cancelled)
    && c.sent == (if c.phase.Waiting? || c.phase.Calling? then 0 else 1)
    && c.closes == (if c.phase.Finished? then 1 else 0)
  }

  ghost predicate Inv(s: State) {
    && !s.panicked && s.workers >= 1
    && s.sem == Holders(s.calls) && s.sem <= s.workers
    && forall c :: c in s.calls ==> CallOk(c)
  }

  lemma {:induction false} HoldersUpdate(calls: seq<Call>, i: nat, c: Call)
    requires i < |calls|
    ensures Holders(calls[i := c]) + (if Holds(calls[i]) then 1 else 0) == Holders(calls) + if Holds(c) then 1 else 0
  {
    var n := |calls| - 1;
    var t := calls[i := c];
    if i == n {
      assert t[..n] == calls[..n];
    } else {
      assert t[..n] == calls[..n][i := c];
      HoldersUpdate(calls[..n], i, c);
    }
  }

  lemma UpdateOk(calls: seq<Call>, i: nat, c: Call)
    requires i < |calls| && CallOk(c) && forall d :: d in calls ==> CallOk(d)
    ensures forall d :: d in calls[i := c] ==> CallOk(d)
  {
  }

  lemma StepKeeps(s: State, e: Event)
    requires Inv(s) && Enabled(s, e)
    ensures Inv(Step(s, e))
  {
    var t := Step(s, e);
    if e.Submit? {
      assert t.calls[..|s.calls|] == s.calls;
    } else {
      assert s.calls[e.i] in s.calls;
      HoldersUpdate(s.calls, e.i, t.calls[e.i]);
      UpdateOk(s.calls, e.i, t.calls[e.i]);
    }
  }

  lemma SameWorkers(s: State, e: Event)
    requires Enabled(s, e)
    ensures Step(s, e).workers == s.workers
  {
  }

  lemma {:induction false} RunKeeps(s: State, es: seq<Event>)
    requires Inv(s) && Possible(s, es)
    ensures Inv(Run(s, es)) && Run(s, es).workers == s.workers
    decreases |es|
  {
    hide Inv, Enabled, Step;
    if es != [] {
      StepKeeps(s, es[0]);
      SameWorkers(s, es[0]);
      RunKeeps(Step(s, es[0]), es[1..]);
    }
  }

  lemma {:induction false} InFlightHold(calls: seq<Call>)
    ensures InFlight(calls) <= Holders(calls)
  {
    if calls != [] { InFlightHold(calls[..|calls| - 1]); }
  }

  /** In every reachable state of a pool at most its number of workers of provider calls are in flight,
      the semaphore counts the slot holders, every result channel gets at most one value, gets it before
      it is closed and is closed at most once, and only a cancelled call gets the cancellation error. */
  lemma PoolSafe(workers: int, es: seq<Event>)
    requires Possible(NewPool(workers), es)
    ensures var s := Run(NewPool(workers), es);
            && !s.panicked
            && InFlight(s.calls) <= (if workers <= 0 then 1 else workers) && s.sem == Holders(s.calls)
            && forall c :: c in s.calls ==>
                 c.sent <= 1 && c.closes <= 1 && (c.closes == 1 ==> c.sent == 1) && (c.failed ==> c.cancelled)
  {
    RunKeeps(NewPool(workers), es);
    InFlightHold(Run(NewPool(workers), es).calls);
  }

  /** A run can only stop when every submitted call has received its one result and its channel is
      closed: until then some goroutine can move, without any further cancellation. */
  lemma NeverStuck(s: State)
    requires Inv(s)
    ensures (exists c :: c in s.calls && !c.phase.Finished?) <==>
            exists i :: 0 <= i < |s.calls| &&
              (Enabled(s, Acquire(i)) || Enabled(s, Answer(i)) || Enabled(s, Release(i)) || Enabled(s, Close(i)))
  {
    if c :| c in s.calls && !c.phase.Finished? {
      if x :| x in s.calls && !x.phase.Finished? && !x.phase.Waiting? {
        var i :| 0 <= i < |s.calls| && s.calls[i] == x;
        assert CallOk(x);
        if Holds(x) { SomeHolder(s.calls, i); }
        assert Enabled(s, Answer(i)) || Enabled(s, Release(i)) || Enabled(s, Close(i));
      } else {
        NoHolder(s.calls);
        var i :| 0 <= i < |s.calls| && s.calls[i] == c;
        assert Enabled(s, Acquire(i));
      }
    }
  }

  lemma {:induction false} SomeHolder(calls: seq<Call>, i: nat)
    requires i < |calls| && Holds(calls[i])
    ensures Holders(calls) > 0
  {
    if i < |calls| - 1 { SomeHolder(calls[..|calls| - 1], i); }
  }

  lemma {:induction false} NoHolder(calls: seq<Call>)
    requires forall c :: c in calls ==> c.phase.Finished? || c.phase.Waiting?
    ensures Holders(calls) == 0
  {
    if calls != [] {
      assert calls[|calls| - 1] in calls;
      NoHolder(calls[..|calls| - 1]);
    }
  }

  // ---------- how long a run can be ----------

  function Rank(p: Phase): nat {
    match p
    case Waiting => 4
    case Calling => 3
    case Answered => 2
    case Refused => 1
    case Released => 1
    case Finished => 0
  }

  /** The moves the submitted calls have left at most. */
  function Work(calls: seq<Call>): nat {
    if calls == [] then 0 else Work(calls[..|calls| - 1]) + Rank(calls[|calls| - 1].phase)
  }

  lemma {:induction false} WorkUpdate(calls: seq<Call>, i: nat, c: Call)
    requires i < |calls|
    ensures Work(calls[i := c]) + Rank(calls[i].phase) == Work(calls) + Rank(c.phase)
  {
    var n := |calls| - 1;
    var t := calls[i := c];
    if i == n {
      assert t[..n] == calls[..n];
    } else {
      assert t[..n] == calls[..n][i := c];
      WorkUpdate(calls[..n], i, c);
    }
  }

  predicate IsMove(e: Event) {
    !e.Submit? && !e.CancelContext?
  }

  /** Every move of a goroutine uses up some of the work. */
  lemma MoveUsesWork(s: State, e: Event)
    requires Enabled(s, e) && IsMove(e)
    ensures Work(Step(s, e).calls) < Work(s.calls)
  {
    WorkUpdate(s.calls, e.i, Step(s, e).calls[e.i]);
  }

  /** A run of moves is no longer than the work it starts from. */
  lemma {:induction false} MovesAreBounded(s: State, es: seq<Event>)
    requires Possible(s, es) && forall e :: e in es ==> IsMove(e)
    ensures |es| + Work(Run(s, es).calls) <= Work(s.calls)
    decreases |es|
  {
    hide Step, Enabled, IsMove;
    if es != [] {
      MoveUsesWork(s, es[0]);
      MovesAreBounded(Step(s, es[0]), es[1..]);
    }
  }

  /** Where no goroutine can move, every call has got exactly one result and its channel is closed. */
  lemma AllAnswered(s: State)
    requires Inv(s) && forall e :: Enabled(s, e) ==> !IsMove(e)
    ensures forall c :: c in s.calls ==> c.phase.Finished? && c.sent == 1 && c.closes == 1
  {
    NeverStuck(s);
    assert forall i :: Enabled(s, Acquire(i)) ==> !IsMove(Acquire(i));
    assert forall i :: Enabled(s, Answer(i)) ==> !IsMove(Answer(i));
    assert forall i :: Enabled(s, Release(i)) ==> !IsMove(Release(i));
    assert forall i :: Enabled(s, Close(i)) ==> !IsMove(Close(i));
    forall c | c in s.calls ensures c.phase.Finished? && c.sent == 1 && c.closes == 1 {
      assert CallOk(c);
    }
  }

  /** From any reachable state, however the goroutines are scheduled, after at most as many moves as there
      is work left none can move, and then every submitted call has got exactly one result and its
      channel is closed. */
  lemma EveryCallAnswered(workers: int, before: seq<Event>, es: seq<Event>)
    requires Possible(NewPool(workers), before)
    requires Possible(Run(NewPool(workers), before), es) && forall e :: e in es ==> IsMove(e)
    ensures var s := Run(NewPool(workers), before);
            var t := Run(s, es);
            && |es| <= Work(s.calls) && |t.calls| == |s.calls|
            && ((forall e :: Enabled(t, e) ==> !IsMove(e)) ==>
                  forall c :: c in t.calls ==> c.phase.Finished? && c.sent == 1 && c.closes == 1)
  {
    hide Inv, Enabled, Step, IsMove;
    var s := Run(NewPool(workers), before);
    PoolStarts(workers);
    RunKeeps(NewPool(workers), before);
    RunKeeps(s, es);
    MovesAreBounded(s, es);
    MovesSubmitNothing(s, es);
    if forall e :: Enabled(Run(s, es), e) ==> !IsMove(e) { AllAnswered(Run(s, es)); }
  }

  lemma PoolStarts(workers: int)
    ensures Inv(NewPool(workers))
  {
  }

  lemma {:induction false} MovesSubmitNothing(s: State, es: seq<Event>)
    requires Possible(s, es) && forall e :: e in es ==> IsMove(e)
    ensures |Run(s, es).calls| == |s.calls|
    decreases |es|
  {
    if es != [] {
      assert IsMove(es[0]);
      MovesSubmitNothing(Step(s, es[0]), es[1..]);
    }
  }

  /** Each call gets the one answer of its own goroutine: the cancellation error exactly if it gave up, and
      the provider's result exactly if that returned. */
  lemma AnsweredExactly(workers: int, es: seq<Event>, i: nat)
    requires Possible(NewPool(workers), es) && i < |Run(NewPool(workers), es).calls|
    ensures var c := Run(NewPool(workers), es).calls[i];
            && (c.sent == 1 && c.failed <==> GiveUp(i) in es)
            && (c.sent == 1 && !c.failed <==> Answer(i) in es)
  {
    RunAnswers(NewPool(workers), es, i);
  }

  ghost predicate Failed(s: State, i: nat) {
    i < |s.calls| && s.calls[i].sent == 1 && s.calls[i].failed
  }

  ghost predicate Succeeded(s: State, i: nat) {
    i < |s.calls| && s.calls[i].sent == 1 && !s.calls[i].failed
  }

  lemma StepAnswers(s: State, e: Event, i: nat)
    requires Inv(s) && Enabled(s, e)
    ensures Failed(Step(s, e), i) <==> Failed(s, i) || e == GiveUp(i)
    ensures Succeeded(Step(s, e), i) <==> Succeeded(s, i) || e == Answer(i)
  {
    if i < |s.calls| { assert CallOk(s.calls[i]); }
  }

  lemma {:induction false} RunAnswers(s: State, es: seq<Event>, i: nat)
    requires Inv(s) && Possible(s, es)
    ensures Failed(Run(s, es), i) <==> Failed(s, i) || GiveUp(i) in es
    ensures Succeeded(Run(s, es), i) <==> Succeeded(s, i) || Answer(i) in es
    decreases |es|
  {
    hide Inv, Enabled, Step, Failed, Succeeded;
    if es != [] {
      StepAnswers(s, es[0], i);
      StepKeeps(s, es[0]);
      RunAnswers(Step(s, es[0]), es[1..], i);
      assert es == [es[0]] + es[1..];
    }
  }

  ghost predicate Cancelled(s: State, i: nat) {
    i < |s.calls| && s.calls[i].cancelled
  }

  ghost predicate Left(s: State, i: nat) {
    i < |s.calls| && s.calls[i].phase != Waiting
  }

  lemma StepLeaves(s: State, e: Event, i: nat)
    requires Enabled(s, e)
    ensures Cancelled(Step(s, e), i) <==> Cancelled(s, i) || e == CancelContext(i)
    ensures Left(Step(s, e), i) <==> Left(s, i) || e == Acquire(i) || e == GiveUp(i)
  {
  }

  lemma {:induction false} RunLeaves(s: State, es: seq<Event>, i: nat)
    requires Possible(s, es)
    ensures Cancelled(Run(s, es), i) <==> Cancelled(s, i) || CancelContext(i) in es
    ensures Left(Run(s, es), i) <==> Left(s, i) || Acquire(i) in es || GiveUp(i) in es
    decreases |es|
  {
    hide Enabled, Step, Cancelled, Left;
    if es != [] {
      StepLeaves(s, es[0], i);
      RunLeaves(Step(s, es[0]), es[1..], i);
      assert es == [es[0]] + es[1..];
    }
  }

  /** A call can give up, with or without a free slot, exactly from the end of its context on until it has
      taken a slot or given up. */
  lemma GivesUpExactly(workers: int, es: seq<Event>, i: nat)
    requires Possible(NewPool(workers), es) && i < |Run(NewPool(workers), es).calls|
    ensures Enabled(Run(NewPool(workers), es), GiveUp(i)) <==>
              CancelContext(i) in es && Acquire(i) !in es && GiveUp(i) !in es
  {
    RunLeaves(NewPool(workers), es, i);
  }

  /** In every reachable state a call can take a slot exactly when it is waiting and fewer calls hold one than
      the pool has workers, of which there is at least one: no slot is ever lost. */
  lemma TakesSlotExactly(workers: int, es: seq<Event>, i: nat)
    requires Possible(NewPool(workers), es) && i < |Run(NewPool(workers), es).calls|
    ensures var s := Run(NewPool(workers), es);
            Enabled(s, Acquire(i)) <==>
              s.calls[i].phase == Waiting && Holders(s.calls) < if workers >= 1 then workers else 1
  {
    RunKeeps(NewPool(workers), es);
  }
}
