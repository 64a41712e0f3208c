/** When the cooldown holds: over any history or interleaving an alert fires at least c after every
    earlier resolution of its pair exactly when no firing overlooks a recent one. */
module Cooldowns {
  import opened Options
  import opened Alerts
  import opened AlertHistories

  // ---------- the log and the table ----------

  /** Some alert of the pair was resolved at t or later, whatever its status is now. */
  ghost predicate Covered(alerts: Table, p: Pair, t: int) {
    exists a :: a in alerts && a.pair == p && a.resolvedAt.Some? && t <= a.resolvedAt.value
  }

  /** The table remembers every resolution of the log, or a later one of the same pair, and no other. */
  ghost predicate Linked(w: World) {
    && (forall x :: x in w.log ==> x.at <= w.now)
    && (forall x :: x in w.log && x.Resolution? ==> Covered(w.alerts, x.p, x.at))
    && (forall a :: a in w.alerts && a.resolvedAt.Some? ==>
          a.status != Active && a.resolvedAt.value <= w.now && Resolution(a.pair, a.resolvedAt.value) in w.log)
  }

  /** An alert of the pair was resolved less than c ago. */
  ghost predicate RecentlyResolved(alerts: Table, p: Pair, now: int, c: int) {
    exists a :: a in alerts && a.pair == p && a.resolvedAt.Some? && now - a.resolvedAt.value < c
  }

  /** And is acked since, so that the cooldown query does not see it. */
  ghost predicate Hidden(alerts: Table, p: Pair, now: int, c: int) {
    exists a :: a in alerts && a.pair == p && a.status == Acked && a.resolvedAt.Some? && now - a.resolvedAt.value < c
  }

  lemma SpacedSnoc(log: seq<Entry>, x: Entry, c: int)
    ensures Spaced(log + [x], c) <==>
            Spaced(log, c) && (x.Fired? ==> forall y :: y in log && y.Resolution? && y.p == x.p ==> x.at - y.at >= c)
  {
    var t := log + [x];
    if Spaced(t, c) {
      forall i, j | 0 <= i < j < |log| && log[i].Resolution? && log[j].Fired? && log[i].p == log[j].p
        ensures log[j].at - log[i].at >= c
      {
        assert t[i] == log[i] && t[j] == log[j];
      }
      forall y | x.Fired? && y in log && y.Resolution? && y.p == x.p ensures x.at - y.at >= c {
        var i :| 0 <= i < |log| && log[i] == y;
        assert t[i] == y && t[|log|] == x;
      }
    } else {
      var i, j :| 0 <= i < j < |t| && t[i].Resolution? && t[j].Fired? && t[i].p == t[j].p && t[j].at - t[i].at < c;
      assert t[i] == log[i] && t[i] in log;
      if j < |log| { assert t[j] == log[j]; }
    }
  }

  /** The next firing is spaced exactly when no alert of the pair was resolved recently. */
  lemma FireSpacedExactly(w: World, p: Pair, c: int)
    requires Linked(w)
    ensures Spaced(w.log + [Fired(p, w.now)], c) <==> Spaced(w.log, c) && !RecentlyResolved(w.alerts, p, w.now, c)
  {
    hide Spaced;
    SpacedSnoc(w.log, Fired(p, w.now), c);
    if a :| a in w.alerts && a.pair == p && a.resolvedAt.Some? && w.now - a.resolvedAt.value < c {
      assert Resolution(p, a.resolvedAt.value) in w.log;
    } else {
      forall y | y in w.log && y.Resolution? && y.p == p ensures w.now - y.at >= c {
        assert Covered(w.alerts, p, y.at);
      }
    }
  }

  /** Where the evaluator's queries find nothing, what it overlooks is acked. */
  lemma OverlookedIsHidden(w: World, p: Pair, cooldownS: int, c: int)
    requires Linked(w) && cooldownS >= c && !InCooldown(w.alerts, p, w.now, cooldownS)
    ensures RecentlyResolved(w.alerts, p, w.now, c) <==> Hidden(w.alerts, p, w.now, c)
  {
    if a :| a in w.alerts && a.pair == p && a.resolvedAt.Some? && w.now - a.resolvedAt.value < c {
      assert a.status != Active && a.status != Resolved;
    }
  }

  // ---------- what keeps the link ----------

  lemma CoveredUpdate(alerts: Table, id: int, a: Alert, p: Pair, t: int)
    requires 0 <= id < |alerts| && Covered(alerts, p, t) && a.pair == alerts[id].pair
    requires alerts[id].resolvedAt.Some? ==> a.resolvedAt.Some? && alerts[id].resolvedAt.value <= a.resolvedAt.value
    ensures Covered(alerts[id := a], p, t)
  {
    var x :| x in alerts && x.pair == p && x.resolvedAt.Some? && t <= x.resolvedAt.value;
    var i :| 0 <= i < |alerts| && alerts[i] == x;
    assert alerts[id := a][i] in alerts[id := a];
  }

  lemma TickKeepsLink(w: World, dt: nat)
    requires Linked(w)
    ensures Linked(w.(now := w.now + dt))
  {
  }

  lemma AckKeepsLink(w: World, id: int)
    requires Linked(w)
    ensures Linked(w.(alerts := AckById(w.alerts, id)))
  {
    if 0 <= id < |w.alerts| {
      assert w.alerts[id] in w.alerts;
      forall x | x in w.log && x.Resolution? ensures Covered(AckById(w.alerts, id), x.p, x.at) {
        CoveredUpdate(w.alerts, id, w.alerts[id].(status := Acked), x.p, x.at);
      }
    }
  }

  /** What resolving an alert logs. */
  function Logged(alerts: Table, id: int, now: int): seq<Entry> {
    if 0 <= id < |alerts| then [Resolution(alerts[id].pair, now)] else []
  }

  lemma ResolveKeepsLink(w: World, id: int)
    requires Linked(w)
    ensures Linked(World(w.now, ResolveById(w.alerts, id, w.now), w.log + Logged(w.alerts, id, w.now)))
  {
    if 0 <= id < |w.alerts| {
      var t := ResolveById(w.alerts, id, w.now);
      assert w.alerts[id] in w.alerts && t[id] in t;
      forall x | x in w.log && x.Resolution? ensures Covered(t, x.p, x.at) {
        CoveredUpdate(w.alerts, id, t[id], x.p, x.at);
      }
      assert Covered(t, w.alerts[id].pair, w.now);
    } else {
      assert w.log + [] == w.log;
    }
  }

  lemma FireKeepsLink(w: World, p: Pair)
    requires Linked(w)
    ensures Linked(World(w.now, Fire(w.alerts, p, w.now), w.log + [Fired(p, w.now)]))
  {
    var t := Fire(w.alerts, p, w.now);
    forall x | x in w.log && x.Resolution? ensures Covered(t, x.p, x.at) {
      var a :| a in w.alerts && a.pair == x.p && a.resolvedAt.Some? && x.at <= a.resolvedAt.value;
      assert a in t;
    }
  }

  // ---------- whole evaluations ----------

  /** The evaluation fires although a recent resolution of the pair is hidden. */
  ghost predicate Overlooks(w: World, e: Event, c: int) {
    && e.Evaluate? && e.triggered && !HasActive(w.alerts, e.p) && !InCooldown(w.alerts, e.p, w.now, e.cooldownS)
    && Hidden(w.alerts, e.p, w.now, c)
  }

  ghost predicate NeverHidden(w: World, es: seq<Event>, c: int)
    decreases |es|
  {
    es == [] || (!Overlooks(w, es[0], c) && NeverHidden(Step(w, es[0]), es[1..], c))
  }

  lemma StepExactly(w: World, e: Event, c: int)
    requires Linked(w) && (e.Evaluate? ==> e.cooldownS >= c)
    ensures Linked(Step(w, e))
    ensures Spaced(Step(w, e).log, c) <==> Spaced(w.log, c) && !Overlooks(w, e, c)
  {
    hide Linked, Spaced;
    match e
    case Tick(dt) => TickKeepsLink(w, dt);
    case AckAlert(id) => AckKeepsLink(w, id);
    case ResolveAlert(id) =>
      ResolveKeepsLink(w, id);
      if 0 <= id < |w.alerts| {
        SpacedSnoc(w.log, Resolution(w.alerts[id].pair, w.now), c);
      } else {
        assert w.log + [] == w.log;
      }
    case Evaluate(p, triggered, cd) =>
      var existing := FindActive(w.alerts, p);
      if triggered && existing.None? && !InCooldown(w.alerts, p, w.now, cd) {
        FireKeepsLink(w, p);
        FireSpacedExactly(w, p, c);
        OverlookedIsHidden(w, p, cd, c);
      } else if !triggered && existing.Some? {
        ResolveKeepsLink(w, existing.value);
        SpacedSnoc(w.log, Resolution(p, w.now), c);
      } else {
        assert w.log + [] == w.log;
      }
  }

  lemma {:induction false} RunExactly(w: World, es: seq<Event>, c: int)
    requires Linked(w) && forall e :: e in es && e.Evaluate? ==> e.cooldownS >= c
    ensures Spaced(Run(w, es).log, c) <==> Spaced(w.log, c) && NeverHidden(w, es, c)
    decreases |es|
  {
    hide Linked, Spaced, Step, Overlooks;
    if es != [] {
      StepExactly(w, es[0], c);
      RunExactly(Step(w, es[0]), es[1..], c);
    }
  }

  /** Over any history, operators acking and resolving as they like, every alert fires at least c after
      every earlier resolution of its pair if and only if no firing overlooks a resolution that is less
      than c old and acked since. */
  lemma CooldownExactly(start: int, es: seq<Event>, c: int)
    requires forall e :: e in es && e.Evaluate? ==> e.cooldownS >= c
    ensures Spaced(Run(World(start, [], []), es).log, c) <==> NeverHidden(World(start, [], []), es, c)
  {
    RunExactly(World(start, [], []), es, c);
  }

  /** No acked alert has been resolved before. */
  ghost predicate AckedUnresolved(alerts: Table) {
    forall a :: a in alerts && a.status == Acked ==> a.resolvedAt.None?
  }

  lemma StepStaysDisciplined(w: World, e: Event)
    requires Linked(w) && AckedUnresolved(w.alerts)
    requires e.AckAlert? && 0 <= e.id < |w.alerts| ==> w.alerts[e.id].status != Resolved
    ensures AckedUnresolved(Step(w, e).alerts)
  {
    if e.AckAlert? && 0 <= e.id < |w.alerts| { assert w.alerts[e.id] in w.alerts; }
  }

  lemma {:induction false} DisciplinedHidesNothing(w: World, es: seq<Event>, c: int)
    requires Linked(w) && AckedUnresolved(w.alerts) && Disciplined(w, es, c)
    ensures NeverHidden(w, es, c)
    ensures forall e :: e in es && e.Evaluate? ==> e.cooldownS >= c
    decreases |es|
  {
    if es != [] {
      StepExactly(w, es[0], c);
      StepStaysDisciplined(w, es[0]);
      assert !Overlooks(w, es[0], c);
      hide Linked, AckedUnresolved, Step, Overlooks;
      DisciplinedHidesNothing(Step(w, es[0]), es[1..], c);
      assert es == [es[0]] + es[1..];
    }
  }

  /** In particular where no resolved alert is ever acked. */
  lemma FiresAfterCooldown(start: int, es: seq<Event>, c: int)
    requires Disciplined(World(start, [], []), es, c)
    ensures Spaced(Run(World(start, [], []), es).log, c)
  {
    DisciplinedHidesNothing(World(start, [], []), es, c);
    CooldownExactly(start, es, c);
  }

  /** The unguarded ack breaks it: an acked resolution is invisible, so the pair fires again at once. */
  lemma AckHidesResolution(c: int)
    requires c > 0
    ensures var p := Pair(1, 1);
            var es := [Evaluate(p, true, c), ResolveAlert(0), AckAlert(0), Evaluate(p, true, c)];
            !Spaced(Run(World(0, [], []), es).log, c)
  {
    var p := Pair(1, 1);
    var es := [Evaluate(p, true, c), ResolveAlert(0), AckAlert(0), Evaluate(p, true, c)];
    var w1 := World(0, [Alert(p, Active, 0, None)], [Fired(p, 0)]);
    assert Step(World(0, [], []), es[0]) == w1;
    var w2 := World(0, [Alert(p, Resolved, 0, Some(0))], [Fired(p, 0), Resolution(p, 0)]);
    assert Step(w1, ResolveAlert(0)) == w2;
    var w3 := World(0, [Alert(p, Acked, 0, Some(0))], [Fired(p, 0), Resolution(p, 0)]);
    assert Step(w2, AckAlert(0)) == w3;
    var w4 := Step(w3, es[3]);
    assert w4.log == [Fired(p, 0), Resolution(p, 0), Fired(p, 0)];
    assert w4.log[1].Resolution? && w4.log[2].Fired?;
    assert es[1..][0] == ResolveAlert(0) && es[1..][1..][0] == AckAlert(0) && es[1..][1..][1..][0] == es[3];
    assert Run(World(0, [], []), es) == Run(w1, es[1..]) == Run(w2, es[1..][1..]) == Run(w3, es[1..][1..][1..]);
    assert es[1..][1..][1..][1..] == [];
    assert Run(w3, es[1..][1..][1..]) == w4;
  }

  // ---------- query by query ----------

  /** What a move of the evaluator or an operator logs. */
  function MoveLog(m: Machine, v: Move): seq<Entry>
    requires CanMove(m, v)
  {
    match v
    case Insert => [Fired(m.phase.p, m.now)]
    case AutoResolve => Logged(m.alerts, m.phase.existing.value, m.now)
    case OperatorResolve(id) => Logged(m.alerts, id, m.now)
    case _ => []
  }

  function PlayLog(m: Machine, vs: seq<Move>): seq<Entry>
    requires Playable(m, vs)
    decreases |vs|
  {
    if vs == [] then [] else MoveLog(m, vs[0]) + PlayLog(Moved(m, vs[0]), vs[1..])
  }

  /** At no insert is an alert of the pair resolved less than c ago. */
  ghost predicate NeverEarly(m: Machine, vs: seq<Move>, c: int)
    requires Playable(m, vs)
    decreases |vs|
  {
    vs == [] ||
    (&& (vs[0].Insert? ==> !RecentlyResolved(m.alerts, m.phase.p, m.now, c))
     && NeverEarly(Moved(m, vs[0]), vs[1..], c))
  }

  lemma MoveExactly(m: Machine, v: Move, log: seq<Entry>, c: int)
    requires CanMove(m, v) && Linked(World(m.now, m.alerts, log))
    ensures var t := Moved(m, v); Linked(World(t.now, t.alerts, log + MoveLog(m, v)))
    ensures Spaced(log + MoveLog(m, v), c) <==>
            Spaced(log, c) && (v.Insert? ==> !RecentlyResolved(m.alerts, m.phase.p, m.now, c))
  {
    hide Linked, Spaced, RecentlyResolved;
    var w := World(m.now, m.alerts, log);
    match v
    case Wait(dt) => TickKeepsLink(w, dt); assert log + [] == log;
    case Insert => FireKeepsLink(w, m.phase.p); FireSpacedExactly(w, m.phase.p, c);
    case AutoResolve => ResolutionExactly(w, m.phase.existing.value, c);
    case OperatorResolve(id) => ResolutionExactly(w, id, c);
    case OperatorAck(id) => AckKeepsLink(w, id); assert log + [] == log;
    case _ => assert log + [] == log;
  }

  lemma ResolutionExactly(w: World, id: int, c: int)
    requires Linked(w)
    ensures Linked(World(w.now, ResolveById(w.alerts, id, w.now), w.log + Logged(w.alerts, id, w.now)))
    ensures Spaced(w.log + Logged(w.alerts, id, w.now), c) <==> Spaced(w.log, c)
  {
    hide Linked, Spaced;
    ResolveKeepsLink(w, id);
    if 0 <= id < |w.alerts| {
      SpacedSnoc(w.log, Resolution(w.alerts[id].pair, w.now), c);
    } else {
      assert w.log + [] == w.log;
    }
  }

  lemma {:induction false} PlayExactly(m: Machine, vs: seq<Move>, log: seq<Entry>, c: int)
    requires Playable(m, vs) && Linked(World(m.now, m.alerts, log))
    ensures Spaced(log + PlayLog(m, vs), c) <==> Spaced(log, c) && NeverEarly(m, vs, c)
    decreases |vs|
  {
    hide Linked, Spaced, MoveLog, Moved, CanMove, RecentlyResolved;
    if vs == [] {
      assert log + [] == log;
    } else {
      MoveExactly(m, vs[0], log, c);
      PlayExactly(Moved(m, vs[0]), vs[1..], log + MoveLog(m, vs[0]), c);
      assert log + PlayLog(m, vs) == log + MoveLog(m, vs[0]) + PlayLog(Moved(m, vs[0]), vs[1..]);
    }
  }

  // ---------- what slips past the cooldown query ----------

  /** An alert of the pair resolved less than c ago that the passed cooldown query, on the table checked,
      did not reject: it was resolved since, or was acked already. */
  ghost predicate Slipped(checked: Table, alerts: Table, p: Pair, now: int, c: int) {
    exists i :: 0 <= i < |alerts| && SlippedRow(checked, alerts, p, now, c, i)
  }

  ghost predicate SlippedRow(checked: Table, alerts: Table, p: Pair, now: int, c: int, i: nat)
    requires i < |alerts|
  {
    && alerts[i].pair == p && alerts[i].resolvedAt.Some? && now - alerts[i].resolvedAt.value < c
    && (|checked| <= i || checked[i].resolvedAt != alerts[i].resolvedAt || checked[i].status == Acked)
  }

  /** The table as it was at the last cooldown query. */
  function CheckedAfter(m: Machine, v: Move, checked: Table): Table {
    if v.CheckCooldown? then m.alerts else checked
  }

  ghost predicate NeverSlips(m: Machine, vs: seq<Move>, c: int, checked: Table)
    requires Playable(m, vs)
    decreases |vs|
  {
    vs == [] ||
    (&& (vs[0].Insert? ==> !Slipped(checked, m.alerts, m.phase.p, m.now, c))
     && NeverSlips(Moved(m, vs[0]), vs[1..], c, CheckedAfter(m, vs[0], checked)))
  }

  /** Where a pair has passed the cooldown query, what the query saw of it was resolved long enough ago. */
  ghost predicate Passed(m: Machine, checked: Table, c: int) {
    m.phase.Cleared? ==>
      && |checked| <= |m.alerts|
      && forall i :: 0 <= i < |checked| ==>
           && checked[i].pair == m.alerts[i].pair
           && (checked[i].resolvedAt.Some? ==> checked[i].status != Active)
           && (checked[i].pair == m.phase.p && checked[i].status == Resolved && checked[i].resolvedAt.Some? ==>
                 m.now - checked[i].resolvedAt.value >= c)
  }

  lemma MoveKeepsPassed(m: Machine, v: Move, log: seq<Entry>, checked: Table, c: int)
    requires CanMove(m, v) && Linked(World(m.now, m.alerts, log)) && Passed(m, checked, c)
    requires v.CheckCooldown? ==> v.cooldownS >= c
    ensures Passed(Moved(m, v), CheckedAfter(m, v, checked), c)
  {
    if v.CheckCooldown? {
      forall i | 0 <= i < |m.alerts| ensures m.alerts[i] in m.alerts {
      }
    }
  }

  /** At an insert, what was resolved recently slipped past the query. */
  lemma RecentSlipped(m: Machine, checked: Table, c: int)
    requires m.phase.Cleared? && Passed(m, checked, c)
    ensures RecentlyResolved(m.alerts, m.phase.p, m.now, c) <==> Slipped(checked, m.alerts, m.phase.p, m.now, c)
  {
    if a :| a in m.alerts && a.pair == m.phase.p && a.resolvedAt.Some? && m.now - a.resolvedAt.value < c {
      var i :| 0 <= i < |m.alerts| && m.alerts[i] == a;
      assert SlippedRow(checked, m.alerts, m.phase.p, m.now, c, i);
    }
    if i :| 0 <= i < |m.alerts| && SlippedRow(checked, m.alerts, m.phase.p, m.now, c, i) {
      assert m.alerts[i] in m.alerts;
    }
  }

  ghost predicate ChecksAtLeast(vs: seq<Move>, c: int) {
    forall v :: v in vs && v.CheckCooldown? ==> v.cooldownS >= c
  }

  lemma {:induction false} EarlySlips(m: Machine, vs: seq<Move>, log: seq<Entry>, checked: Table, c: int)
    requires Playable(m, vs) && Linked(World(m.now, m.alerts, log)) && Passed(m, checked, c) && ChecksAtLeast(vs, c)
    ensures NeverEarly(m, vs, c) <==> NeverSlips(m, vs, c, checked)
    decreases |vs|
  {
    if vs != [] {
      var v := vs[0];
      assert v in vs;
      assert ChecksAtLeast(vs[1..], c);
      assert v.Insert? ==> m.phase.Cleared?;
      hide Linked, Passed, Slipped, RecentlyResolved, Moved, CanMove, CheckedAfter, ChecksAtLeast, MoveLog;
      if v.Insert? { RecentSlipped(m, checked, c); }
      MoveExactly(m, v, log, c);
      MoveKeepsPassed(m, v, log, checked, c);
      EarlySlips(Moved(m, v), vs[1..], log + MoveLog(m, v), CheckedAfter(m, v, checked), c);
    }
  }

  /** With operators between any two of the evaluator's queries and cooldowns of at least c, every alert
      fires at least c after every earlier resolution of its pair if and only if nothing slips past the
      cooldown query: at no insert has an alert of the pair been resolved less than c ago that was either
      resolved since the query or acked when the query looked. */
  lemma PlayCooldownExactly(start: int, vs: seq<Move>, c: int)
    requires Playable(Machine(start, [], Idle), vs) && ChecksAtLeast(vs, c)
    ensures Spaced(PlayLog(Machine(start, [], Idle), vs), c) <==> NeverSlips(Machine(start, [], Idle), vs, c, [])
  {
    var m := Machine(start, [], Idle);
    PlayExactly(m, vs, [], c);
    EarlySlips(m, vs, [], [], c);
    assert [] + PlayLog(m, vs) == PlayLog(m, vs);
  }

  // ---------- how often a pair fires, query by query ----------

  /** Every firing is accounted for, and where a pair has passed the cooldown query its firings are c back. */
  ghost predicate PlayAccounted(m: Machine, log: seq<Entry>, c: int) {
    && FiringsAccounted(World(m.now, m.alerts, log), c) && PastOnly(World(m.now, m.alerts, log)) && MachineOk(m)
    && (m.phase.Cleared? ==> forall x :: x in log && x.Fired? && x.p == m.phase.p ==> m.now - x.at >= c)
  }

  lemma CheckAccounts(m: Machine, v: Move, log: seq<Entry>, c: int)
    requires CanMove(m, v) && v.CheckCooldown? && v.cooldownS >= c && PlayAccounted(m, log, c)
    ensures PlayAccounted(Moved(m, v), log, c)
  {
    MoveKeeps(m, v);
    if Moved(m, v).phase.Cleared? { ClearedIsApart(World(m.now, m.alerts, log), m.phase.p, v.cooldownS, c); }
  }

  lemma ResolveLogged(m: Machine, id: int, log: seq<Entry>, c: int)
    requires PlayAccounted(m, log, c)
    ensures var w := World(m.now, ResolveById(m.alerts, id, m.now), log + Logged(m.alerts, id, m.now));
            FiringsAccounted(w, c) && PastOnly(w)
  {
    hide FiringsAccounted;
    if 0 <= id < |m.alerts| {
      ResolveAccounts(World(m.now, m.alerts, log), id, c);
    } else {
      assert log + [] == log;
    }
  }

  lemma MoveAccounts(m: Machine, v: Move, log: seq<Entry>, c: int)
    requires CanMove(m, v) && PlayAccounted(m, log, c)
    requires !v.OperatorAck? && (v.CheckCooldown? ==> v.cooldownS >= c)
    ensures PlayAccounted(Moved(m, v), log + MoveLog(m, v), c)
  {
    hide FiringsAccounted, MachineOk, HasActive, AtMostOneActive;
    MoveKeeps(m, v);
    assert log + [] == log;
    match v
    case Insert => InsertAccounts(m, log, c);
    case CheckCooldown(_) => CheckAccounts(m, v, log, c);
    case AutoResolve => ResolveLogged(m, m.phase.existing.value, log, c);
    case OperatorResolve(id) => ResolveLogged(m, id, log, c);
    case Wait(dt) => WaitAccounts(World(m.now, m.alerts, log), dt, c);
    case _ =>
  }

  lemma WaitAccounts(w: World, dt: nat, c: int)
    requires FiringsAccounted(w, c)
    ensures FiringsAccounted(w.(now := w.now + dt), c)
  {
  }

  lemma InsertAccounts(m: Machine, log: seq<Entry>, c: int)
    requires m.phase.Cleared? && PlayAccounted(m, log, c)
    ensures var w := World(m.now, Fire(m.alerts, m.phase.p, m.now), log + [Fired(m.phase.p, m.now)]);
            FiringsAccounted(w, c) && PastOnly(w)
  {
    FireAccounts(World(m.now, m.alerts, log), m.phase.p, c);
  }

  lemma {:induction false} PlayAccounts(m: Machine, vs: seq<Move>, log: seq<Entry>, c: int)
    requires Playable(m, vs) && PlayAccounted(m, log, c)
    requires ChecksAtLeast(vs, c) && forall v :: v in vs ==> !v.OperatorAck?
    ensures FiringsApart(log + PlayLog(m, vs), c)
    decreases |vs|
  {
    if vs == [] {
      assert log + [] == log;
    } else {
      assert vs[0] in vs;
      assert ChecksAtLeast(vs[1..], c);
      hide PlayAccounted, FiringsApart, ChecksAtLeast, Moved, CanMove, MoveLog;
      MoveAccounts(m, vs[0], log, c);
      PlayAccounts(Moved(m, vs[0]), vs[1..], log + MoveLog(m, vs[0]), c);
      assert log + PlayLog(m, vs) == log + MoveLog(m, vs[0]) + PlayLog(Moved(m, vs[0]), vs[1..]);
    }
  }

  /** Without acks, and with operators resolving between any two of the evaluator's queries, a pair fires
      at most len div c + 1 times in any span of that length. */
  lemma PlayFiringRate(start: int, vs: seq<Move>, c: int, p: Pair, lo: int, len: nat)
    requires c > 0 && Playable(Machine(start, [], Idle), vs)
    requires ChecksAtLeast(vs, c) && forall v :: v in vs ==> !v.OperatorAck?
    ensures |FiringsIn(PlayLog(Machine(start, [], Idle), vs), p, lo, lo + len)| <= len / c + 1
  {
    var m := Machine(start, [], Idle);
    PlayAccounts(m, vs, [], c);
    assert [] + PlayLog(m, vs) == PlayLog(m, vs);
    RateFromApart(PlayLog(m, vs), c, p, lo, len);
  }

  // ---------- an operator between the check and the insert ----------

  lemma LogCons(m: Machine, v: Move, rest: seq<Move>)
    requires CanMove(m, v) && Playable(Moved(m, v), rest)
    ensures Playable(m, [v] + rest) && PlayLog(m, [v] + rest) == MoveLog(m, v) + PlayLog(Moved(m, v), rest)
  {
    assert ([v] + rest)[1..] == rest;
  }

  function CheckedPair(p: Pair, c: int, rest: seq<Move>): seq<Move> {
    [Count(p, true)] + ([Look(None)] + ([CheckCooldown(c)] + rest))
  }

  lemma CheckedPairLog(alerts: Table, p: Pair, c: int, rest: seq<Move>)
    requires !HasActive(alerts, p) && !InCooldown(alerts, p, 0, c) && Playable(Machine(0, alerts, Cleared(p)), rest)
    ensures Playable(Machine(0, alerts, Idle), CheckedPair(p, c, rest))
    ensures PlayLog(Machine(0, alerts, Idle), CheckedPair(p, c, rest)) == PlayLog(Machine(0, alerts, Cleared(p)), rest)
  {
    hide HasActive, InCooldown;
    LogCons(Machine(0, alerts, Looked(p, true, None)), CheckCooldown(c), rest);
    LogCons(Machine(0, alerts, Counted(p, true)), Look(None), [CheckCooldown(c)] + rest);
    LogCons(Machine(0, alerts, Idle), Count(p, true), [Look(None)] + ([CheckCooldown(c)] + rest));
  }

  function SecondRound(p: Pair, c: int): seq<Move> {
    CheckedPair(p, c, [OperatorResolve(0)] + ([Insert] + []))
  }

  lemma SecondRoundLog(p: Pair, c: int)
    ensures var m := Machine(0, [Alert(p, Acked, 0, None)], Idle);
            Playable(m, SecondRound(p, c)) && PlayLog(m, SecondRound(p, c)) == [Resolution(p, 0), Fired(p, 0)]
  {
    var acked, resolved := [Alert(p, Acked, 0, None)], [Alert(p, Resolved, 0, Some(0))];
    var checked, last := Machine(0, acked, Cleared(p)), Machine(0, resolved, Cleared(p));
    LogCons(last, Insert, []);
    assert Moved(checked, OperatorResolve(0)) == last;
    LogCons(checked, OperatorResolve(0), [Insert] + []);
    CheckedPairLog(acked, p, c, [OperatorResolve(0)] + ([Insert] + []));
    assert PlayLog(Moved(last, Insert), []) == [];
  }

  /** A pair fires and its alert is acked; the evaluator clears the pair again, an operator resolves the
      acked alert before the insert, and the insert fires at once. */
  lemma ResolveBeforeInsert(p: Pair, c: int)
    requires c > 0
    ensures var vs := CheckedPair(p, c, [Insert] + ([OperatorAck(0)] + SecondRound(p, c)));
            Playable(Machine(0, [], Idle), vs) && !Spaced(PlayLog(Machine(0, [], Idle), vs), c)
  {
    var rest := SecondRound(p, c);
    SecondRoundLog(p, c);
    hide CheckedPair, SecondRound;
    var checked, active := Machine(0, [], Cleared(p)), Machine(0, [Alert(p, Active, 0, None)], Idle);
    assert Moved(active, OperatorAck(0)) == Machine(0, [Alert(p, Acked, 0, None)], Idle);
    LogCons(active, OperatorAck(0), rest);
    assert Moved(checked, Insert) == active;
    LogCons(checked, Insert, [OperatorAck(0)] + rest);
    CheckedPairLog([], p, c, [Insert] + ([OperatorAck(0)] + rest));
    var log := PlayLog(checked, [Insert] + ([OperatorAck(0)] + rest));
    assert log == [Fired(p, 0), Resolution(p, 0), Fired(p, 0)];
    assert log[1].Resolution? && log[2].Fired?;
  }
}
