/** Whole-run properties of the alert table: the evaluator's queries interleaved with operators, the
    cooldown over histories, and the web engine's own cooldown. */
module AlertHistories {
  import opened Options
  import opened Alerts
  import opened Spans

  // ---------- the Go evaluator, query by query ----------

  /** Where the evaluator is inside one iteration of its loop. */
  datatype Phase =
    | Idle
    | Counted(p: Pair, triggered: bool)                        // after the metric query
    | Looked(p: Pair, triggered: bool, existing: Option<nat>)  // after the active-alert query
    | Cleared(p: Pair)                                         // after the cooldown query

  datatype Machine = Machine(now: int, alerts: Table, phase: Phase)

  datatype Move =
    | Wait(dt: nat)
    | Count(p: Pair, triggered: bool)
    | Look(found: Option<nat>)       // LIMIT 1 may return any active alert of the pair
    | CheckCooldown(cooldownS: int)
    | Insert
    | AutoResolve
    | Skip
    | OperatorAck(id: int)
    | OperatorResolve(id: int)

  predicate CanMove(m: Machine, v: Move) {
    match v
    case Wait(_) => true
    case Count(_, _) => m.phase.Idle?
    case Look(found) =>
      && m.phase.Counted?
      && (found.None? ==> !HasActive(m.alerts, m.phase.p))
      && (found.Some? ==> found.value < |m.alerts| && IsActive(m.alerts[found.value], m.phase.p))
    case CheckCooldown(_) => m.phase.Looked? && m.phase.triggered && m.phase.existing.None?
    case Insert => m.phase.Cleared?
    case AutoResolve => m.phase.Looked? && !m.phase.triggered && m.phase.existing.Some?
    case Skip => m.phase.Looked? && m.phase.triggered == m.phase.existing.Some?
    case OperatorAck(_) => true
    case OperatorResolve(_) => true
  }

  function Moved(m: Machine, v: Move): Machine
    requires CanMove(m, v)
  {
    match v
    case Wait(dt) => m.(now := m.now + dt)
    case Count(p, tr) => m.(phase := Counted(p, tr))
    case Look(found) => m.(phase := Looked(m.phase.p, m.phase.triggered, found))
    case CheckCooldown(cd) => m.(phase := if InCooldown(m.alerts, m.phase.p, m.now, cd) then Idle else Cleared(m.phase.p))
    case Insert => m.(alerts := Fire(m.alerts, m.phase.p, m.now), phase := Idle)
    case AutoResolve => m.(alerts := ResolveById(m.alerts, m.phase.existing.value, m.now), phase := Idle)
    case Skip => m.(phase := Idle)
    case OperatorAck(id) => m.(alerts := AckById(m.alerts, id))
    case OperatorResolve(id) => m.(alerts := ResolveById(m.alerts, id, m.now))
  }

  predicate Playable(m: Machine, vs: seq<Move>)
    decreases |vs|
  {
    vs == [] || (CanMove(m, vs[0]) && Playable(Moved(m, vs[0]), vs[1..]))
  }

  function Play(m: Machine, vs: seq<Move>): Machine
    requires Playable(m, vs)
    decreases |vs|
  {
    if vs == [] then m else Play(Moved(m, vs[0]), vs[1..])
  }

  /** At most one active alert a pair, and none where the evaluator has seen none. */
  ghost predicate MachineOk(m: Machine) {
    && AtMostOneActive(m.alerts)
    && (m.phase.Looked? && m.phase.existing.None? ==> !HasActive(m.alerts, m.phase.p))
    && (m.phase.Cleared? ==> !HasActive(m.alerts, m.phase.p))
  }

  /** Operators can only take alerts out of the active state. */
  lemma OperatorKeeps(alerts: Table, t: Table, p: Pair)
    requires AtMostOneActive(alerts) && |t| == |alerts|
    requires forall i :: 0 <= i < |t| ==> t[i].pair == alerts[i].pair && (t[i].status == Active ==> alerts[i].status == Active)
    ensures AtMostOneActive(t) && (HasActive(t, p) ==> HasActive(alerts, p))
  {
    if a :| a in t && IsActive(a, p) {
      var i :| 0 <= i < |t| && t[i] == a;
      assert IsActive(alerts[i], p);
    }
  }

  lemma MoveKeeps(m: Machine, v: Move)
    requires MachineOk(m) && CanMove(m, v)
    ensures MachineOk(Moved(m, v))
  {
    var p := if m.phase.Idle? then Pair(0, 0) else m.phase.p;
    match v
    case Insert => FireOne(m.alerts, p, m.now, p);
    case AutoResolve => OperatorKeeps(m.alerts, Moved(m, v).alerts, p);
    case OperatorAck(_) => OperatorKeeps(m.alerts, Moved(m, v).alerts, p);
    case OperatorResolve(_) => OperatorKeeps(m.alerts, Moved(m, v).alerts, p);
    case _ =>
  }

  lemma {:induction false} PlayKeeps(m: Machine, vs: seq<Move>)
    requires MachineOk(m) && Playable(m, vs)
    ensures MachineOk(Play(m, vs))
    decreases |vs|
  {
    hide MachineOk, CanMove, Moved;
    if vs != [] {
      MoveKeeps(m, vs[0]);
      PlayKeeps(Moved(m, vs[0]), vs[1..]);
    }
  }

  /** Whatever operators do between its queries, the evaluator never makes a second active alert. */
  lemma NeverTwoActive(now: int, vs: seq<Move>)
    requires Playable(Machine(now, [], Idle), vs)
    ensures AtMostOneActive(Play(Machine(now, [], Idle), vs).alerts)
  {
    PlayKeeps(Machine(now, [], Idle), vs);
  }

  /** The moves of one iteration that nothing interrupts. */
  function Uninterrupted(alerts: Table, p: Pair, triggered: bool, now: int, cooldownS: int): seq<Move> {
    var found := FindActive(alerts, p);
    [Count(p, triggered), Look(found)] +
    if triggered && found.None? then
      [CheckCooldown(cooldownS)] + if InCooldown(alerts, p, now, cooldownS) then [] else [Insert]
    else if !triggered && found.Some? then [AutoResolve]
    else [Skip]
  }

  /** An uninterrupted iteration does to the table what EvaluatePair says. */
  lemma UninterruptedIsEvaluatePair(alerts: Table, p: Pair, triggered: bool, now: int, cooldownS: int)
    ensures var m := Machine(now, alerts, Idle);
            var vs := Uninterrupted(alerts, p, triggered, now, cooldownS);
            Playable(m, vs) && Play(m, vs) == Machine(now, EvaluatePair(alerts, p, triggered, now, cooldownS), Idle)
  {
    var m := Machine(now, alerts, Idle);
    var found := FindActive(alerts, p);
    var vs := Uninterrupted(alerts, p, triggered, now, cooldownS);
    var looked := Machine(now, alerts, Looked(p, triggered, found));
    var rest := vs[2..];
    if triggered && found.None? {
      if InCooldown(alerts, p, now, cooldownS) {
        PlayCons(looked, CheckCooldown(cooldownS), []);
        assert rest == [CheckCooldown(cooldownS)] + [];
      } else {
        var cleared := Machine(now, alerts, Cleared(p));
        PlayCons(cleared, Insert, []);
        PlayCons(looked, CheckCooldown(cooldownS), [Insert] + []);
        assert rest == [CheckCooldown(cooldownS)] + ([Insert] + []);
      }
    } else {
      PlayCons(looked, rest[0], []);
      assert rest == [rest[0]] + [];
    }
    PlayCons(Machine(now, alerts, Counted(p, triggered)), Look(found), rest);
    PlayCons(m, Count(p, triggered), [Look(found)] + rest);
    assert vs == [Count(p, triggered)] + ([Look(found)] + rest);
  }

  lemma PlayCons(m: Machine, v: Move, rest: seq<Move>)
    requires CanMove(m, v) && Playable(Moved(m, v), rest)
    ensures Playable(m, [v] + rest) && Play(m, [v] + rest) == Play(Moved(m, v), rest)
  {
    assert ([v] + rest)[1..] == rest;
  }

  // ---------- the cooldown over histories ----------

  /** What happened to a pair, in order. */
  datatype Entry = Fired(p: Pair, at: int) | Resolution(p: Pair, at: int)

  datatype World = World(now: int, alerts: Table, log: seq<Entry>)

  /** Evaluations are uninterrupted; acks and resolutions are the unguarded ones. */
  datatype Event =
    | Tick(dt: nat)
    | Evaluate(p: Pair, triggered: bool, cooldownS: int)
    | AckAlert(id: int)
    | ResolveAlert(id: int)

  function Step(w: World, e: Event): World {
    match e
    case Tick(dt) => w.(now := w.now + dt)
    case Evaluate(p, triggered, cd) =>
      var t := EvaluatePair(w.alerts, p, triggered, w.now, cd);
      World(w.now, t, w.log + if |t| > |w.alerts| then [Fired(p, w.now)]
                              else if !triggered && HasActive(w.alerts, p) then [Resolution(p, w.now)]
                              else [])
    case AckAlert(id) => w.(alerts := AckById(w.alerts, id))
    case ResolveAlert(id) =>
      if 0 <= id < |w.alerts| then
        World(w.now, ResolveById(w.alerts, id, w.now), w.log + [Resolution(w.alerts[id].pair, w.now)])
      else w
  }

  function Run(w: World, es: seq<Event>): World
    decreases |es|
  {
    if es == [] then w else Run(Step(w, es[0]), es[1..])
  }

  /** Operators never ack an alert that is already resolved, and no cooldown is shorter than c. */
  ghost predicate Disciplined(w: World, es: seq<Event>, c: int)
    decreases |es|
  {
    es == [] ||
    (&& (es[0].AckAlert? && 0 <= es[0].id < |w.alerts| ==> w.alerts[es[0].id].status != Resolved)
     && (es[0].Evaluate? ==> es[0].cooldownS >= c)
     && Disciplined(Step(w, es[0]), es[1..], c))
  }

  ghost predicate NoAcks(es: seq<Event>) {
    forall e :: e in es ==> !e.AckAlert?
  }

  /** A resolved alert of the pair that still shows a resolution at t or later. */
  ghost predicate Shows(alerts: Table, p: Pair, t: int) {
    exists a :: a in alerts && a.pair == p && a.status == Resolved && a.resolvedAt.Some? && t <= a.resolvedAt.value
  }

  ghost predicate Spaced(log: seq<Entry>, c: int) {
    forall i, j :: 0 <= i < j < |log| && log[i].Resolution? && log[j].Fired? && log[i].p == log[j].p ==>
      log[j].at - log[i].at >= c
  }

  lemma ShowsUpdate(alerts: Table, id: int, a: Alert, p: Pair, t: int)
    requires 0 <= id < |alerts| && Shows(alerts, p, t)
    requires alerts[id].pair == p && alerts[id].status == Resolved && alerts[id].resolvedAt.Some? ==>
               a.pair == p && a.status == Resolved && a.resolvedAt.Some? && alerts[id].resolvedAt.value <= a.resolvedAt.value
    ensures Shows(alerts[id := a], p, t)
  {
    var x :| x in alerts && x.pair == p && x.status == Resolved && x.resolvedAt.Some? && t <= x.resolvedAt.value;
    var i :| 0 <= i < |alerts| && alerts[i] == x;
    assert alerts[id := a][i] in alerts[id := a];
  }

  ghost predicate PastOnly(w: World) {
    forall a :: a in w.alerts ==> a.firedAt <= w.now && (a.resolvedAt.Some? ==> a.resolvedAt.value <= w.now)
  }

  lemma StepPast(w: World, e: Event)
    requires PastOnly(w)
    ensures PastOnly(Step(w, e))
  {
  }

  // ---------- how often a pair fires ----------

  /** Two firings of a pair are at least c apart. */
  ghost predicate FiringsApart(log: seq<Entry>, c: int) {
    log == [] ||
    (var prior, x := log[..|log| - 1], log[|log| - 1];
     FiringsApart(prior, c) &&
     (x.Fired? ==> forall y :: y in prior && y.Fired? && y.p == x.p ==> x.at - y.at >= c))
  }

  /** Every firing so far is still the active alert or was resolved at or after it fired. */
  ghost predicate FiringsAccounted(w: World, c: int) {
    && (forall x :: x in w.log ==> x.at <= w.now)
    && (forall x :: x in w.log && x.Fired? ==> HasActive(w.alerts, x.p) || Shows(w.alerts, x.p, x.at))
    && FiringsApart(w.log, c)
    && (forall a :: a in w.alerts ==> a.status != Acked)
  }

  lemma ResolveAccounts(w: World, id: int, c: int)
    requires FiringsAccounted(w, c) && PastOnly(w) && AtMostOneActive(w.alerts) && 0 <= id < |w.alerts|
    ensures var t := ResolveById(w.alerts, id, w.now);
            FiringsAccounted(World(w.now, t, w.log + [Resolution(w.alerts[id].pair, w.now)]), c)
  {
    var t := ResolveById(w.alerts, id, w.now);
    var log' := w.log + [Resolution(w.alerts[id].pair, w.now)];
    assert log'[..|w.log|] == w.log;
    assert t[id] in t && w.alerts[id] in w.alerts;
    forall x | x in w.log && x.Fired? ensures HasActive(t, x.p) || Shows(t, x.p, x.at) {
      if x.p == w.alerts[id].pair {
        assert Shows(t, x.p, x.at);
      } else if HasActive(w.alerts, x.p) {
        var a :| a in w.alerts && IsActive(a, x.p);
        var i :| 0 <= i < |w.alerts| && w.alerts[i] == a;
        assert t[i] in t;
      } else {
        ShowsUpdate(w.alerts, id, t[id], x.p, x.at);
      }
    }
  }

  /** Past the cooldown query the earlier firings of the pair are c back. */
  lemma ClearedIsApart(w: World, p: Pair, cd: int, c: int)
    requires FiringsAccounted(w, c) && cd >= c
    requires !HasActive(w.alerts, p) && !InCooldown(w.alerts, p, w.now, cd)
    ensures forall x :: x in w.log && x.Fired? && x.p == p ==> w.now - x.at >= c
  {
    forall x | x in w.log && x.Fired? && x.p == p ensures w.now - x.at >= c {
      assert Shows(w.alerts, p, x.at);
    }
  }

  lemma FireAccounts(w: World, p: Pair, c: int)
    requires FiringsAccounted(w, c) && PastOnly(w)
    requires forall x :: x in w.log && x.Fired? && x.p == p ==> w.now - x.at >= c
    ensures PastOnly(World(w.now, Fire(w.alerts, p, w.now), w.log + [Fired(p, w.now)]))
    ensures FiringsAccounted(World(w.now, Fire(w.alerts, p, w.now), w.log + [Fired(p, w.now)]), c)
  {
    var t := Fire(w.alerts, p, w.now);
    var log' := w.log + [Fired(p, w.now)];
    assert log'[..|w.log|] == w.log;
    assert t[|w.alerts|] in t && IsActive(t[|w.alerts|], p);
    forall x | x in w.log && x.Fired? ensures HasActive(t, x.p) || Shows(t, x.p, x.at) {
      if HasActive(w.alerts, x.p) {
        var a :| a in w.alerts && IsActive(a, x.p);
        assert a in t;
      } else {
        var a :| a in w.alerts && a.pair == x.p && a.status == Resolved && a.resolvedAt.Some? && x.at <= a.resolvedAt.value;
        assert a in t;
      }
    }
  }

  lemma StepAccounts(w: World, e: Event, c: int)
    requires FiringsAccounted(w, c) && PastOnly(w) && AtMostOneActive(w.alerts)
    requires !e.AckAlert? && (e.Evaluate? ==> e.cooldownS >= c)
    ensures FiringsAccounted(Step(w, e), c) && AtMostOneActive(Step(w, e).alerts)
  {
    match e
    case Tick(_) =>
    case ResolveAlert(id) =>
      if 0 <= id < |w.alerts| {
        ResolveAccounts(w, id, c);
        OperatorKeeps(w.alerts, ResolveById(w.alerts, id, w.now), Pair(0, 0));
      }
    case Evaluate(p, triggered, cd) =>
      EvaluatePairSettles(w.alerts, p, triggered, w.now, cd);
      var existing := FindActive(w.alerts, p);
      if triggered && existing.None? && !InCooldown(w.alerts, p, w.now, cd) {
        ClearedIsApart(w, p, cd, c);
        FireAccounts(w, p, c);
      } else if !triggered && existing.Some? {
        ResolveAccounts(w, existing.value, c);
      } else {
        assert w.log + [] == w.log;
      }
  }

  lemma {:induction false} RunAccounts(w: World, es: seq<Event>, c: int)
    requires FiringsAccounted(w, c) && PastOnly(w) && AtMostOneActive(w.alerts)
    requires NoAcks(es) && Disciplined(w, es, c)
    ensures FiringsAccounted(Run(w, es), c)
    decreases |es|
  {
    hide FiringsAccounted, PastOnly, Step, AtMostOneActive;
    if es != [] {
      StepAccounts(w, es[0], c);
      StepPast(w, es[0]);
      RunAccounts(Step(w, es[0]), es[1..], c);
    }
  }

  /** The firing times of a pair between lo and hi. */
  function FiringsIn(log: seq<Entry>, p: Pair, lo: int, hi: int): seq<int> {
    if log == [] then []
    else
      var x := log[|log| - 1];
      FiringsIn(log[..|log| - 1], p, lo, hi) + if x.Fired? && x.p == p && lo <= x.at <= hi then [x.at] else []
  }

  /** Firings c apart: the n-th is n - 1 gaps after the start of the span. */
  lemma {:induction false} FiringsBound(log: seq<Entry>, p: Pair, lo: int, hi: int, c: int)
    requires FiringsApart(log, c) && c > 0
    ensures var times := FiringsIn(log, p, lo, hi);
            times != [] ==> Fired(p, times[|times| - 1]) in log && lo + Gaps(|times| - 1, c) <= times[|times| - 1] <= hi
  {
    if log != [] {
      var m := |log| - 1;
      var x := log[m];
      assert log == log[..m] + [x];
      FiringsBound(log[..m], p, lo, hi, c);
      var prior := FiringsIn(log[..m], p, lo, hi);
      if x.Fired? && x.p == p && lo <= x.at <= hi && prior != [] {
        assert x.at - Fired(p, prior[|prior| - 1]).at >= c;
      }
    }
  }

  lemma RateFromApart(log: seq<Entry>, c: int, p: Pair, lo: int, len: nat)
    requires c > 0 && FiringsApart(log, c)
    ensures |FiringsIn(log, p, lo, lo + len)| <= len / c + 1
  {
    FiringsBound(log, p, lo, lo + len, c);
    hide FiringsApart, FiringsIn;
    var n := |FiringsIn(log, p, lo, lo + len)|;
    if n == 0 { NonNegativeQuotient(len, c); } else { GapsFit(n - 1, c, len); }
  }

  /** Without acks, a pair fires at most len div c + 1 times in any span of that length. */
  lemma FiringRate(start: int, es: seq<Event>, c: int, p: Pair, lo: int, len: nat)
    requires c > 0 && NoAcks(es) && Disciplined(World(start, [], []), es, c)
    ensures |FiringsIn(Run(World(start, [], []), es).log, p, lo, lo + len)| <= len / c + 1
  {
    hide Disciplined, Run, FiringsIn;
    RunAccounts(World(start, [], []), es, c);
    RateFromApart(Run(World(start, [], []), es).log, c, p, lo, len);
  }

  // ---------- the web engine ----------

  /** The web evaluator between its duplicate check and its insert. */
  datatype WebWorld = WebWorld(now: int, alerts: Table, pending: Option<Pair>)

  datatype WebEvent =
    | WebTick(dt: nat)
    | WebCheck(p: Pair, cooldownS: int)  // a breaching metric: is there a recent active alert?
    | WebInsert
    | WebAck(id: int)
    | WebResolve(id: int)

  /** status = 'active' AND fired_at > now() - cooldown */
  predicate RecentActive(alerts: Table, p: Pair, now: int, cooldownS: int) {
    exists a :: a in alerts && IsActive(a, p) && a.firedAt > now - cooldownS
  }

  function WebStep(w: WebWorld, e: WebEvent): WebWorld {
    match e
    case WebTick(dt) => w.(now := w.now + dt)
    case WebCheck(p, cd) => w.(pending := if RecentActive(w.alerts, p, w.now, cd) then None else Some(p))
    case WebInsert => if w.pending.Some? then WebWorld(w.now, Fire(w.alerts, w.pending.value, w.now), None) else w
    case WebAck(id) => w.(alerts := GuardedAck(w.alerts, id))
    case WebResolve(id) => w.(alerts := GuardedResolve(w.alerts, id, w.now))
  }

  function WebRun(w: WebWorld, es: seq<WebEvent>): WebWorld
    decreases |es|
  {
    if es == [] then w else WebRun(WebStep(w, es[0]), es[1..])
  }

  /** Two active alerts of a pair fired at least c apart. */
  ghost predicate ActiveApart(alerts: Table, c: int) {
    forall i, j :: 0 <= i < j < |alerts| && alerts[i].pair == alerts[j].pair
                   && alerts[i].status == Active && alerts[j].status == Active ==>
      alerts[j].firedAt - alerts[i].firedAt >= c
  }

  ghost predicate WebOk(w: WebWorld, c: int) {
    && ActiveApart(w.alerts, c)
    && (w.pending.Some? ==> forall a :: a in w.alerts && IsActive(a, w.pending.value) ==> a.firedAt <= w.now - c)
  }

  lemma WebStepKeeps(w: WebWorld, e: WebEvent, c: int)
    requires WebOk(w, c) && (e.WebCheck? ==> e.cooldownS >= c)
    ensures WebOk(WebStep(w, e), c)
  {
    var t := WebStep(w, e);
    if e.WebInsert? && w.pending.Some? {
      forall i, j | 0 <= i < j < |t.alerts| && t.alerts[i].pair == t.alerts[j].pair
                    && t.alerts[i].status == Active && t.alerts[j].status == Active
        ensures t.alerts[j].firedAt - t.alerts[i].firedAt >= c
      {
        if j == |w.alerts| { assert t.alerts[i] == w.alerts[i] && t.alerts[i] in w.alerts; }
      }
    } else if e.WebAck? || e.WebResolve? {
      forall a | a in t.alerts && a.status == Active ensures a in w.alerts {
        var i :| 0 <= i < |t.alerts| && t.alerts[i] == a;
        assert w.alerts[i] == a;
      }
    }
  }

  /** Over every run of the web engine, with operators acting between its check and its insert, any two
      still-active alerts of a pair fired at least a cooldown apart. */
  lemma {:induction false} WebActiveApart(w: WebWorld, es: seq<WebEvent>, c: int)
    requires WebOk(w, c) && forall e :: e in es && e.WebCheck? ==> e.cooldownS >= c
    ensures WebOk(WebRun(w, es), c)
    decreases |es|
  {
    hide WebOk, WebStep;
    if es != [] {
      WebStepKeeps(w, es[0], c);
      WebActiveApart(WebStep(w, es[0]), es[1..], c);
    }
  }

  /** Operators and the clock, but no evaluation. */
  ghost predicate OnlyOperators(es: seq<WebEvent>) {
    forall e :: e in es ==> !e.WebCheck? && !e.WebInsert?
  }

  lemma {:induction false} OperatorsLeavePending(w: WebWorld, es: seq<WebEvent>)
    requires OnlyOperators(es)
    ensures WebRun(w, es).pending == w.pending
    decreases |es|
  {
    if es != [] {
      assert es[0] in es;
      OperatorsLeavePending(WebStep(w, es[0]), es[1..]);
    }
  }

  /** Whatever operators do in between, the insert appends an alert of the pair last checked, fired at the time
      of the insert, exactly when the check found no alert still active and younger than the cooldown. */
  lemma InsertsAsChecked(w: WebWorld, p: Pair, cooldownS: int, es: seq<WebEvent>)
    requires OnlyOperators(es)
    ensures var u := WebRun(WebStep(w, WebCheck(p, cooldownS)), es);
            var recent := exists a :: a in w.alerts && a.pair == p && a.status == Active && w.now - a.firedAt < cooldownS;
            WebStep(u, WebInsert) == WebWorld(u.now, u.alerts + if recent then [] else [Alert(p, Active, u.now, None)], None)
  {
    OperatorsLeavePending(WebStep(w, WebCheck(p, cooldownS)), es);
    var u := WebRun(WebStep(w, WebCheck(p, cooldownS)), es);
    assert u.alerts + [] == u.alerts;
  }

  /** What has become of a row by the operators' actions on it. */
  function StatusAfter(status: Status, es: seq<WebEvent>, i: nat): Status
    decreases |es|
  {
    if es == [] then status
    else if es[0] == WebAck(i) && status == Active then StatusAfter(Acked, es[1..], i)
    else if es[0] == WebResolve(i) then StatusAfter(Resolved, es[1..], i)
    else StatusAfter(status, es[1..], i)
  }

  /** Over any web run a row keeps its pair and time, its status is what the operators made of it, and once it is
      resolved it stays as it is. */
  lemma {:induction false} RowFollowsOperators(w: WebWorld, es: seq<WebEvent>, i: nat)
    requires i < |w.alerts|
    ensures var t := WebRun(w, es).alerts;
            && i < |t| && t[i].pair == w.alerts[i].pair && t[i].firedAt == w.alerts[i].firedAt
            && t[i].status == StatusAfter(w.alerts[i].status, es, i)
            && (w.alerts[i].status == Resolved ==> t[i] == w.alerts[i])
    decreases |es|
  {
    hide RecentActive;
    if es != [] { RowFollowsOperators(WebStep(w, es[0]), es[1..], i); }
  }
}
