/** The alert table and the Go rule evaluator: one tick evaluates every rule for every asset. */
module Alerts {
  import opened Options

  datatype Status = Active | Acked | Resolved

  datatype Pair = Pair(rule: int, asset: int)

  /** A row of the alert table.  Rows are only appended and the table's ids start at 1, so the row at
      position i has id i + 1. */
  datatype Alert = Alert(pair: Pair, status: Status, firedAt: int, resolvedAt: Option<int>)

  type Table = seq<Alert>

  datatype Operator = Gt | Ge | Lt | Le | Eq

  /** One metrics row, with the value of the rule's column if it is not NULL. */
  datatype Reading = Reading(asset: int, at: int, value: Option<real>)

  /** `known` says whether the rule names a metric that has a column. */
  datatype Rule = Rule(id: int, known: bool, op: Operator, threshold: real, durationS: int)

  // ---------- the metric window ----------

  predicate Compare(value: real, op: Operator, threshold: real) {
    match op
    case Gt => value > threshold
    case Ge => value >= threshold
    case Lt => value < threshold
    case Le => value <= threshold
    case Eq => value == threshold
  }

  predicate InWindow(r: Reading, asset: int, since: int) {
    r.asset == asset && r.at >= since
  }

  predicate Breaches(r: Reading, rule: Rule) {
    r.value.Some? && Compare(r.value.value, rule.op, rule.threshold)
  }

  /** The window is non-empty and every sample in it breaches. */
  predicate Triggered(readings: seq<Reading>, rule: Rule, asset: int, since: int) {
    && (exists r :: r in readings && InWindow(r, asset, since))
    && (forall r :: r in readings && InWindow(r, asset, since) ==> Breaches(r, rule))
  }

  /** count(*), count(*) FILTER (WHERE col op threshold); triggered := total > 0 && total == breaching */
  method CheckWindow(readings: seq<Reading>, rule: Rule, asset: int, since: int) returns (triggered: bool)
    ensures triggered == Triggered(readings, rule, asset, since)
  {
    var total, breaching := 0, 0;
    for i := 0 to |readings|
      invariant 0 <= breaching <= total
      invariant total > 0 <==> exists r :: r in readings[..i] && InWindow(r, asset, since)
      invariant total == breaching <==>
                forall r :: r in readings[..i] && InWindow(r, asset, since) ==> Breaches(r, rule)
    {
      assert readings[..i + 1] == readings[..i] + [readings[i]];
      if InWindow(readings[i], asset, since) {
        total := total + 1;
        if Breaches(readings[i], rule) { breaching := breaching + 1; }
      }
    }
    assert readings[..|readings|] == readings;
    triggered := total > 0 && total == breaching;
  }

  // ---------- queries on the table ----------

  predicate IsActive(a: Alert, p: Pair) {
    a.pair == p && a.status == Active
  }

  predicate HasActive(alerts: Table, p: Pair) {
    exists a :: a in alerts && IsActive(a, p)
  }

  /** Some resolved alert of the pair was resolved less than the cooldown ago. */
  predicate InCooldown(alerts: Table, p: Pair, now: int, cooldownS: int) {
    exists a :: a in alerts && a.pair == p && a.status == Resolved && a.resolvedAt.Some? && now - a.resolvedAt.value < cooldownS
  }

  ghost predicate AtMostOneActive(alerts: Table) {
    forall i, j :: 0 <= i < j < |alerts| && alerts[i].pair == alerts[j].pair ==>
      !(alerts[i].status == Active && alerts[j].status == Active)
  }

  /** SELECT id ... status = 'active' LIMIT 1 */
  function FindActive(alerts: Table, p: Pair): (id: Option<nat>)
    ensures id.Some? <==> HasActive(alerts, p)
    ensures id.Some? ==> id.value < |alerts| && IsActive(alerts[id.value], p)
  {
    if alerts == [] then None
    else
      var n := |alerts| - 1;
      assert alerts == alerts[..n] + [alerts[n]];
      if IsActive(alerts[n], p) then Some(n) else FindActive(alerts[..n], p)
  }

  // ---------- updates ----------

  function Fire(alerts: Table, p: Pair, now: int): Table {
    alerts + [Alert(p, Active, now, None)]
  }

  /** UPDATE alerts SET status = 'resolved', resolved_at = now(), of the row at a position */
  function ResolveById(alerts: Table, id: int, now: int): Table {
    if 0 <= id < |alerts| then alerts[id := alerts[id].(status := Resolved, resolvedAt := Some(now))] else alerts
  }

  /** UPDATE alerts SET status = 'acked', acked_at = now() */
  function AckById(alerts: Table, id: int): Table {
    if 0 <= id < |alerts| then alerts[id := alerts[id].(status := Acked)] else alerts
  }

  /** The web route's guards: only an active alert is acked, only an unresolved one resolved. */
  function GuardedAck(alerts: Table, id: int): Table {
    if 0 <= id < |alerts| && alerts[id].status == Active then AckById(alerts, id) else alerts
  }

  function GuardedResolve(alerts: Table, id: int, now: int): Table {
    if 0 <= id < |alerts| && alerts[id].status != Resolved then ResolveById(alerts, id, now) else alerts
  }

  /** One iteration of evaluateRule's loop: fire, suppress, auto-resolve or nothing. */
  function EvaluatePair(alerts: Table, p: Pair, triggered: bool, now: int, cooldownS: int): Table {
    var existing := FindActive(alerts, p);
    if triggered && existing.None? then
      if InCooldown(alerts, p, now, cooldownS) then alerts else Fire(alerts, p, now)
    else if !triggered && existing.Some? then ResolveById(alerts, existing.value, now)
    else alerts
  }

  /** The loop over the assets of one rule. */
  function EvaluateAssets(alerts: Table, rule: Rule, assets: seq<int>, readings: seq<Reading>, now: int, cooldownS: int): Table {
    if assets == [] then alerts
    else
      var n := |assets| - 1;
      EvaluatePair(EvaluateAssets(alerts, rule, assets[..n], readings, now, cooldownS),
                   Pair(rule.id, assets[n]), Triggered(readings, rule, assets[n], now - rule.durationS), now, cooldownS)
  }

  /** A rule with the assets it applies to. */
  datatype Job = Job(rule: Rule, assets: seq<int>)

  /** The loop over all rules; a rule with an unknown metric is skipped. */
  function EvaluateJobs(alerts: Table, jobs: seq<Job>, readings: seq<Reading>, now: int, cooldownS: int): Table {
    if jobs == [] then alerts
    else
      var n := |jobs| - 1;
      var before := EvaluateJobs(alerts, jobs[..n], readings, now, cooldownS);
      if jobs[n].rule.known then EvaluateAssets(before, jobs[n].rule, jobs[n].assets, readings, now, cooldownS) else before
  }

  datatype Action = Ack | Resolve | Other
  datatype Response = Ok | BadRequest

  /** The table as the handlers and the evaluator update it. */
  class AlertStore {
    var alerts: Table

    constructor ()
      ensures alerts == []
    {
      alerts := [];
    }

    /** runAlertEvaluation */
    method Evaluate(jobs: seq<Job>, readings: seq<Reading>, now: int, cooldownS: int)
      modifies this
      ensures alerts == EvaluateJobs(old(alerts), jobs, readings, now, cooldownS)
    {
      for i := 0 to |jobs|
        invariant alerts == EvaluateJobs(old(alerts), jobs[..i], readings, now, cooldownS)
      {
        assert jobs[..i + 1][..i] == jobs[..i];
        if jobs[i].rule.known {
          EvaluateRule(jobs[i].rule, jobs[i].assets, readings, now, cooldownS);
        }
      }
      assert jobs[..|jobs|] == jobs;
    }

    /** evaluateRule, for a rule whose metric is known */
    method EvaluateRule(rule: Rule, assets: seq<int>, readings: seq<Reading>, now: int, cooldownS: int)
      modifies this
      ensures alerts == EvaluateAssets(old(alerts), rule, assets, readings, now, cooldownS)
    {
      var since := now - rule.durationS;
      for i := 0 to |assets|
        invariant alerts == EvaluateAssets(old(alerts), rule, assets[..i], readings, now, cooldownS)
      {
        assert assets[..i + 1][..i] == assets[..i];
        var p := Pair(rule.id, assets[i]);
        var triggered := CheckWindow(readings, rule, assets[i], since);
        var existing := FindActive(alerts, p);
        if triggered && existing.None? {
          var lastResolved := LastResolved(p);
          if lastResolved.Some? && now - lastResolved.value < cooldownS { continue; }
          alerts := alerts + [Alert(p, Active, now, None)];
        } else if !triggered && existing.Some? {
          alerts := ResolveById(alerts, existing.value, now);
        }
      }
      assert assets[..|assets|] == assets;
    }

    /** SELECT resolved_at ... status = 'resolved' ORDER BY resolved_at DESC LIMIT 1 */
    method LastResolved(p: Pair) returns (last: Option<int>)
      ensures forall now, cooldownS ::
                InCooldown(alerts, p, now, cooldownS) <==> last.Some? && now - last.value < cooldownS
    {
      last := None;
      for i := 0 to |alerts|
        invariant last.Some? ==> exists a :: a in alerts[..i] && a.pair == p && a.status == Resolved && a.resolvedAt == last
        invariant forall a :: a in alerts[..i] && a.pair == p && a.status == Resolved && a.resolvedAt.Some? ==>
                    last.Some? && a.resolvedAt.value <= last.value
      {
        var a := alerts[i];
        assert alerts[..i + 1] == alerts[..i] + [a];
        if a.pair == p && a.status == Resolved && a.resolvedAt.Some?
           && (last.None? || last.value < a.resolvedAt.value) {
          last := a.resolvedAt;
          assert a in alerts[..i + 1];
        }
      }
      assert alerts[..|alerts|] == alerts;
    }

    /** The Go handler's Action: no guard on the current status. */
    method GoAction(id: int, action: Action, now: int) returns (r: Response)
      modifies this
      ensures r == if action.Other? then BadRequest else Ok
      ensures alerts == match action
                        case Ack => AckById(old(alerts), id - 1)
                        case Resolve => ResolveById(old(alerts), id - 1, now)
                        case Other => old(alerts)
    {
      match action
      case Ack => alerts := AckById(alerts, id - 1); return Ok;
      case Resolve => alerts := ResolveById(alerts, id - 1, now); return Ok;
      case Other => return BadRequest;
    }

    /** The web route's POST: guarded by status, and a request without an id (or with id 0) is refused. */
    method WebAction(id: int, action: Action, now: int) returns (r: Response)
      modifies this
      ensures r == if action.Other? || id == 0 then BadRequest else Ok
      ensures alerts == if id == 0 then old(alerts) else
                        match action
                        case Ack => GuardedAck(old(alerts), id - 1)
                        case Resolve => GuardedResolve(old(alerts), id - 1, now)
                        case Other => old(alerts)
    {
      if id == 0 { return BadRequest; }
      match action
      case Ack => alerts := GuardedAck(alerts, id - 1); return Ok;
      case Resolve => alerts := GuardedResolve(alerts, id - 1, now); return Ok;
      case Other => return BadRequest;
    }
  }

  // ---------- what one tick establishes ----------

  lemma ActiveAfterResolve(alerts: Table, p: Pair, id: nat, now: int, q: Pair)
    requires AtMostOneActive(alerts) && id < |alerts| && IsActive(alerts[id], p)
    ensures AtMostOneActive(ResolveById(alerts, id, now))
    ensures HasActive(ResolveById(alerts, id, now), q) <==> HasActive(alerts, q) && q != p
  {
    var t := ResolveById(alerts, id, now);
    if a :| a in alerts && IsActive(a, q) && q != p {
      var i :| 0 <= i < |alerts| && alerts[i] == a;
      assert t[i] == a;
    }
    if a :| a in t && IsActive(a, q) {
      var i :| 0 <= i < |t| && t[i] == a;
      assert alerts[i] == a && i != id;
    }
  }

  lemma FireOne(alerts: Table, p: Pair, now: int, q: Pair)
    requires AtMostOneActive(alerts) && !HasActive(alerts, p)
    ensures AtMostOneActive(Fire(alerts, p, now))
    ensures HasActive(Fire(alerts, p, now), q) <==> HasActive(alerts, q) || q == p
  {
    var t := Fire(alerts, p, now);
    assert IsActive(t[|alerts|], p) && t[|alerts|] in t;
    forall i, j | 0 <= i < j < |t| && t[i].pair == t[j].pair
      ensures !(t[i].status == Active && t[j].status == Active)
    {
      if j == |alerts| { assert t[i] in alerts && t[i] == alerts[i]; }
    }
  }

  /** What one evaluation leaves: an active alert only if triggered, and a triggered pair without one
      only in cooldown. */
  ghost predicate Settled(alerts: Table, p: Pair, triggered: bool, now: int, cooldownS: int) {
    && (HasActive(alerts, p) ==> triggered)
    && (triggered && !HasActive(alerts, p) ==> InCooldown(alerts, p, now, cooldownS))
  }

  lemma EvaluatePairSettles(alerts: Table, p: Pair, triggered: bool, now: int, cooldownS: int)
    requires AtMostOneActive(alerts)
    ensures var t := EvaluatePair(alerts, p, triggered, now, cooldownS);
            AtMostOneActive(t) && Settled(t, p, triggered, now, cooldownS)
  {
    var existing := FindActive(alerts, p);
    if triggered && existing.None? {
      FireOne(alerts, p, now, p);
    } else if !triggered && existing.Some? {
      ActiveAfterResolve(alerts, p, existing.value, now, p);
    }
  }

  /** Evaluating one pair leaves every other pair as it was. */
  lemma EvaluatePairFrame(alerts: Table, p: Pair, triggered: bool, now: int, cooldownS: int, q: Pair, trq: bool)
    requires AtMostOneActive(alerts) && p != q && Settled(alerts, q, trq, now, cooldownS)
    ensures Settled(EvaluatePair(alerts, p, triggered, now, cooldownS), q, trq, now, cooldownS)
  {
    var t := EvaluatePair(alerts, p, triggered, now, cooldownS);
    var existing := FindActive(alerts, p);
    if triggered && existing.None? && !InCooldown(alerts, p, now, cooldownS) {
      FireOne(alerts, p, now, q);
    } else if !triggered && existing.Some? {
      ActiveAfterResolve(alerts, p, existing.value, now, q);
      if a :| a in alerts && a.pair == q && a.status == Resolved && a.resolvedAt.Some? && now - a.resolvedAt.value < cooldownS {
        var i :| 0 <= i < |alerts| && alerts[i] == a;
        assert t[i] == a;
      }
    }
  }

  lemma {:induction false} EvaluateAssetsSettles(alerts: Table, rule: Rule, assets: seq<int>, readings: seq<Reading>, now: int, cooldownS: int)
    requires AtMostOneActive(alerts)
    ensures var t := EvaluateAssets(alerts, rule, assets, readings, now, cooldownS);
            && AtMostOneActive(t)
            && (forall a :: a in assets ==>
                  Settled(t, Pair(rule.id, a), Triggered(readings, rule, a, now - rule.durationS), now, cooldownS))
            && (forall q: Pair, tr :: q.rule != rule.id && Settled(alerts, q, tr, now, cooldownS) ==> Settled(t, q, tr, now, cooldownS))
  {
    hide Settled, Triggered, AtMostOneActive, EvaluatePair;
    if assets != [] {
      var n := |assets| - 1;
      assert assets == assets[..n] + [assets[n]];
      EvaluateAssetsSettles(alerts, rule, assets[..n], readings, now, cooldownS);
      var before := EvaluateAssets(alerts, rule, assets[..n], readings, now, cooldownS);
      var p, tr := Pair(rule.id, assets[n]), Triggered(readings, rule, assets[n], now - rule.durationS);
      EvaluatePairSettles(before, p, tr, now, cooldownS);
      forall q, trq | q != p && Settled(before, q, trq, now, cooldownS)
        ensures Settled(EvaluatePair(before, p, tr, now, cooldownS), q, trq, now, cooldownS)
      {
        EvaluatePairFrame(before, p, tr, now, cooldownS, q, trq);
      }
    }
  }

  /** After an uninterrupted tick every evaluated pair is settled: an active alert implies a non-empty
      window in which every sample breaches, and a triggered pair without one is in cooldown. */
  lemma {:induction false} TickSettles(alerts: Table, jobs: seq<Job>, readings: seq<Reading>, now: int, cooldownS: int)
    requires AtMostOneActive(alerts)
    requires forall i, j :: 0 <= i < j < |jobs| ==> jobs[i].rule.id != jobs[j].rule.id
    ensures var t := EvaluateJobs(alerts, jobs, readings, now, cooldownS);
            && AtMostOneActive(t)
            && forall i, a | 0 <= i < |jobs| && jobs[i].rule.known && a in jobs[i].assets ::
                 Settled(t, Pair(jobs[i].rule.id, a),
                         Triggered(readings, jobs[i].rule, a, now - jobs[i].rule.durationS), now, cooldownS)
  {
    hide Settled, Triggered, AtMostOneActive, EvaluateAssets;
    if jobs != [] {
      var n := |jobs| - 1;
      TickSettles(alerts, jobs[..n], readings, now, cooldownS);
      var before := EvaluateJobs(alerts, jobs[..n], readings, now, cooldownS);
      EvaluateAssetsSettles(before, jobs[n].rule, jobs[n].assets, readings, now, cooldownS);
      var t := EvaluateJobs(alerts, jobs, readings, now, cooldownS);
      forall i, a | 0 <= i < |jobs| && jobs[i].rule.known && a in jobs[i].assets
        ensures Settled(t, Pair(jobs[i].rule.id, a),
                        Triggered(readings, jobs[i].rule, a, now - jobs[i].rule.durationS), now, cooldownS)
      {
        if i < n { assert jobs[..n][i] == jobs[i]; }
      }
    }
  }
}
