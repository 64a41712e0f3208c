/** What a rule decides about its window of readings, what the operators mean in both engines, and what an
    operator's action does to the table. */
module AlertWindows {
  import opened Options
  import opened Alerts
  import opened WebAlerts

  // ---------- windows ----------

  /** No reading of the asset from this time on. */
  ghost predicate Unseen(readings: seq<Reading>, asset: int, since: int) {
    forall r :: r in readings ==> r.asset != asset || r.at < since
  }

  /** One reading, a distance above the threshold or NULL: it triggers the rule exactly when it is the
      asset's, no earlier than the window, not NULL, and on the operator's side of the threshold. */
  lemma OneReading(rule: Rule, reading: Reading, asset: int, since: int)
    ensures Triggered([reading], rule, asset, since) <==>
              && reading.asset == asset && since <= reading.at && reading.value != None
              && var above := reading.value.value - rule.threshold;
                 match rule.op
                 case Gt => above > 0.0
                 case Ge => above > 0.0 || above == 0.0
                 case Lt => above < 0.0
                 case Le => above < 0.0 || above == 0.0
                 case Eq => above == 0.0
  {
    assert reading in [reading];
  }

  /** The samples are judged one by one: of two parts that are seen both must trigger. */
  lemma TriggeredJoins(rule: Rule, a: seq<Reading>, b: seq<Reading>, asset: int, since: int)
    ensures Triggered(a + b, rule, asset, since) <==>
              && (Triggered(a, rule, asset, since) || Unseen(a, asset, since))
              && (Triggered(b, rule, asset, since) || Unseen(b, asset, since))
              && !Unseen(a + b, asset, since)
  {
    hide Breaches;
    assert forall r :: r in a + b <==> r in a || r in b;
  }

  /** Of the same readings, each value in `high` is at least that in `low`. */
  ghost predicate Raised(low: seq<Reading>, high: seq<Reading>) {
    |low| == |high| && forall i :: 0 <= i < |low| ==>
      && low[i].asset == high[i].asset && low[i].at == high[i].at
      && (low[i].value.Some? <==> high[i].value.Some?)
      && (low[i].value.Some? ==> low[i].value.value <= high[i].value.value)
  }

  /** Raising the readings keeps a > or >= rule triggered, lowering them a < or <= rule. */
  lemma RaisingKeeps(rule: Rule, low: seq<Reading>, high: seq<Reading>, asset: int, since: int)
    requires Raised(low, high)
    ensures rule.op in {Gt, Ge} && Triggered(low, rule, asset, since) ==> Triggered(high, rule, asset, since)
    ensures rule.op in {Lt, Le} && Triggered(high, rule, asset, since) ==> Triggered(low, rule, asset, since)
  {
    if Triggered(low, rule, asset, since) && rule.op in {Gt, Ge} {
      Matched(low, high, asset, since);
      forall r | r in high && InWindow(r, asset, since) ensures Breaches(r, rule) {
        var i :| 0 <= i < |high| && high[i] == r;
        assert low[i] in low;
      }
    }
    if Triggered(high, rule, asset, since) && rule.op in {Lt, Le} {
      Matched(high, low, asset, since);
      forall r | r in low && InWindow(r, asset, since) ensures Breaches(r, rule) {
        var i :| 0 <= i < |low| && low[i] == r;
        assert high[i] in high;
      }
    }
  }

  lemma Matched(a: seq<Reading>, b: seq<Reading>, asset: int, since: int)
    requires |a| == |b| && forall i :: 0 <= i < |a| ==> a[i].asset == b[i].asset && a[i].at == b[i].at
    requires exists r :: r in a && InWindow(r, asset, since)
    ensures exists r :: r in b && InWindow(r, asset, since)
  {
    var r :| r in a && InWindow(r, asset, since);
    var i :| 0 <= i < |a| && a[i] == r;
    assert b[i] in b;
  }

  /** On any window = is both >= and <=, and no window triggers a rule and its opposite. */
  lemma OperatorsOppose(readings: seq<Reading>, rule: Rule, asset: int, since: int)
    ensures Triggered(readings, rule.(op := Eq), asset, since) <==>
              Triggered(readings, rule.(op := Ge), asset, since) && Triggered(readings, rule.(op := Le), asset, since)
    ensures !(Triggered(readings, rule.(op := Gt), asset, since) && Triggered(readings, rule.(op := Le), asset, since))
    ensures !(Triggered(readings, rule.(op := Lt), asset, since) && Triggered(readings, rule.(op := Ge), asset, since))
  {
    assert forall r :: Breaches(r, rule.(op := Eq)) <==> Breaches(r, rule.(op := Ge)) && Breaches(r, rule.(op := Le));
    if r :| r in readings && InWindow(r, asset, since) {
      assert !(Breaches(r, rule.(op := Gt)) && Breaches(r, rule.(op := Le)));
      assert !(Breaches(r, rule.(op := Lt)) && Breaches(r, rule.(op := Ge)));
    }
  }

  // ---------- one evaluation of a pair ----------

  /** A pair without an active alert whose rule is evaluated on one reading fires exactly when that is in the
      last durationS seconds and breaches, and no resolution of the pair is younger than the cooldown. */
  lemma OneReadingFires(alerts: Table, rule: Rule, reading: Reading, now: int, cooldownS: int)
    requires !HasActive(alerts, Pair(rule.id, reading.asset))
    ensures var t := EvaluateAssets(alerts, rule, [reading.asset], [reading], now, cooldownS);
            var fires :=
              && now - rule.durationS <= reading.at && Triggered([reading], rule, reading.asset, reading.at)
              && forall a :: a in alerts && a.pair == Pair(rule.id, reading.asset) && a.status == Resolved && a.resolvedAt != None ==>
                   cooldownS <= now - a.resolvedAt.value;
            t == if fires then alerts + [Alert(Pair(rule.id, reading.asset), Active, now, None)] else alerts
  {
    var assets := [reading.asset];
    assert assets[..0] == [];
    OneReading(rule, reading, reading.asset, now - rule.durationS);
    OneReading(rule, reading, reading.asset, reading.at);
    hide Triggered, Breaches;
    assert EvaluateAssets(alerts, rule, assets[..0], [reading], now, cooldownS) == alerts;
  }

  // ---------- what a tick leaves alone ----------

  /** Rows stay where they are, and only rows of these pairs are touched: an active alert may be resolved at
      this time, and alerts fired at this time may be appended. */
  ghost predicate TouchesOnly(before: Table, after: Table, pairs: set<Pair>, now: int) {
    && |before| <= |after|
    && (forall i :: 0 <= i < |before| ==>
          || after[i] == before[i]
          || (&& before[i].pair in pairs && before[i].status == Active
              && after[i] == before[i].(status := Resolved, resolvedAt := Some(now))))
    && forall i :: |before| <= i < |after| ==> after[i].pair in pairs && after[i].firedAt == now
  }

  lemma TouchesOn(a: Table, b: Table, c: Table, pairs: set<Pair>, more: set<Pair>, now: int)
    requires TouchesOnly(a, b, pairs, now) && TouchesOnly(b, c, more, now)
    ensures TouchesOnly(a, c, pairs + more, now)
  {
  }

  lemma PairTouches(alerts: Table, p: Pair, triggered: bool, now: int, cooldownS: int)
    ensures TouchesOnly(alerts, EvaluatePair(alerts, p, triggered, now, cooldownS), {p}, now)
  {
  }

  function PairsOfRule(rule: Rule, assets: seq<int>): set<Pair> {
    set a | a in assets :: Pair(rule.id, a)
  }

  lemma {:induction false} RuleTouches(alerts: Table, rule: Rule, assets: seq<int>, readings: seq<Reading>, now: int, cooldownS: int)
    ensures TouchesOnly(alerts, EvaluateAssets(alerts, rule, assets, readings, now, cooldownS), PairsOfRule(rule, assets), now)
  {
    if assets == [] {
      TouchesNothing(alerts, now);
      assert PairsOfRule(rule, []) == {};
    } else {
      hide TouchesOnly, EvaluatePair, Triggered, PairsOfRule;
      var n := |assets| - 1;
      var p := Pair(rule.id, assets[n]);
      MorePairs(rule, assets);
      RuleTouches(alerts, rule, assets[..n], readings, now, cooldownS);
      var s := EvaluateAssets(alerts, rule, assets[..n], readings, now, cooldownS);
      var triggered := Triggered(readings, rule, assets[n], now - rule.durationS);
      PairTouches(s, p, triggered, now, cooldownS);
      TouchesOn(alerts, s, EvaluatePair(s, p, triggered, now, cooldownS), PairsOfRule(rule, assets[..n]), {p}, now);
    }
  }

  lemma TouchesNothing(alerts: Table, now: int)
    ensures TouchesOnly(alerts, alerts, {}, now)
  {
  }

  lemma MorePairs(rule: Rule, assets: seq<int>)
    requires assets != []
    ensures var n := |assets| - 1; PairsOfRule(rule, assets) == PairsOfRule(rule, assets[..n]) + {Pair(rule.id, assets[n])}
  {
    var n := |assets| - 1;
    assert assets == assets[..n] + [assets[n]];
  }

  /** The pairs of the rules whose metric has a column. */
  function PairsOfJobs(jobs: seq<Job>): set<Pair> {
    set j, a | j in jobs && j.rule.known && a in j.assets :: Pair(j.rule.id, a)
  }

  /** A tick touches no row but those of the pairs it evaluates: none for a rule with an unknown metric. */
  lemma {:induction false} TickTouches(alerts: Table, jobs: seq<Job>, readings: seq<Reading>, now: int, cooldownS: int)
    ensures TouchesOnly(alerts, EvaluateJobs(alerts, jobs, readings, now, cooldownS), PairsOfJobs(jobs), now)
  {
    if jobs == [] {
      TouchesNothing(alerts, now);
      assert PairsOfJobs([]) == {};
    } else {
      hide TouchesOnly, EvaluateAssets;
      var n := |jobs| - 1;
      var j := jobs[n];
      assert jobs == jobs[..n] + [j];
      TickTouches(alerts, jobs[..n], readings, now, cooldownS);
      if j.rule.known {
        var s := EvaluateJobs(alerts, jobs[..n], readings, now, cooldownS);
        RuleTouches(s, j.rule, j.assets, readings, now, cooldownS);
        TouchesOn(alerts, s, EvaluateAssets(s, j.rule, j.assets, readings, now, cooldownS),
                  PairsOfJobs(jobs[..n]), PairsOfRule(j.rule, j.assets), now);
        assert PairsOfJobs(jobs) == PairsOfJobs(jobs[..n]) + PairsOfRule(j.rule, j.assets);
      } else {
        assert PairsOfJobs(jobs) == PairsOfJobs(jobs[..n]);
      }
    }
  }

  // ---------- the operators of both engines ----------

  function Spelled(op: Operator): string {
    match op
    case Gt => ">"
    case Ge => ">="
    case Lt => "<"
    case Le => "<="
    case Eq => "="
  }

  /** Both engines judge a value alike, and the web engine lets nothing breach another operator. */
  lemma EnginesAgree(value: real, operator: string, threshold: real)
    ensures Exceeds(value, operator, threshold) <==> exists op: Operator :: Spelled(op) == operator && Compare(value, op, threshold)
  {
    if Exceeds(value, operator, threshold) {
      var op := match operator case ">" => Gt case ">=" => Ge case "<" => Lt case "<=" => Le case _ => Eq;
      assert Spelled(op) == operator && Compare(value, op, threshold);
    }
    if op: Operator :| Spelled(op) == operator && Compare(value, op, threshold) {
      match op
      case Gt => assert operator == ">";
      case Ge => assert operator == ">=";
      case Lt => assert operator == "<";
      case Le => assert operator == "<=";
      case Eq => assert operator == "=";
    }
  }

  /** The value lies a distance above the threshold, on the operator's side of it. */
  lemma ExceedsBySign(value: real, operator: string, threshold: real)
    ensures var above := value - threshold;
            Exceeds(value, operator, threshold) <==>
              || (above > 0.0 && operator in {">", ">="})
              || (above < 0.0 && operator in {"<", "<="})
              || (above == 0.0 && operator in {">=", "<=", "="})
  {
    match operator
    case ">" => case ">=" => case "<" => case "<=" => case "=" => case _ =>
  }

  /** The latest row of an asset concerns a rule: the rule is for that asset, or for no one asset and for its
      type or any, and the rule's column is not NULL and on the operator's side of the threshold. */
  ghost predicate Concerns(r: WebRule, m: Metric) {
    && r.asset in {None, Some(m.asset)}
    && (r.asset == None && r.allowed != None ==> m.asset in r.allowed.value)
    && r.metric in m.values
    && var above := m.values[r.metric] - r.threshold;
       match r.operator
       case ">" => above > 0.0
       case ">=" => !(above < 0.0)
       case "<" => above < 0.0
       case "<=" => !(above > 0.0)
       case "=" => !(above < 0.0 || above > 0.0)
       case _ => false
  }

  lemma ConcernsBreaches(r: WebRule, m: Metric)
    ensures BreachesRule(r, m) <==> Concerns(r, m)
  {
  }

  /** A tick of the web engine, exactly: a pair gains an alert, and no more than one, if and only if the latest
      row of its asset concerns a rule of that id and no alert of the pair still active was fired less than
      the cooldown ago. */
  lemma TickGainsExactly(alerts: Table, rules: seq<WebRule>, latest: seq<Metric>, now: int, cooldownS: int, p: Pair)
    requires cooldownS > 0
    ensures var t := FireAll(alerts, AllPairs(rules, latest), now, cooldownS);
            var gains :=
              && (exists r, m :: r in rules && m in latest && r.id == p.rule && m.asset == p.asset && Concerns(r, m))
              && forall a :: a in alerts && a.pair == p && a.status == Active ==> cooldownS <= now - a.firedAt;
            CountOf(t, p) == CountOf(alerts, p) + if gains then 1 else 0
  {
    hide BreachesRule, Concerns, AllPairs, FireAll;
    TickFiresExactly(alerts, rules, latest, now, cooldownS, p);
    forall r, m ensures BreachesRule(r, m) <==> Concerns(r, m) { ConcernsBreaches(r, m); }
  }

  // ---------- the operators' actions ----------

  /** What has become of each row, by the position of the one acted on; every row keeps its pair and the
      time it fired. */
  ghost predicate OnlyAt(before: Table, after: Table, id: int) {
    && |after| == |before|
    && forall i :: 0 <= i < |before| ==>
         && after[i].pair == before[i].pair && after[i].firedAt == before[i].firedAt
         && (i != id ==> after[i] == before[i])
  }

  /** The web route acks an active alert only, and resolves an active or an acked one, at the time; a row
      already resolved keeps its time. */
  lemma WebActionsExactly(alerts: Table, id: int, now: int)
    ensures var acked, resolved := GuardedAck(alerts, id), GuardedResolve(alerts, id, now);
            && OnlyAt(alerts, acked, id) && OnlyAt(alerts, resolved, id)
            && (0 <= id < |alerts| ==>
                  var was := alerts[id];
                  && acked[id].status == (if was.status == Active then Acked else was.status)
                  && acked[id].resolvedAt == was.resolvedAt
                  && resolved[id].status == Resolved
                  && resolved[id].resolvedAt == (if was.status == Resolved then was.resolvedAt else Some(now)))
  {
  }

  /** The Go handler does both to a row of any status: a resolved alert can be acked and keeps its time, and
      resolving again moves the time. */
  lemma GoActionsExactly(alerts: Table, id: int, now: int)
    ensures var acked, resolved := AckById(alerts, id), ResolveById(alerts, id, now);
            && OnlyAt(alerts, acked, id) && OnlyAt(alerts, resolved, id)
            && (0 <= id < |alerts| ==>
                  && acked[id].status == Acked && acked[id].resolvedAt == alerts[id].resolvedAt
                  && resolved[id].status == Resolved && resolved[id].resolvedAt == Some(now))
  {
  }
}
