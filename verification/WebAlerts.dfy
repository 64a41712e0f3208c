/** The web engine's rule evaluation: the latest metric of each asset against every rule, suppressed
    while a recent alert of the pair is still active.  Nothing is resolved here. */
module WebAlerts {
  import opened Options
  import opened Alerts
  import opened AlertHistories

  /** The columns of a metrics row that are not NULL, by name. */
  datatype Metric = Metric(asset: int, at: int, values: map<string, real>)

  /** allowed: the assets of the rule's type, when it has a type filter. */
  datatype WebRule = WebRule(id: int, asset: Option<int>, allowed: Option<set<int>>, metric: string, operator: string, threshold: real)

  const RECENT := 5 * 60

  /** SELECT DISTINCT ON (asset_id) ... ORDER BY asset_id, collected_at DESC: of every asset with a
      row in the last five minutes, one that is latest. */
  ghost predicate AreLatest(latest: seq<Metric>, rows: seq<Metric>, now: int) {
    && (forall m :: m in latest ==> m in rows && m.at > now - RECENT)
    && (forall m, r :: m in latest && r in rows && r.asset == m.asset ==> r.at <= m.at)
    && (forall r :: r in rows && r.at > now - RECENT ==> HasRow(latest, r.asset))
    && (forall i, j :: 0 <= i < j < |latest| ==> latest[i].asset != latest[j].asset)
  }

  ghost predicate HasRow(latest: seq<Metric>, asset: int) {
    exists m :: m in latest && m.asset == asset
  }

  /** evaluate: an unknown operator never breaches. */
  predicate Exceeds(value: real, operator: string, threshold: real) {
    match operator
    case ">" => value > threshold
    case ">=" => value >= threshold
    case "<" => value < threshold
    case "<=" => value <= threshold
    case "=" => value == threshold
    case _ => false
  }

  predicate AppliesTo(rule: WebRule, asset: int) {
    if rule.asset.Some? then rule.asset.value == asset
    else rule.allowed.Some? ==> asset in rule.allowed.value
  }

  predicate BreachesRule(rule: WebRule, m: Metric) {
    AppliesTo(rule, m.asset) && rule.metric in m.values && Exceeds(m.values[rule.metric], rule.operator, rule.threshold)
  }

  /** The pairs of one rule that breach, in the order of the metrics. */
  function PairsOf(rule: WebRule, latest: seq<Metric>): seq<Pair> {
    if latest == [] then []
    else
      var n := |latest| - 1;
      PairsOf(rule, latest[..n]) + if BreachesRule(rule, latest[n]) then [Pair(rule.id, latest[n].asset)] else []
  }

  function AllPairs(rules: seq<WebRule>, latest: seq<Metric>): seq<Pair> {
    if rules == [] then [] else AllPairs(rules[..|rules| - 1], latest) + PairsOf(rules[|rules| - 1], latest)
  }

  /** The check and the insert for one breaching pair. */
  function FirePair(alerts: Table, p: Pair, now: int, cooldownS: int): Table {
    if RecentActive(alerts, p, now, cooldownS) then alerts else Fire(alerts, p, now)
  }

  function FireAll(alerts: Table, pairs: seq<Pair>, now: int, cooldownS: int): Table {
    if pairs == [] then alerts
    else FirePair(FireAll(alerts, pairs[..|pairs| - 1], now, cooldownS), pairs[|pairs| - 1], now, cooldownS)
  }

  lemma FireNext(alerts: Table, pairs: seq<Pair>, p: Pair, now: int, cooldownS: int)
    ensures FireAll(alerts, pairs + [p], now, cooldownS) == FirePair(FireAll(alerts, pairs, now, cooldownS), p, now, cooldownS)
  {
    assert (pairs + [p])[..|pairs|] == pairs;
  }

  class WebEngine {
    var alerts: Table

    constructor ()
      ensures alerts == []
    {
      alerts := [];
    }

    /** runAlertEvaluation; latest is what the metrics query returns. */
    method RunAlertEvaluation(rules: seq<WebRule>, latest: seq<Metric>, now: int, cooldownS: int)
      modifies this
      ensures alerts == FireAll(old(alerts), AllPairs(rules, latest), now, cooldownS)
    {
      hide Exceeds, AppliesTo, RecentActive, FireAll;
      ghost var before, pairs := alerts, [];
      assert FireAll(before, [], now, cooldownS) == before by { NothingFired(before, now, cooldownS); }
      for i := 0 to |rules|
        invariant pairs == AllPairs(rules[..i], latest)
        invariant alerts == FireAll(before, pairs, now, cooldownS)
      {
        ghost var earlier := pairs;
        var rule := rules[i];
        for j := 0 to |latest|
          invariant pairs == earlier + PairsOf(rule, latest[..j])
          invariant alerts == FireAll(before, pairs, now, cooldownS)
        {
          var metric := latest[j];
          assert latest[..j + 1][..j] == latest[..j];
          if !AppliesTo(rule, metric.asset) || rule.metric !in metric.values { continue; }
          if !Exceeds(metric.values[rule.metric], rule.operator, rule.threshold) { continue; }
          ghost var p := Pair(rule.id, metric.asset);
          FireNext(before, pairs, p, now, cooldownS);
          pairs := pairs + [p];
          if RecentActive(alerts, Pair(rule.id, metric.asset), now, cooldownS) { continue; }
          alerts := alerts + [Alert(Pair(rule.id, metric.asset), Active, now, None)];
        }
        assert latest[..|latest|] == latest && rules[..i + 1][..i] == rules[..i];
      }
      assert rules[..|rules|] == rules;
    }
  }

  lemma NothingFired(alerts: Table, now: int, cooldownS: int)
    ensures FireAll(alerts, [], now, cooldownS) == alerts
  {
  }

  // ---------- what a tick fires ----------

  lemma {:induction false} PairsOfMembers(rule: WebRule, latest: seq<Metric>, p: Pair)
    ensures p in PairsOf(rule, latest) <==>
              rule.id == p.rule && exists m :: m in latest && m.asset == p.asset && BreachesRule(rule, m)
  {
    hide BreachesRule;
    if latest != [] {
      var n := |latest| - 1;
      assert latest == latest[..n] + [latest[n]];
      PairsOfMembers(rule, latest[..n], p);
    }
  }

  /** The pairs a tick considers are those of a rule and an asset whose latest metric breaches it. */
  lemma {:induction false} AllPairsMembers(rules: seq<WebRule>, latest: seq<Metric>, p: Pair)
    ensures p in AllPairs(rules, latest) <==>
              exists r, m :: r in rules && m in latest && r.id == p.rule && m.asset == p.asset && BreachesRule(r, m)
  {
    hide BreachesRule;
    if rules != [] {
      var n := |rules| - 1;
      assert rules == rules[..n] + [rules[n]];
      AllPairsMembers(rules[..n], latest, p);
      PairsOfMembers(rules[n], latest, p);
    }
  }

  /** A newest row of the asset, less than five minutes old. */
  ghost predicate IsNewest(m: Metric, rows: seq<Metric>, now: int, asset: int) {
    m in rows && m.asset == asset && now - m.at < 300 && forall r :: r in rows && r.asset == asset ==> r.at <= m.at
  }

  /** What the metrics query leaves of an asset is a newest row of it, and there is one if it has any. */
  lemma LatestIsNewest(rows: seq<Metric>, latest: seq<Metric>, now: int, asset: int)
    requires AreLatest(latest, rows, now)
    ensures HasRow(latest, asset) <==> exists m :: IsNewest(m, rows, now, asset)
    ensures forall m :: m in latest && m.asset == asset ==> IsNewest(m, rows, now, asset)
  {
    if HasRow(latest, asset) {
      var l :| l in latest && l.asset == asset;
      assert IsNewest(l, rows, now, asset);
    }
    hide HasRow;
  }

  /** A rule is judged by the newest reading of an asset, if that is less than five minutes old, and by one
      of them if several are simultaneous. */
  lemma NewestDecides(rows: seq<Metric>, latest: seq<Metric>, now: int, rule: WebRule, asset: int)
    requires AreLatest(latest, rows, now)
    ensures (exists m :: m in latest && m.asset == asset && BreachesRule(rule, m)) ==>
              exists m :: IsNewest(m, rows, now, asset) && BreachesRule(rule, m)
    ensures (exists m :: IsNewest(m, rows, now, asset)) && (forall m :: IsNewest(m, rows, now, asset) ==> BreachesRule(rule, m)) ==>
              exists m :: m in latest && m.asset == asset && BreachesRule(rule, m)
  {
    hide BreachesRule, AreLatest, IsNewest;
    LatestIsNewest(rows, latest, now, asset);
    assert HasRow(latest, asset) <==> exists m :: m in latest && m.asset == asset;
  }

  /** So where none are simultaneous exactly by the newest. */
  lemma SoleNewestDecides(rows: seq<Metric>, latest: seq<Metric>, now: int, rule: WebRule, asset: int)
    requires AreLatest(latest, rows, now)
    requires forall m, n :: IsNewest(m, rows, now, asset) && IsNewest(n, rows, now, asset) ==> m == n
    ensures (exists m :: m in latest && m.asset == asset && BreachesRule(rule, m)) <==>
            exists m :: IsNewest(m, rows, now, asset) && BreachesRule(rule, m)
  {
    hide BreachesRule, AreLatest, IsNewest;
    LatestIsNewest(rows, latest, now, asset);
    assert HasRow(latest, asset) <==> exists m :: m in latest && m.asset == asset;
  }

  /** The alerts of a pair among these. */
  function CountOf(alerts: Table, p: Pair): nat {
    if alerts == [] then 0 else CountOf(alerts[..|alerts| - 1], p) + if alerts[|alerts| - 1].pair == p then 1 else 0
  }

  lemma FiredIsRecent(alerts: Table, p: Pair, now: int, cooldownS: int, q: Pair)
    requires cooldownS > 0
    ensures RecentActive(Fire(alerts, p, now), q, now, cooldownS) <==> RecentActive(alerts, q, now, cooldownS) || q == p
  {
    var t := Fire(alerts, p, now);
    assert t[|alerts|] in t;
    if a :| a in alerts && IsActive(a, q) && a.firedAt > now - cooldownS { assert a in t; }
  }

  lemma {:induction false} FireAllCounts(alerts: Table, pairs: seq<Pair>, now: int, cooldownS: int, q: Pair)
    requires cooldownS > 0
    ensures var t := FireAll(alerts, pairs, now, cooldownS);
            && alerts <= t
            && (forall i :: |alerts| <= i < |t| ==> t[i] == Alert(t[i].pair, Active, now, None))
            && CountOf(t, q) == CountOf(alerts, q) + (if q in pairs && !RecentActive(alerts, q, now, cooldownS) then 1 else 0)
            && (RecentActive(t, q, now, cooldownS) <==> RecentActive(alerts, q, now, cooldownS) || q in pairs)
  {
    hide RecentActive;
    if pairs != [] {
      var n := |pairs| - 1;
      assert pairs == pairs[..n] + [pairs[n]];
      FireAllCounts(alerts, pairs[..n], now, cooldownS, q);
      var s := FireAll(alerts, pairs[..n], now, cooldownS);
      var t := FireAll(alerts, pairs, now, cooldownS);
      if !RecentActive(s, pairs[n], now, cooldownS) {
        FiredIsRecent(s, pairs[n], now, cooldownS, q);
        assert t[..|s|] == s;
      }
    }
  }

  /** One uninterrupted tick, exactly: the table only grows, a pair gains an alert, and no more than
      one, if and only if its latest metric breaches its rule and no active alert of it is younger than
      the cooldown; afterwards every breaching pair has such an alert. */
  lemma TickFiresExactly(alerts: Table, rules: seq<WebRule>, latest: seq<Metric>, now: int, cooldownS: int, p: Pair)
    requires cooldownS > 0
    ensures var t := FireAll(alerts, AllPairs(rules, latest), now, cooldownS);
            var breaching := exists r, m :: r in rules && m in latest && r.id == p.rule && m.asset == p.asset && BreachesRule(r, m);
            && alerts <= t
            && CountOf(t, p) == CountOf(alerts, p) + (if breaching && !RecentActive(alerts, p, now, cooldownS) then 1 else 0)
            && (breaching ==> RecentActive(t, p, now, cooldownS))
  {
    hide FireAll, AllPairs, RecentActive, BreachesRule;
    FireAllCounts(alerts, AllPairs(rules, latest), now, cooldownS, p);
    AllPairsMembers(rules, latest, p);
  }

  /** With no cooldown nothing is suppressed: a pair gains an alert for every rule and metric that
      breach, whatever is active. */
  lemma {:induction false} NoCooldownFiresAll(alerts: Table, pairs: seq<Pair>, now: int, cooldownS: int, p: Pair)
    requires cooldownS <= 0 && forall a :: a in alerts ==> a.firedAt <= now
    ensures var t := FireAll(alerts, pairs, now, cooldownS);
            && (forall a :: a in t ==> a.firedAt <= now)
            && CountOf(t, p) == CountOf(alerts, p) + multiset(pairs)[p]
  {
    if pairs != [] {
      var n := |pairs| - 1;
      assert pairs == pairs[..n] + [pairs[n]];
      NoCooldownFiresAll(alerts, pairs[..n], now, cooldownS, p);
      var s := FireAll(alerts, pairs[..n], now, cooldownS);
      assert Fire(s, pairs[n], now)[..|s|] == s;
    }
  }

  /** A tick is a run of the checks and inserts whose every interleaving keeps active alerts apart. */
  lemma {:induction false} TickIsWebRun(alerts: Table, pairs: seq<Pair>, now: int, cooldownS: int)
    ensures WebRun(WebWorld(now, alerts, None), TickEvents(pairs, cooldownS)) ==
              WebWorld(now, FireAll(alerts, pairs, now, cooldownS), None)
  {
    hide RecentActive;
    if pairs == [] {
    } else {
      var n := |pairs| - 1;
      var p := pairs[n];
      TickIsWebRun(alerts, pairs[..n], now, cooldownS);
      WebRunConcat(WebWorld(now, alerts, None), TickEvents(pairs[..n], cooldownS), [WebCheck(p, cooldownS), WebInsert]);
      var w := WebWorld(now, FireAll(alerts, pairs[..n], now, cooldownS), None);
      var es := [WebCheck(p, cooldownS), WebInsert];
      var checked := WebStep(w, es[0]);
      assert es[1..] == [WebInsert] && es[1..][1..] == [];
      assert WebRun(w, es) == WebRun(checked, es[1..]);
      assert WebRun(checked, es[1..]) == WebRun(WebStep(checked, WebInsert), es[1..][1..]);
    }
  }

  function TickEvents(pairs: seq<Pair>, cooldownS: int): seq<WebEvent> {
    if pairs == [] then [] else TickEvents(pairs[..|pairs| - 1], cooldownS) + [WebCheck(pairs[|pairs| - 1], cooldownS), WebInsert]
  }

  lemma {:induction false} WebRunConcat(w: WebWorld, a: seq<WebEvent>, b: seq<WebEvent>)
    ensures WebRun(w, a + b) == WebRun(WebRun(w, a), b)
    decreases |a|
  {
    hide WebStep;
    if a == [] {
      assert a + b == b;
    } else {
      assert (a + b)[1..] == a[1..] + b;
      WebRunConcat(WebStep(w, a[0]), a[1..], b);
    }
  }
}
