/** The web engine's offline check: stale assets go offline with an outage alert and an incident, and
    assets that are back online have theirs resolved. */
module Outages {
  import opened Options

  datatype Kind = Server | Network | Unmonitored
  datatype Presence = Online | Offline

  datatype Asset = Asset(kind: Kind, presence: Presence, lastSeen: Option<int>) {
    predicate Monitored() { !kind.Unmonitored? }
  }

  /** `outage`: the source is 'threshold' and the title holds the outage marker. */
  datatype Alert = Alert(asset: int, outage: bool, status: AlertStatus)
  datatype AlertStatus = Active | Acked | Resolved

  datatype Incident = Incident(assets: set<int>, resolved: bool)

  datatype World = World(now: int, assets: map<int, Asset>, alerts: seq<Alert>, incidents: seq<Incident>)

  // ---------- queries ----------

  predicate IsOutage(x: Alert, a: int) {
    x.asset == a && x.outage && x.status == Active
  }

  function ActiveOutages(alerts: seq<Alert>, a: int): nat {
    if alerts == [] then 0
    else ActiveOutages(alerts[..|alerts| - 1], a) + if IsOutage(alerts[|alerts| - 1], a) then 1 else 0
  }

  predicate IsOpen(x: Incident, a: int) {
    a in x.assets && !x.resolved
  }

  function OpenIncidents(incidents: seq<Incident>, a: int): nat {
    if incidents == [] then 0
    else OpenIncidents(incidents[..|incidents| - 1], a) + if IsOpen(incidents[|incidents| - 1], a) then 1 else 0
  }

  /** status = 'online' and last_seen is missing or older than the threshold */
  predicate IsStale(w: World, a: int, thresholdMin: int) {
    && a in w.assets && w.assets[a].Monitored() && w.assets[a].presence == Online
    && (w.assets[a].lastSeen.None? || w.assets[a].lastSeen.value < w.now - 60 * thresholdMin)
  }

  predicate IsUp(w: World, a: int) {
    a in w.assets && w.assets[a].Monitored() && w.assets[a].presence == Online
  }

  // ---------- updates ----------

  /** UPDATE assets SET status = 'offline' WHERE stale */
  function MarkStale(w: World, thresholdMin: int): World {
    w.(assets := map a | a in w.assets :: if IsStale(w, a, thresholdMin) then w.assets[a].(presence := Offline) else w.assets[a])
  }

  /** The first loop's body: an alert and an incident, unless there already is one. */
  function OpenFor(w: World, a: int): World {
    w.(alerts := if ActiveOutages(w.alerts, a) == 0 then w.alerts + [Alert(a, true, Active)] else w.alerts,
       incidents := if OpenIncidents(w.incidents, a) == 0 then w.incidents + [Incident({a}, false)] else w.incidents)
  }

  function OpenAll(w: World, ids: seq<int>): World {
    if ids == [] then w else OpenFor(OpenAll(w, ids[..|ids| - 1]), ids[|ids| - 1])
  }

  /** UPDATE alerts SET status = 'resolved' for every active outage alert of the asset */
  function ResolveOutages(alerts: seq<Alert>, a: int): seq<Alert> {
    if alerts == [] then []
    else
      var x := alerts[|alerts| - 1];
      ResolveOutages(alerts[..|alerts| - 1], a) + [if IsOutage(x, a) then x.(status := Resolved) else x]
  }

  /** Resolves one open incident of the asset, if there is any: the query has LIMIT 1. */
  function ResolveOne(incidents: seq<Incident>, a: int): seq<Incident> {
    if incidents == [] then []
    else
      var n := |incidents| - 1;
      if IsOpen(incidents[n], a) then incidents[..n] + [incidents[n].(resolved := true)]
      else ResolveOne(incidents[..n], a) + [incidents[n]]
  }

  /** The second loop's body. */
  function RecoverFor(w: World, a: int): World {
    w.(alerts := ResolveOutages(w.alerts, a), incidents := ResolveOne(w.incidents, a))
  }

  function RecoverAll(w: World, ids: seq<int>): World {
    if ids == [] then w else RecoverFor(RecoverAll(w, ids[..|ids| - 1]), ids[|ids| - 1])
  }

  /** A list of the elements of a set, in whatever order a query returns them. */
  ghost predicate Lists(ids: seq<int>, s: set<int>) {
    && (forall a :: a in ids <==> a in s)
    && forall i, j :: 0 <= i < j < |ids| ==> ids[i] != ids[j]
  }

  function StaleSet(w: World, thresholdMin: int): set<int> {
    set a | a in w.assets && IsStale(w, a, thresholdMin)
  }

  function UpSet(w: World): set<int> {
    set a | a in w.assets && IsUp(w, a)
  }

  /** One offline check, given the orders in which its two queries return their rows. */
  function Check(w: World, thresholdMin: int, stale: seq<int>, up: seq<int>): World {
    RecoverAll(OpenAll(MarkStale(w, thresholdMin), stale), up)
  }

  ghost predicate CheckOrders(w: World, thresholdMin: int, stale: seq<int>, up: seq<int>) {
    Lists(stale, StaleSet(w, thresholdMin)) && Lists(up, UpSet(MarkStale(w, thresholdMin)))
  }

  // ---------- the check as the scheduler runs it ----------

  class Monitor {
    var assets: map<int, Asset>
    var alerts: seq<Alert>
    var incidents: seq<Incident>

    ghost function View(now: int): World
      reads this
    {
      World(now, assets, alerts, incidents)
    }

    constructor (assets: map<int, Asset>)
      ensures this.assets == assets && alerts == [] && incidents == []
    {
      this.assets := assets;
      alerts, incidents := [], [];
    }

    /** runOfflineCheck; stale and up are the rows its two asset queries return, in the order they come. */
    method RunOfflineCheck(now: int, thresholdMin: int, stale: seq<int>, up: seq<int>)
      requires CheckOrders(View(now), thresholdMin, stale, up)
      modifies this
      ensures View(now) == Check(old(View(now)), thresholdMin, stale, up)
    {
      ghost var before := View(now);
      assets := map a | a in assets :: if a in stale then assets[a].(presence := Offline) else assets[a];
      ghost var marked := MarkStale(before, thresholdMin);
      assert View(now) == marked;
      for i := 0 to |stale|
        invariant View(now) == OpenAll(marked, stale[..i])
      {
        assert stale[..i + 1][..i] == stale[..i];
        if ActiveOutages(alerts, stale[i]) == 0 { alerts := alerts + [Alert(stale[i], true, Active)]; }
        if OpenIncidents(incidents, stale[i]) == 0 { incidents := incidents + [Incident({stale[i]}, false)]; }
      }
      assert stale[..|stale|] == stale;
      ghost var raised := OpenAll(marked, stale);
      for i := 0 to |up|
        invariant View(now) == RecoverAll(raised, up[..i])
      {
        assert up[..i + 1][..i] == up[..i];
        alerts := ResolveOutages(alerts, up[i]);
        incidents := ResolveOne(incidents, up[i]);
      }
      assert up[..|up|] == up;
    }
  }

  lemma {:induction false} OpenAllAssets(w: World, ids: seq<int>)
    ensures OpenAll(w, ids).assets == w.assets && OpenAll(w, ids).now == w.now
  {
    if ids != [] { OpenAllAssets(w, ids[..|ids| - 1]); }
  }

  lemma {:induction false} RecoverAllAssets(w: World, ids: seq<int>)
    ensures RecoverAll(w, ids).assets == w.assets && RecoverAll(w, ids).now == w.now
  {
    if ids != [] { RecoverAllAssets(w, ids[..|ids| - 1]); }
  }

  // ---------- counting ----------

  /** Every incident concerns one asset, as the automatic ones do. */
  ghost predicate SingleAsset(incidents: seq<Incident>) {
    forall x :: x in incidents ==> exists a :: x.assets == {a}
  }

  lemma {:induction false} ResolveOneCounts(incidents: seq<Incident>, a: int, b: int)
    requires SingleAsset(incidents)
    ensures SingleAsset(ResolveOne(incidents, a))
    ensures var n := OpenIncidents(incidents, b);
            OpenIncidents(ResolveOne(incidents, a), b) == if a == b && n > 0 then n - 1 else n
  {
    if incidents != [] {
      var n := |incidents| - 1;
      var x := incidents[n];
      assert incidents == incidents[..n] + [x] && x in incidents;
      ResolveOneCounts(incidents[..n], a, b);
      var t := ResolveOne(incidents, a);
      if IsOpen(x, a) {
        assert t[..n] == incidents[..n] && x.assets == {a};
        if a == b && n >= 0 { assert OpenIncidents(incidents, b) > 0; }
      } else {
        ResolveOneLength(incidents[..n], a);
        assert t[..n] == ResolveOne(incidents[..n], a) && t[n] == x;
      }
    }
  }

  lemma {:induction false} ResolveOneLength(incidents: seq<Incident>, a: int)
    ensures |ResolveOne(incidents, a)| == |incidents|
  {
    if incidents != [] { ResolveOneLength(incidents[..|incidents| - 1], a); }
  }

  lemma {:induction false} ResolveOutagesCounts(alerts: seq<Alert>, a: int, b: int)
    ensures ActiveOutages(ResolveOutages(alerts, a), b) == if a == b then 0 else ActiveOutages(alerts, b)
  {
    if alerts != [] {
      var n := |alerts| - 1;
      ResolveOutagesCounts(alerts[..n], a, b);
      var t := ResolveOutages(alerts, a);
      assert t[..|t| - 1] == ResolveOutages(alerts[..n], a);
    }
  }

  /** What the first loop leaves: one of each for the listed assets that had none. */
  lemma {:induction false} OpenAllCounts(w: World, ids: seq<int>, b: int)
    requires SingleAsset(w.incidents)
    ensures var t := OpenAll(w, ids);
            && SingleAsset(t.incidents)
            && ActiveOutages(t.alerts, b) == (if b in ids && ActiveOutages(w.alerts, b) == 0 then 1 else ActiveOutages(w.alerts, b))
            && OpenIncidents(t.incidents, b) == (if b in ids && OpenIncidents(w.incidents, b) == 0 then 1 else OpenIncidents(w.incidents, b))
  {
    if ids != [] {
      var n := |ids| - 1;
      assert ids == ids[..n] + [ids[n]];
      OpenAllCounts(w, ids[..n], b);
      OpenForCounts(OpenAll(w, ids[..n]), ids[n], b);
    }
  }

  lemma OpenForCounts(w: World, a: int, b: int)
    requires SingleAsset(w.incidents)
    ensures var t := OpenFor(w, a);
            && SingleAsset(t.incidents)
            && ActiveOutages(t.alerts, b) == (if a == b && ActiveOutages(w.alerts, b) == 0 then 1 else ActiveOutages(w.alerts, b))
            && OpenIncidents(t.incidents, b) == (if a == b && OpenIncidents(w.incidents, b) == 0 then 1 else OpenIncidents(w.incidents, b))
  {
    var x, y := Alert(a, true, Active), Incident({a}, false);
    assert (w.alerts + [x])[..|w.alerts|] == w.alerts;
    assert (w.incidents + [y])[..|w.incidents|] == w.incidents;
  }

  /** What the second loop leaves: no outage alert and one open incident fewer for the listed assets. */
  lemma {:induction false} RecoverAllCounts(w: World, ids: seq<int>, b: int)
    requires SingleAsset(w.incidents) && forall i, j :: 0 <= i < j < |ids| ==> ids[i] != ids[j]
    ensures var t := RecoverAll(w, ids);
            var n := OpenIncidents(w.incidents, b);
            && SingleAsset(t.incidents)
            && ActiveOutages(t.alerts, b) == (if b in ids then 0 else ActiveOutages(w.alerts, b))
            && OpenIncidents(t.incidents, b) == (if b in ids && n > 0 then n - 1 else n)
  {
    if ids != [] {
      var n := |ids| - 1;
      assert ids == ids[..n] + [ids[n]];
      RecoverAllCounts(w, ids[..n], b);
      var s := RecoverAll(w, ids[..n]);
      ResolveOutagesCounts(s.alerts, ids[n], b);
      ResolveOneCounts(s.incidents, ids[n], b);
    }
  }

  /** The effect of one check on every asset, exactly. */
  lemma CheckCounts(w: World, thresholdMin: int, stale: seq<int>, up: seq<int>, a: int)
    requires SingleAsset(w.incidents) && CheckOrders(w, thresholdMin, stale, up)
    ensures var t := Check(w, thresholdMin, stale, up);
            var alerts, incidents := ActiveOutages(w.alerts, a), OpenIncidents(w.incidents, a);
            && SingleAsset(t.incidents)
            && t.assets == MarkStale(w, thresholdMin).assets && t.now == w.now
            && (IsStale(w, a, thresholdMin) ==>
                  && ActiveOutages(t.alerts, a) == (if alerts == 0 then 1 else alerts)
                  && OpenIncidents(t.incidents, a) == (if incidents == 0 then 1 else incidents))
            && (IsUp(t, a) ==>
                  && ActiveOutages(t.alerts, a) == 0
                  && OpenIncidents(t.incidents, a) == (if incidents == 0 then 0 else incidents - 1))
            && (!IsStale(w, a, thresholdMin) && !IsUp(t, a) ==>
                  ActiveOutages(t.alerts, a) == alerts && OpenIncidents(t.incidents, a) == incidents)
  {
    var marked := MarkStale(w, thresholdMin);
    var raised := OpenAll(marked, stale);
    OpenAllCounts(marked, stale, a);
    OpenAllAssets(marked, stale);
    RecoverAllCounts(raised, up, a);
    RecoverAllAssets(raised, up);
    assert a in stale <==> IsStale(w, a, thresholdMin);
    assert a in up <==> IsUp(marked, a);
  }

  /** An online asset is left without an open incident exactly when it had at most one. */
  lemma RecoversExactly(w: World, thresholdMin: int, stale: seq<int>, up: seq<int>, a: int)
    requires SingleAsset(w.incidents) && CheckOrders(w, thresholdMin, stale, up)
    requires IsUp(Check(w, thresholdMin, stale, up), a)
    ensures OpenIncidents(Check(w, thresholdMin, stale, up).incidents, a) == 0 <==> OpenIncidents(w.incidents, a) <= 1
  {
    CheckCounts(w, thresholdMin, stale, up, a);
  }

  // ---------- whole runs ----------

  datatype Event =
    | Tick(dt: nat)
    | Heartbeat(a: int)                                // any agent report
    | PollFailed(a: int)                               // the pull collector marks an asset offline itself
    | OtherAlert(a: int)                               // an alert whose title lacks the outage marker
    | AckAlert(i: int)
    | ResolveAlert(i: int)
    | ResolveIncident(i: int)                          // an operator
    | RunCheck(thresholdMin: int, stale: seq<int>, up: seq<int>)

  function Present(w: World, a: int, p: Asset -> Asset): World {
    if a in w.assets then w.(assets := w.assets[a := p(w.assets[a])]) else w
  }

  function SetStatus(w: World, i: int, s: AlertStatus): World {
    if 0 <= i < |w.alerts| then w.(alerts := w.alerts[i := w.alerts[i].(status := s)]) else w
  }

  function Step(w: World, e: Event): World {
    match e
    case Tick(dt) => w.(now := w.now + dt)
    case Heartbeat(a) => Present(w, a, (x: Asset) => x.(presence := Online, lastSeen := Some(w.now)))
    case PollFailed(a) => Present(w, a, (x: Asset) => x.(presence := Offline))
    case OtherAlert(a) => w.(alerts := w.alerts + [Alert(a, false, Active)])
    case AckAlert(i) => if 0 <= i < |w.alerts| && w.alerts[i].status == Active then SetStatus(w, i, Acked) else w
    case ResolveAlert(i) => SetStatus(w, i, Resolved)
    case ResolveIncident(i) =>
      if 0 <= i < |w.incidents| then w.(incidents := w.incidents[i := w.incidents[i].(resolved := true)]) else w
    case RunCheck(t, stale, up) => Check(w, t, stale, up)
  }

  function Run(w: World, es: seq<Event>): World
    decreases |es|
  {
    if es == [] then w else Run(Step(w, es[0]), es[1..])
  }

  /** Each check's row orders list what its queries select. */
  ghost predicate Ordered(w: World, es: seq<Event>)
    decreases |es|
  {
    es == [] ||
    ((es[0].RunCheck? ==> CheckOrders(w, es[0].thresholdMin, es[0].stale, es[0].up)) && Ordered(Step(w, es[0]), es[1..]))
  }

  /** No asset has two unresolved incidents or two active outage alerts. */
  ghost predicate AtMostOne(w: World) {
    && SingleAsset(w.incidents)
    && forall a :: ActiveOutages(w.alerts, a) <= 1 && OpenIncidents(w.incidents, a) <= 1
  }

  lemma {:induction false} UpdateAlert(alerts: seq<Alert>, i: nat, x: Alert, a: int)
    requires i < |alerts| && (IsOutage(x, a) ==> IsOutage(alerts[i], a))
    ensures ActiveOutages(alerts[i := x], a) <= ActiveOutages(alerts, a)
  {
    var n := |alerts| - 1;
    var t := alerts[i := x];
    if i == n {
      assert t[..n] == alerts[..n];
    } else {
      assert t[..n] == alerts[..n][i := x];
      UpdateAlert(alerts[..n], i, x, a);
    }
  }

  lemma {:induction false} UpdateIncident(incidents: seq<Incident>, i: nat, x: Incident, a: int)
    requires i < |incidents| && (IsOpen(x, a) ==> IsOpen(incidents[i], a))
    ensures OpenIncidents(incidents[i := x], a) <= OpenIncidents(incidents, a)
  {
    var n := |incidents| - 1;
    var t := incidents[i := x];
    if i == n {
      assert t[..n] == incidents[..n];
    } else {
      assert t[..n] == incidents[..n][i := x];
      UpdateIncident(incidents[..n], i, x, a);
    }
  }

  lemma StepAtMostOne(w: World, e: Event)
    requires AtMostOne(w)
    requires e.RunCheck? ==> CheckOrders(w, e.thresholdMin, e.stale, e.up)
    ensures AtMostOne(Step(w, e))
  {
    var t := Step(w, e);
    forall a ensures ActiveOutages(t.alerts, a) <= 1 && OpenIncidents(t.incidents, a) <= 1 {
      hide Check;
      assert ActiveOutages(w.alerts, a) <= 1 && OpenIncidents(w.incidents, a) <= 1;
      match e
      case OtherAlert(b) => assert t.alerts[..|w.alerts|] == w.alerts;
      case AckAlert(i) => if t != w { UpdateAlert(w.alerts, i, t.alerts[i], a); }
      case ResolveAlert(i) => if 0 <= i < |w.alerts| { UpdateAlert(w.alerts, i, t.alerts[i], a); }
      case ResolveIncident(i) => if 0 <= i < |w.incidents| { UpdateIncident(w.incidents, i, t.incidents[i], a); }
      case RunCheck(th, stale, up) => CheckCounts(w, th, stale, up, a);
      case _ =>
    }
    match e
    case ResolveIncident(i) =>
      if 0 <= i < |w.incidents| {
        forall x | x in t.incidents ensures exists a :: x.assets == {a} {
          var j :| 0 <= j < |t.incidents| && t.incidents[j] == x;
          assert w.incidents[j] in w.incidents && x.assets == w.incidents[j].assets;
        }
      }
    case RunCheck(th, stale, up) => CheckCounts(w, th, stale, up, 0);
    case _ =>
  }

  /** Over all runs of reports, polls, operators and checks, no asset has two unresolved incidents. */
  lemma {:induction false} RunAtMostOne(w: World, es: seq<Event>)
    requires AtMostOne(w) && Ordered(w, es)
    ensures AtMostOne(Run(w, es))
    decreases |es|
  {
    hide AtMostOne, Step, CheckOrders;
    if es != [] {
      StepAtMostOne(w, es[0]);
      RunAtMostOne(Step(w, es[0]), es[1..]);
    }
  }

  /** After each check of any run: a monitored online asset has no active outage alert and no unresolved
      incident, and an asset just taken offline has exactly one of each. */
  lemma CheckOutcome(w: World, es: seq<Event>, thresholdMin: int, stale: seq<int>, up: seq<int>, a: int)
    requires w.alerts == [] && w.incidents == [] && Ordered(w, es)
    requires CheckOrders(Run(w, es), thresholdMin, stale, up)
    ensures var before := Run(w, es);
            var t := Check(before, thresholdMin, stale, up);
            && (IsUp(t, a) ==> ActiveOutages(t.alerts, a) == 0 && OpenIncidents(t.incidents, a) == 0)
            && (IsStale(before, a, thresholdMin) ==>
                  !IsUp(t, a) && ActiveOutages(t.alerts, a) == 1 && OpenIncidents(t.incidents, a) == 1)
  {
    RunAtMostOne(w, es);
    CheckCounts(Run(w, es), thresholdMin, stale, up, a);
  }

  // ---------- which rows of the tables change ----------

  /** The outage alerts of these assets resolved where they stand. */
  ghost predicate OutagesResolved(before: seq<Alert>, after: seq<Alert>, ids: set<int>) {
    && |after| == |before|
    && forall i :: 0 <= i < |before| ==>
         after[i] == if before[i].outage && before[i].status == Active && before[i].asset in ids
                     then before[i].(status := Resolved) else before[i]
  }

  /** Incidents are only closed, and only those that concern one of these assets. */
  ghost predicate IncidentsClosed(before: seq<Incident>, after: seq<Incident>, ids: set<int>) {
    && |after| == |before|
    && forall i :: 0 <= i < |before| ==>
         && after[i].assets == before[i].assets && (before[i].resolved ==> after[i].resolved)
         && (after[i].resolved ==> before[i].resolved || exists a :: a in ids && a in before[i].assets)
  }

  lemma {:induction false} ResolveOutagesAt(alerts: seq<Alert>, a: int)
    ensures OutagesResolved(alerts, ResolveOutages(alerts, a), {a})
  {
    if alerts != [] { ResolveOutagesAt(alerts[..|alerts| - 1], a); }
  }

  lemma {:induction false} ResolveOneAt(incidents: seq<Incident>, a: int)
    ensures IncidentsClosed(incidents, ResolveOne(incidents, a), {a})
  {
    if incidents != [] { ResolveOneAt(incidents[..|incidents| - 1], a); }
  }

  function Set(ids: seq<int>): set<int> {
    set a | a in ids
  }

  lemma {:induction false} RecoverAllRows(w: World, ids: seq<int>)
    ensures OutagesResolved(w.alerts, RecoverAll(w, ids).alerts, Set(ids))
    ensures IncidentsClosed(w.incidents, RecoverAll(w, ids).incidents, Set(ids))
  {
    if ids != [] {
      var n := |ids| - 1;
      assert ids == ids[..n] + [ids[n]];
      assert Set(ids) == Set(ids[..n]) + {ids[n]};
      RecoverAllRows(w, ids[..n]);
      var s := RecoverAll(w, ids[..n]);
      ResolveOutagesAt(s.alerts, ids[n]);
      ResolveOneAt(s.incidents, ids[n]);
    }
  }

  /** Only active outage alerts and open incidents of these assets alone are appended. */
  ghost predicate OutagesAppended(w: World, t: World, ids: set<int>) {
    && w.alerts <= t.alerts && w.incidents <= t.incidents
    && (forall i :: |w.alerts| <= i < |t.alerts| ==> t.alerts[i].asset in ids && t.alerts[i] == Alert(t.alerts[i].asset, true, Active))
    && forall i :: |w.incidents| <= i < |t.incidents| ==> exists a :: a in ids && t.incidents[i] == Incident({a}, false)
  }

  lemma OpenForRows(w: World, mid: World, ids: set<int>, a: int)
    requires OutagesAppended(w, mid, ids)
    ensures OutagesAppended(w, OpenFor(mid, a), ids + {a})
  {
    hide ActiveOutages, OpenIncidents;
    var t := OpenFor(mid, a);
    forall i | |w.incidents| <= i < |t.incidents| ensures exists b :: b in ids + {a} && t.incidents[i] == Incident({b}, false) {
      if i < |mid.incidents| {
        var b :| b in ids && mid.incidents[i] == Incident({b}, false);
        assert b in ids + {a};
      } else {
        assert a in ids + {a};
      }
    }
  }

  lemma {:induction false} OpenAllRows(w: World, ids: seq<int>)
    ensures OutagesAppended(w, OpenAll(w, ids), Set(ids))
  {
    if ids != [] {
      hide OutagesAppended, OpenFor;
      var n := |ids| - 1;
      assert ids == ids[..n] + [ids[n]];
      assert Set(ids) == Set(ids[..n]) + {ids[n]};
      OpenAllRows(w, ids[..n]);
      OpenForRows(w, OpenAll(w, ids[..n]), Set(ids[..n]), ids[n]);
    }
  }

  /** A check appends active outage alerts and open incidents for assets it takes offline alone, and then
      resolves the active outage alerts of the assets that are online and closes incidents of these; no
      other row changes, nor any other column. */
  lemma CheckRowsExactly(w: World, thresholdMin: int, stale: seq<int>, up: seq<int>)
    requires CheckOrders(w, thresholdMin, stale, up)
    ensures var t := Check(w, thresholdMin, stale, up);
            exists mid: World ::
              && OutagesAppended(w, mid, StaleSet(w, thresholdMin))
              && OutagesResolved(mid.alerts, t.alerts, UpSet(t))
              && IncidentsClosed(mid.incidents, t.incidents, UpSet(t))
  {
    var marked := MarkStale(w, thresholdMin);
    var mid := OpenAll(marked, stale);
    OpenAllRows(marked, stale);
    OpenAllAssets(marked, stale);
    RecoverAllRows(mid, up);
    RecoverAllAssets(mid, up);
    assert Set(stale) == StaleSet(w, thresholdMin) && Set(up) == UpSet(marked);
    assert UpSet(Check(w, thresholdMin, stale, up)) == UpSet(marked);
    assert OutagesAppended(w, mid, StaleSet(w, thresholdMin));
  }

  // ---------- which assets go offline ----------

  /** One check, exactly: an asset is offline after it if it was before, or is monitored and was never heard
      of or not for more than the threshold's minutes; nothing else of it changes. */
  lemma CheckOfflineExactly(w: World, thresholdMin: int, stale: seq<int>, up: seq<int>, a: int)
    requires a in w.assets && CheckOrders(w, thresholdMin, stale, up)
    ensures var t := Step(w, RunCheck(thresholdMin, stale, up));
            var x := w.assets[a];
            && t.assets.Keys == w.assets.Keys && t.now == w.now
            && t.assets[a] == x.(presence := t.assets[a].presence)
            && (t.assets[a].presence == Offline <==>
                  || x.presence == Offline
                  || (x.kind != Unmonitored && (x.lastSeen == None || w.now - x.lastSeen.value > thresholdMin * 60)))
  {
    OpenAllAssets(MarkStale(w, thresholdMin), stale);
    RecoverAllAssets(OpenAll(MarkStale(w, thresholdMin), stale), up);
  }

  /** Whether an asset is offline at the end, by what happened to it: a report, a failed poll, or a check that
      comes when the silence has lasted more than its threshold. */
  function OfflineAfter(es: seq<Event>, a: int, monitored: bool, offline: bool, silence: Option<int>): bool
    decreases |es|
  {
    if es == [] then offline
    else
      var rest := es[1..];
      match es[0]
      case Heartbeat(b) => if b == a then OfflineAfter(rest, a, monitored, false, Some(0)) else OfflineAfter(rest, a, monitored, offline, silence)
      case PollFailed(b) => OfflineAfter(rest, a, monitored, offline || b == a, silence)
      case Tick(dt) => OfflineAfter(rest, a, monitored, offline, if silence == None then None else Some(silence.value + dt))
      case RunCheck(thresholdMin, _, _) =>
        OfflineAfter(rest, a, monitored, offline || (monitored && (silence == None || silence.value > thresholdMin * 60)), silence)
      case _ => OfflineAfter(rest, a, monitored, offline, silence)
  }

  /** The asset is offline or not, and was last heard of so long ago. */
  ghost predicate IsSo(w: World, a: int, monitored: bool, offline: bool, silence: Option<int>) {
    && a in w.assets && (w.assets[a].kind != Unmonitored <==> monitored) && (w.assets[a].presence == Offline <==> offline)
    && w.assets[a].lastSeen == if silence == None then None else Some(w.now - silence.value)
  }

  lemma StepIsSo(w: World, e: Event, a: int, monitored: bool, offline: bool, silence: Option<int>)
    requires e.RunCheck? ==> CheckOrders(w, e.thresholdMin, e.stale, e.up)
    requires IsSo(w, a, monitored, offline, silence)
    ensures IsSo(Step(w, e), a, monitored, OfflineAfter([e], a, monitored, offline, silence),
                 match e
                 case Heartbeat(b) => if b == a then Some(0) else silence
                 case Tick(dt) => if silence == None then None else Some(silence.value + dt)
                 case _ => silence)
  {
    assert [e][1..] == [];
    if e.RunCheck? { CheckOfflineExactly(w, e.thresholdMin, e.stale, e.up, a); }
  }

  lemma OfflineCons(es: seq<Event>, a: int, monitored: bool, offline: bool, silence: Option<int>)
    requires es != []
    ensures OfflineAfter(es, a, monitored, offline, silence) ==
              OfflineAfter(es[1..], a, monitored, OfflineAfter([es[0]], a, monitored, offline, silence),
                           match es[0]
                           case Heartbeat(b) => if b == a then Some(0) else silence
                           case Tick(dt) => if silence == None then None else Some(silence.value + dt)
                           case _ => silence)
  {
    assert [es[0]][1..] == [];
  }

  lemma {:induction false} RunIsSo(w: World, es: seq<Event>, a: int, monitored: bool, offline: bool, silence: Option<int>)
    requires Ordered(w, es) && IsSo(w, a, monitored, offline, silence)
    ensures a in Run(w, es).assets
    ensures Run(w, es).assets[a].presence == Offline <==> OfflineAfter(es, a, monitored, offline, silence)
    decreases |es|
  {
    if es != [] {
      hide Step, CheckOrders, IsSo, OfflineAfter;
      var e := es[0];
      StepIsSo(w, e, a, monitored, offline, silence);
      OfflineCons(es, a, monitored, offline, silence);
      RunIsSo(Step(w, e), es[1..], a, monitored, OfflineAfter([e], a, monitored, offline, silence),
              match e
              case Heartbeat(b) => if b == a then Some(0) else silence
              case Tick(dt) => if silence == None then None else Some(silence.value + dt)
              case _ => silence);
    }
  }

  /** Over any run an asset is offline at the end exactly by the last that decided it: a report, a failed poll,
      or, for a monitored one, a check more than its threshold after the last report or without any. */
  lemma OfflineExactly(w: World, es: seq<Event>, a: int)
    requires Ordered(w, es) && a in w.assets
    ensures a in Run(w, es).assets
    ensures var x := w.assets[a];
            var silence := if x.lastSeen == None then None else Some(w.now - x.lastSeen.value);
            Run(w, es).assets[a].presence == Offline <==>
              OfflineAfter(es, a, x.kind != Unmonitored, x.presence == Offline, silence)
  {
    var x := w.assets[a];
    RunIsSo(w, es, a, x.kind != Unmonitored, x.presence == Offline,
            if x.lastSeen == None then None else Some(w.now - x.lastSeen.value));
  }

  /** So a monitored asset that has just reported is offline after a check exactly when more than the threshold's
      minutes have passed since. */
  lemma SilentGoesOffline(w: World, a: int, dt: nat, thresholdMin: int, stale: seq<int>, up: seq<int>)
    requires a in w.assets && w.assets[a].kind != Unmonitored
    requires Ordered(w, [Heartbeat(a), Tick(dt), RunCheck(thresholdMin, stale, up)])
    ensures var t := Run(w, [Heartbeat(a), Tick(dt), RunCheck(thresholdMin, stale, up)]);
            a in t.assets && (t.assets[a].presence == Offline <==> dt > 60 * thresholdMin)
  {
    hide CheckOrders;
    var es := [Heartbeat(a), Tick(dt), RunCheck(thresholdMin, stale, up)];
    OfflineExactly(w, es, a);
    assert es[1..] == [Tick(dt), RunCheck(thresholdMin, stale, up)];
    assert es[1..][1..] == [RunCheck(thresholdMin, stale, up)] && es[1..][1..][1..] == [];
    assert OfflineAfter(es[1..][1..], a, true, false, Some(dt)) == (dt > 60 * thresholdMin);
  }

  /** What the other engines and operators do: an alert that is no outage is appended active, an ack takes an
      active alert only, a resolution any. */
  lemma OperatorsExactly(w: World, i: nat)
    ensures i < |w.alerts| ==>
              var was := w.alerts[i];
              && Step(w, AckAlert(i)).alerts == w.alerts[i := if was.status == Active then was.(status := Acked) else was]
              && Step(w, ResolveAlert(i)).alerts == w.alerts[i := was.(status := Resolved)]
    ensures i < |w.incidents| ==>
              Step(w, ResolveIncident(i)).incidents == w.incidents[i := Incident(w.incidents[i].assets, true)]
    ensures forall a :: Step(w, OtherAlert(a)).alerts == w.alerts + [Alert(a, false, Active)]
  {
  }
}
