/** The metric rollup of both engines: raw samples are grouped into 5-minute rows and those into
    hourly rows.  Each SQL statement is one atomic step on the three tables.

    Time is an integer number of microseconds, the resolution of the timestamps the tables store.
    One averaged and maximised column (cpu) stands for the others, which are aggregated alike. */
module Rollup {
  const SECOND := 1_000_000
  const FIVE_MIN := 300_000_000
  const HOUR := 3_600_000_000
  const DAY := 86_400_000_000

  datatype Sample = Sample(asset: int, at: int, cpu: real)

  /** The primary key of both aggregate tables. */
  datatype Key = Key(asset: int, bucket: int)

  datatype Row = Row(avg: real, peak: real, count: nat)

  datatype Grain = Five | Hourly

  /** A WHERE clause on a timestamp; lower bounds are strict, upper bounds are not. */
  datatype Window = Always | After(lo: int) | Within(lo: int, hi: int) {
    predicate Contains(t: int) {
      match this
      case Always => true
      case After(lo) => lo < t
      case Within(lo, hi) => lo < t <= hi
    }
  }

  datatype Store = Store(now: int, raw: seq<Sample>, fine: map<Key, Row>, hourly: map<Key, Row>)

  // ---------- time buckets ----------

  /** date_trunc('hour', t) */
  function HourOf(t: int): int {
    t - t % HOUR
  }

  function MinuteOf(t: int): int {
    (t - HourOf(t)) / 60_000_000
  }

  /** date_trunc('hour', t) + INTERVAL '5 min' * (minute / 5) */
  function FloorFive(t: int): int {
    HourOf(t) + FIVE_MIN * (MinuteOf(t) / 5)
  }

  lemma MultipleOfFive(q: int)
    ensures (FIVE_MIN * q) % FIVE_MIN == 0
  {
  }

  /** The bucket formula is the floor to a multiple of five minutes. */
  lemma FloorFiveIsFloor(t: int)
    ensures FloorFive(t) % FIVE_MIN == 0
    ensures FloorFive(t) <= t < FloorFive(t) + FIVE_MIN
  {
    var q, r := t / HOUR, t % HOUR;
    var m := r / 60_000_000;
    var f := m / 5;
    assert t == HOUR * q + r;
    assert 60_000_000 * m <= r < 60_000_000 * m + 60_000_000 && 5 * f <= m < 5 * f + 5;
    assert FloorFive(t) == FIVE_MIN * (12 * q + f);
    MultipleOfFive(12 * q + f);
  }

  lemma MultiplesApart(a: int, b: int)
    requires a % FIVE_MIN == 0 && b % FIVE_MIN == 0 && -FIVE_MIN < a - b < FIVE_MIN
    ensures a == b
  {
    var p, q := a / FIVE_MIN, b / FIVE_MIN;
    assert a == FIVE_MIN * p && b == FIVE_MIN * q;
  }

  lemma FloorFiveUnique(t: int, b: int)
    requires b % FIVE_MIN == 0
    ensures FloorFive(t) == b <==> b <= t < b + FIVE_MIN
  {
    hide FloorFive;
    FloorFiveIsFloor(t);
    if b <= t < b + FIVE_MIN { MultiplesApart(FloorFive(t), b); }
  }

  function Start(t: int, g: Grain): int {
    if g.Five? then FloorFive(t) else HourOf(t)
  }

  function KeyOf(s: Sample, g: Grain): Key {
    Key(s.asset, Start(s.at, g))
  }

  // ---------- GROUP BY ----------

  /** The samples of one group that pass the WHERE clause, in table order. */
  function Select(raw: seq<Sample>, k: Key, g: Grain, w: Window): seq<Sample> {
    if raw == [] then []
    else
      var last := raw[|raw| - 1];
      Select(raw[..|raw| - 1], k, g, w)
      + if KeyOf(last, g) == k && w.Contains(last.at) then [last] else []
  }

  /** All samples of a bucket: what a full recomputation would aggregate. */
  function Bucket(raw: seq<Sample>, k: Key, g: Grain): seq<Sample> {
    Select(raw, k, g, Always)
  }

  function Sum(xs: seq<Sample>): real {
    if xs == [] then 0.0 else Sum(xs[..|xs| - 1]) + xs[|xs| - 1].cpu
  }

  function Peak(xs: seq<Sample>): real
    requires xs != []
  {
    var last := xs[|xs| - 1].cpu;
    if |xs| == 1 then last
    else
      var rest := Peak(xs[..|xs| - 1]);
      if rest < last then last else rest
  }

  /** avg, max and count(*) of a non-empty group */
  function Aggregate(xs: seq<Sample>): Row
    requires xs != []
  {
    Row(Sum(xs) / |xs| as real, Peak(xs), |xs|)
  }

  function SampleKeys(raw: seq<Sample>): set<Key> {
    set s | s in raw :: KeyOf(s, Five)
  }

  /** SELECT ... FROM metrics WHERE w GROUP BY asset, bucket */
  function Groups(raw: seq<Sample>, w: Window): map<Key, Row> {
    map k | k in SampleKeys(raw) && Select(raw, k, Five, w) != []
      :: Aggregate(Select(raw, k, Five, w))
  }

  /** The 5-minute rows of an asset, bucket by bucket from lo up to hi, that pass the WHERE clause. */
  function RowsBetween(fine: map<Key, Row>, asset: int, w: Window, lo: int, hi: int): seq<Row>
    decreases hi - lo
  {
    if hi <= lo then []
    else
      var slot := Key(asset, hi - FIVE_MIN);
      RowsBetween(fine, asset, w, lo, hi - FIVE_MIN)
      + if slot in fine && w.Contains(slot.bucket) then [fine[slot]] else []
  }

  function RowsOfHour(fine: map<Key, Row>, k: Key, w: Window): seq<Row> {
    RowsBetween(fine, k.asset, w, k.bucket, k.bucket + HOUR)
  }

  function SumAvg(rows: seq<Row>): real {
    if rows == [] then 0.0 else SumAvg(rows[..|rows| - 1]) + rows[|rows| - 1].avg
  }

  function SumCount(rows: seq<Row>): nat {
    if rows == [] then 0 else SumCount(rows[..|rows| - 1]) + rows[|rows| - 1].count
  }

  function PeakOf(rows: seq<Row>): real
    requires rows != []
  {
    var last := rows[|rows| - 1].peak;
    if |rows| == 1 then last
    else
      var rest := PeakOf(rows[..|rows| - 1]);
      if rest < last then last else rest
  }

  /** avg(cpu_avg), max(cpu_max), sum(sample_count): an average of averages */
  function Combine(rows: seq<Row>): Row
    requires rows != []
  {
    Row(SumAvg(rows) / |rows| as real, PeakOf(rows), SumCount(rows))
  }

  function HourKeys(fine: map<Key, Row>): set<Key> {
    set f | f in fine :: Key(f.asset, HourOf(f.bucket))
  }

  /** SELECT ... FROM metrics_5m WHERE w GROUP BY asset, hour */
  function HourGroups(fine: map<Key, Row>, w: Window): map<Key, Row> {
    map k | k in HourKeys(fine) && RowsOfHour(fine, k, w) != []
      :: Combine(RowsOfHour(fine, k, w))
  }

  // ---------- the four statements ----------

  /** max(bucket) of an aggregate table */
  ghost predicate IsWatermark(keys: set<Key>, m: int) {
    (exists k :: k in keys && k.bucket == m) && forall k :: k in keys ==> k.bucket <= m
  }

  lemma WatermarkExists(keys: set<Key>) returns (m: int)
    requires keys != {}
    ensures IsWatermark(keys, m)
  {
    var k :| k in keys;
    m := k.bucket;
    assert k in keys && k.bucket == m;
    if keys != {k} {
      var rest := keys - {k};
      var r := WatermarkExists(rest);
      if r > m {
        var top :| top in rest && top.bucket == r;
        m := r;
        assert top in keys && top.bucket == m;
      }
      assert forall j :: j in keys ==> j == k || j in rest;
    }
  }

  /** COALESCE(max(bucket), fallback) */
  ghost function Watermark(keys: set<Key>, fallback: int): (m: int)
    ensures keys != {} ==> IsWatermark(keys, m)
    ensures keys == {} ==> m == fallback
  {
    if keys == {} then fallback
    else
      assert exists m :: IsWatermark(keys, m) by { var m := WatermarkExists(keys); }
      var m :| IsWatermark(keys, m);
      m
  }

  /** Go engine: rows past the watermark, ON CONFLICT DO NOTHING. */
  ghost function GoFive(s: Store): Store {
    s.(fine := Groups(s.raw, After(Watermark(s.fine.Keys, s.now - HOUR))) + s.fine)
  }

  ghost function GoHourly(s: Store): Store {
    s.(hourly := HourGroups(s.fine, After(Watermark(s.hourly.Keys, s.now - DAY))) + s.hourly)
  }

  /** Web engine: a sliding window up to the last closed bucket, ON CONFLICT DO UPDATE. */
  function WebWindow(now: int): Window {
    Within(now - 2 * FIVE_MIN, FloorFive(now))
  }

  function WebFive(s: Store): Store {
    s.(fine := s.fine + Groups(s.raw, WebWindow(s.now)))
  }

  function WebHourWindow(now: int): Window {
    Within(now - 2 * HOUR, HourOf(now))
  }

  function WebHourly(s: Store): Store {
    s.(hourly := s.hourly + HourGroups(s.fine, WebHourWindow(s.now)))
  }

  // ---------- histories ----------

  datatype Event =
    | Tick(dt: nat)
    | Ingest(sample: Sample)
    | RunGoFive
    | RunGoHourly
    | RunWebFive
    | RunWebHourly

  ghost function Step(s: Store, e: Event): Store {
    match e
    case Tick(dt) => s.(now := s.now + dt)
    case Ingest(x) => s.(raw := s.raw + [x])
    case RunGoFive => GoFive(s)
    case RunGoHourly => GoHourly(s)
    case RunWebFive => WebFive(s)
    case RunWebHourly => WebHourly(s)
  }

  ghost function Run(s: Store, es: seq<Event>): Store
    decreases |es|
  {
    if es == [] then s else Run(Step(s, es[0]), es[1..])
  }

  // ---------- facts about GROUP BY ----------

  lemma SelectMembers(raw: seq<Sample>, k: Key, g: Grain, w: Window)
    ensures forall x :: x in Select(raw, k, g, w) <==> x in raw && KeyOf(x, g) == k && w.Contains(x.at)
  {
    if raw != [] {
      var n := |raw| - 1;
      SelectMembers(raw[..n], k, g, w);
      assert raw == raw[..n] + [raw[n]];
    }
  }

  lemma {:induction false} SelectNarrows(raw: seq<Sample>, k: Key, g: Grain, w: Window)
    ensures |Select(raw, k, g, w)| <= |Bucket(raw, k, g)|
    ensures |Select(raw, k, g, w)| == |Bucket(raw, k, g)| <==>
            forall x :: x in raw && KeyOf(x, g) == k ==> w.Contains(x.at)
  {
    if raw != [] {
      var n := |raw| - 1;
      SelectNarrows(raw[..n], k, g, w);
      assert raw == raw[..n] + [raw[n]];
    }
  }

  lemma {:induction false} SelectAgrees(raw: seq<Sample>, k: Key, g: Grain, w: Window, v: Window)
    requires forall x :: x in raw && KeyOf(x, g) == k ==> (w.Contains(x.at) <==> v.Contains(x.at))
    ensures Select(raw, k, g, w) == Select(raw, k, g, v)
  {
    if raw != [] {
      var n := |raw| - 1;
      assert raw == raw[..n] + [raw[n]];
      SelectAgrees(raw[..n], k, g, w, v);
    }
  }

  lemma SelectNone(k: Key, g: Grain, w: Window)
    ensures Select([], k, g, w) == []
  {
  }

  lemma SelectAppend(raw: seq<Sample>, x: Sample, k: Key, g: Grain, w: Window)
    ensures Select(raw + [x], k, g, w) ==
            Select(raw, k, g, w) + if KeyOf(x, g) == k && w.Contains(x.at) then [x] else []
  {
    assert (raw + [x])[..|raw|] == raw;
  }

  lemma GroupsMembers(raw: seq<Sample>, w: Window, k: Key)
    ensures k in Groups(raw, w) <==> Select(raw, k, Five, w) != []
    ensures k in Groups(raw, w) ==> Groups(raw, w)[k] == Aggregate(Select(raw, k, Five, w))
  {
    SelectMembers(raw, k, Five, w);
    if Select(raw, k, Five, w) != [] {
      var x := Select(raw, k, Five, w)[0];
      assert x in raw && KeyOf(x, Five) == k;
    }
  }

  lemma HourGroupsMembers(fine: map<Key, Row>, w: Window, k: Key)
    ensures k in HourGroups(fine, w) ==> HourOf(k.bucket) == k.bucket && RowsOfHour(fine, k, w) != []
    ensures k in HourGroups(fine, w) ==> HourGroups(fine, w)[k] == Combine(RowsOfHour(fine, k, w))
  {
    if k in HourGroups(fine, w) {
      var f :| f in fine && k == Key(f.asset, HourOf(f.bucket));
      HourOfHour(f.bucket);
    }
  }

  lemma HourOfHour(t: int)
    ensures HourOf(HourOf(t)) == HourOf(t)
  {
  }
}
