/** Every row of every reachable store is a sound aggregate of raw samples, whatever the order and
    the clock times of ingests and rollup runs of either engine. */
module RollupSoundness {
  import opened Rollup

  /** The peak is attained by a sample and the average lies between two samples. */
  ghost predicate Bounded(row: Row, xs: seq<Sample>) {
    && (exists x :: x in xs && x.cpu == row.peak)
    && (exists x :: x in xs && x.cpu <= row.avg)
    && (exists x :: x in xs && row.avg <= x.cpu)
  }

  ghost predicate Sound(row: Row, xs: seq<Sample>) {
    1 <= row.count <= |xs| && Bounded(row, xs)
  }

  ghost predicate SoundTable(rows: map<Key, Row>, raw: seq<Sample>, g: Grain) {
    forall k :: k in rows ==> Start(k.bucket, g) == k.bucket && Sound(rows[k], Bucket(raw, k, g))
  }

  ghost predicate SoundStore(s: Store) {
    SoundTable(s.fine, s.raw, Five) && SoundTable(s.hourly, s.raw, Hourly)
  }

  // ---------- one 5-minute group ----------

  lemma {:induction false} PeakAttained(xs: seq<Sample>)
    requires xs != []
    ensures exists x :: x in xs && x.cpu == Peak(xs)
    ensures forall x :: x in xs ==> x.cpu <= Peak(xs)
  {
    var n := |xs| - 1;
    assert xs == xs[..n] + [xs[n]];
    if n > 0 {
      PeakAttained(xs[..n]);
      var x :| x in xs[..n] && x.cpu == Peak(xs[..n]);
      assert x in xs && xs[n] in xs;
    }
  }

  lemma {:induction false} LowAttained(xs: seq<Sample>) returns (lo: Sample)
    requires xs != []
    ensures lo in xs && forall x :: x in xs ==> lo.cpu <= x.cpu
  {
    var n := |xs| - 1;
    assert xs == xs[..n] + [xs[n]];
    lo := xs[n];
    if n > 0 {
      var r := LowAttained(xs[..n]);
      if r.cpu < lo.cpu { lo := r; }
    }
  }

  /** n times v, by addition alone */
  ghost function Times(n: nat, v: real): real {
    if n == 0 then 0.0 else Times(n - 1, v) + v
  }

  lemma {:induction false} TimesIsProduct(n: nat, v: real)
    ensures Times(n, v) == n as real * v
  {
    if n > 0 {
      TimesIsProduct(n - 1, v);
      Distribute((n - 1) as real, v);
    }
  }

  lemma Distribute(a: real, v: real)
    ensures (a + 1.0) * v == a * v + v
  {
  }

  lemma {:induction false} SumBounds(xs: seq<Sample>, lo: real, hi: real)
    requires forall x :: x in xs ==> lo <= x.cpu <= hi
    ensures Times(|xs|, lo) <= Sum(xs) <= Times(|xs|, hi)
  {
    if xs != [] {
      var n := |xs| - 1;
      assert xs == xs[..n] + [xs[n]] && xs[n] in xs;
      SumBounds(xs[..n], lo, hi);
    }
  }

  lemma QuotientBounds(sum: real, d: real, lo: real, hi: real)
    requires d > 0.0 && d * lo <= sum <= d * hi
    ensures lo <= sum / d <= hi
  {
    var q := sum / d;
    assert q * d == sum;
    assert (lo - q) * d <= 0.0 <= (hi - q) * d;
  }

  lemma MeanBounds(sum: real, n: nat, lo: real, hi: real)
    requires n > 0 && Times(n, lo) <= sum <= Times(n, hi)
    ensures lo <= sum / n as real <= hi
  {
    TimesIsProduct(n, lo);
    TimesIsProduct(n, hi);
    QuotientBounds(sum, n as real, lo, hi);
  }

  /** The average of a group lies between its least and its greatest sample. */
  lemma AggregateSound(xs: seq<Sample>)
    requires xs != []
    ensures Sound(Aggregate(xs), xs)
  {
    PeakAttained(xs);
    var lo := LowAttained(xs);
    var hi :| hi in xs && hi.cpu == Peak(xs);
    SumBounds(xs, lo.cpu, hi.cpu);
    MeanBounds(Sum(xs), |xs|, lo.cpu, hi.cpu);
  }

  /** A row bounded by some of the samples of a bucket is bounded by all of them. */
  lemma BoundedWidens(row: Row, xs: seq<Sample>, ys: seq<Sample>)
    requires Bounded(row, xs) && forall x :: x in xs ==> x in ys
    ensures Bounded(row, ys)
  {
    var a :| a in xs && a.cpu == row.peak;
    var b :| b in xs && b.cpu <= row.avg;
    var c :| c in xs && row.avg <= c.cpu;
    assert a in ys && b in ys && c in ys;
  }

  lemma GroupsSound(raw: seq<Sample>, w: Window)
    ensures SoundTable(Groups(raw, w), raw, Five)
  {
    hide FloorFive, HourOf;
    forall k | k in Groups(raw, w)
      ensures Start(k.bucket, Five) == k.bucket && Sound(Groups(raw, w)[k], Bucket(raw, k, Five))
    {
      GroupsMembers(raw, w, k);
      var xs := Select(raw, k, Five, w);
      AggregateSound(xs);
      SelectMembers(raw, k, Five, w);
      SelectMembers(raw, k, Five, Always);
      SelectNarrows(raw, k, Five, w);
      BoundedWidens(Aggregate(xs), xs, Bucket(raw, k, Five));
      FloorFiveIsFloor(xs[0].at);
      FloorFiveUnique(k.bucket, k.bucket);
    }
  }

  // ---------- one hourly group ----------

  /** The samples of an asset in the five-minute buckets from lo up to hi. */
  function Slots(raw: seq<Sample>, asset: int, lo: int, hi: int): seq<Sample>
    decreases hi - lo
  {
    if hi <= lo then []
    else Slots(raw, asset, lo, hi - FIVE_MIN) + Bucket(raw, Key(asset, hi - FIVE_MIN), Five)
  }

  lemma SlotBefore(t: int, lo: int, hi: int)
    requires lo % FIVE_MIN == 0 && hi % FIVE_MIN == 0 && lo < hi
    ensures lo <= hi - FIVE_MIN && (hi - FIVE_MIN) % FIVE_MIN == 0
    ensures FloorFive(t) == hi - FIVE_MIN <==> hi - FIVE_MIN <= t < hi
  {
    FloorFiveUnique(t, hi - FIVE_MIN);
  }

  lemma HourMultiple(h: int)
    requires h % HOUR == 0
    ensures h % FIVE_MIN == 0 && (h + HOUR) % FIVE_MIN == 0
  {
    var q := h / HOUR;
    assert h == FIVE_MIN * (12 * q) && h + HOUR == FIVE_MIN * (12 * q + 12);
  }

  lemma HourIsInterval(t: int, h: int)
    requires HourOf(h) == h
    ensures HourOf(t) == h <==> h <= t < h + HOUR
    ensures h % FIVE_MIN == 0 && (h + HOUR) % FIVE_MIN == 0
  {
    assert h % HOUR == 0;
    HourMultiple(h);
    var q, p := t / HOUR, h / HOUR;
    assert h == HOUR * p && HourOf(t) == HOUR * q && HOUR * q <= t < HOUR * q + HOUR;
    assert HourOf(t) == h <==> q == p;
  }

  /** How many samples of the asset fall between lo and hi. */
  lemma {:induction false} SlotsAppend(raw: seq<Sample>, x: Sample, asset: int, lo: int, hi: int)
    requires lo % FIVE_MIN == 0 && hi % FIVE_MIN == 0
    ensures |Slots(raw + [x], asset, lo, hi)| ==
            |Slots(raw, asset, lo, hi)| + if x.asset == asset && lo <= x.at < hi then 1 else 0
    decreases hi - lo
  {
    hide FloorFive, HourOf;
    if lo < hi {
      SlotBefore(x.at, lo, hi);
      SlotsAppend(raw, x, asset, lo, hi - FIVE_MIN);
      SelectAppend(raw, x, Key(asset, hi - FIVE_MIN), Five, Always);
    }
  }

  lemma {:induction false} SlotsEmpty(asset: int, lo: int, hi: int)
    ensures Slots([], asset, lo, hi) == []
    decreases hi - lo
  {
    if lo < hi { SlotsEmpty(asset, lo, hi - FIVE_MIN); }
  }

  /** The five-minute buckets between an hour and the next partition the samples of that hour. */
  lemma {:induction false} SlotsCoverHour(raw: seq<Sample>, k: Key)
    requires HourOf(k.bucket) == k.bucket
    ensures |Slots(raw, k.asset, k.bucket, k.bucket + HOUR)| == |Bucket(raw, k, Hourly)|
  {
    hide FloorFive, HourOf;
    if raw == [] {
      SlotsEmpty(k.asset, k.bucket, k.bucket + HOUR);
    } else {
      var n := |raw| - 1;
      var x := raw[n];
      assert raw == raw[..n] + [x];
      HourIsInterval(x.at, k.bucket);
      SlotsCoverHour(raw[..n], k);
      SlotsAppend(raw[..n], x, k.asset, k.bucket, k.bucket + HOUR);
      SelectAppend(raw[..n], x, k, Hourly, Always);
    }
  }

  /** The rows between lo and hi count no sample twice. */
  lemma {:induction false} RowsBetweenCount(fine: map<Key, Row>, raw: seq<Sample>, asset: int, w: Window, lo: int, hi: int)
    requires SoundTable(fine, raw, Five)
    ensures SumCount(RowsBetween(fine, asset, w, lo, hi)) <= |Slots(raw, asset, lo, hi)|
    decreases hi - lo
  {
    hide FloorFive, HourOf;
    if lo < hi {
      RowsBetweenCount(fine, raw, asset, w, lo, hi - FIVE_MIN);
      var slot := Key(asset, hi - FIVE_MIN);
      var prior := RowsBetween(fine, asset, w, lo, hi - FIVE_MIN);
      if slot in fine && w.Contains(slot.bucket) {
        assert (prior + [fine[slot]])[..|prior|] == prior;
        assert Sound(fine[slot], Bucket(raw, slot, Five));
      } else {
        assert prior + [] == prior;
      }
    }
  }

  /** RowsBetween lists exactly the table's rows with an aligned bucket between lo and hi. */
  lemma {:induction false} RowsBetweenMembers(fine: map<Key, Row>, asset: int, w: Window, lo: int, hi: int)
    requires lo % FIVE_MIN == 0 && hi % FIVE_MIN == 0
    ensures forall row :: row in RowsBetween(fine, asset, w, lo, hi) ==>
              exists f :: f in fine && f.asset == asset && lo <= f.bucket < hi && fine[f] == row
    ensures forall f | f in fine && f.asset == asset && lo <= f.bucket < hi && f.bucket % FIVE_MIN == 0
              && w.Contains(f.bucket) :: fine[f] in RowsBetween(fine, asset, w, lo, hi)
    decreases hi - lo
  {
    if lo < hi {
      SlotBefore(lo, lo, hi);
      RowsBetweenMembers(fine, asset, w, lo, hi - FIVE_MIN);
      var slot := Key(asset, hi - FIVE_MIN);
      forall f | f in fine && f.asset == asset && lo <= f.bucket < hi && f.bucket % FIVE_MIN == 0 && w.Contains(f.bucket)
        ensures fine[f] in RowsBetween(fine, asset, w, lo, hi)
      {
        if f.bucket >= hi - FIVE_MIN {
          assert f == slot;
        }
      }
    }
  }

  /** Every row of the hour is bounded by raw samples of the hour. */
  lemma RowsOfHourBounded(fine: map<Key, Row>, raw: seq<Sample>, k: Key, w: Window)
    requires SoundTable(fine, raw, Five) && HourOf(k.bucket) == k.bucket
    ensures forall row :: row in RowsOfHour(fine, k, w) ==> row.count >= 1 && Bounded(row, Bucket(raw, k, Hourly))
  {
    hide FloorFive, HourOf;
    HourIsInterval(k.bucket, k.bucket);
    RowsBetweenMembers(fine, k.asset, w, k.bucket, k.bucket + HOUR);
    forall row | row in RowsOfHour(fine, k, w)
      ensures row.count >= 1 && Bounded(row, Bucket(raw, k, Hourly))
    {
      var f :| f in fine && f.asset == k.asset && k.bucket <= f.bucket < k.bucket + HOUR && fine[f] == row;
      assert Start(f.bucket, Five) == f.bucket && Sound(row, Bucket(raw, f, Five));
      SlotInHour(raw, k, f);
      BoundedWidens(row, Bucket(raw, f, Five), Bucket(raw, k, Hourly));
    }
  }

  lemma SlotInHour(raw: seq<Sample>, k: Key, f: Key)
    requires HourOf(k.bucket) == k.bucket && FloorFive(f.bucket) == f.bucket
    requires f.asset == k.asset && k.bucket <= f.bucket < k.bucket + HOUR
    ensures forall x :: x in Bucket(raw, f, Five) ==> x in Bucket(raw, k, Hourly)
  {
    hide FloorFive, HourOf;
    SelectMembers(raw, f, Five, Always);
    SelectMembers(raw, k, Hourly, Always);
    forall x | x in Bucket(raw, f, Five) ensures x in Bucket(raw, k, Hourly) {
      InHour(x.at, f.bucket, k.bucket);
    }
  }

  lemma InHour(t: int, b: int, h: int)
    requires HourOf(h) == h && FloorFive(t) == b && h <= b < h + HOUR
    ensures HourOf(t) == h
  {
    hide FloorFive, HourOf;
    FloorFiveIsFloor(t);
    HourIsInterval(t, h);
  }

  lemma {:induction false} SumAvgBounds(rows: seq<Row>, lo: real, hi: real)
    requires forall row :: row in rows ==> lo <= row.avg <= hi
    ensures Times(|rows|, lo) <= SumAvg(rows) <= Times(|rows|, hi)
  {
    if rows != [] {
      var n := |rows| - 1;
      assert rows == rows[..n] + [rows[n]] && rows[n] in rows;
      SumAvgBounds(rows[..n], lo, hi);
    }
  }

  lemma {:induction false} PeakOfAttained(rows: seq<Row>)
    requires rows != []
    ensures exists row :: row in rows && row.peak == PeakOf(rows)
  {
    var n := |rows| - 1;
    assert rows == rows[..n] + [rows[n]];
    if n > 0 {
      PeakOfAttained(rows[..n]);
      var r :| r in rows[..n] && r.peak == PeakOf(rows[..n]);
      assert r in rows && rows[n] in rows;
    }
  }

  lemma {:induction false} SumCountPositive(rows: seq<Row>)
    requires rows != [] && forall row :: row in rows ==> row.count >= 1
    ensures SumCount(rows) >= 1
  {
    var n := |rows| - 1;
    assert rows[n] in rows;
  }

  /** An average of averages still lies between the least and the greatest raw sample. */
  lemma CombineSound(rows: seq<Row>, xs: seq<Sample>)
    requires rows != [] && forall row :: row in rows ==> row.count >= 1 && Bounded(row, xs)
    requires SumCount(rows) <= |xs|
    ensures Sound(Combine(rows), xs)
  {
    assert rows[0] in rows;
    SumCountPositive(rows);
    PeakOfAttained(rows);
    var top :| top in rows && top.peak == PeakOf(rows);
    assert Bounded(top, xs);
    CombinedAverage(rows, xs);
  }

  lemma CombinedAverage(rows: seq<Row>, xs: seq<Sample>)
    requires rows != [] && xs != [] && forall row :: row in rows ==> Bounded(row, xs)
    ensures exists x :: x in xs && x.cpu <= SumAvg(rows) / |rows| as real
    ensures exists x :: x in xs && SumAvg(rows) / |rows| as real <= x.cpu
  {
    PeakAttained(xs);
    var lo := LowAttained(xs);
    var hi :| hi in xs && hi.cpu == Peak(xs);
    forall row | row in rows ensures lo.cpu <= row.avg <= hi.cpu {
      BoundedAverage(row, xs, lo.cpu, hi.cpu);
    }
    SumAvgBounds(rows, lo.cpu, hi.cpu);
    MeanBounds(SumAvg(rows), |rows|, lo.cpu, hi.cpu);
  }

  lemma BoundedAverage(row: Row, xs: seq<Sample>, lo: real, hi: real)
    requires Bounded(row, xs) && forall x :: x in xs ==> lo <= x.cpu <= hi
    ensures lo <= row.avg <= hi
  {
  }

  lemma HourGroupSound(fine: map<Key, Row>, raw: seq<Sample>, w: Window, k: Key)
    requires SoundTable(fine, raw, Five) && HourOf(k.bucket) == k.bucket && RowsOfHour(fine, k, w) != []
    ensures Sound(Combine(RowsOfHour(fine, k, w)), Bucket(raw, k, Hourly))
  {
    hide FloorFive, HourOf;
    RowsBetweenCount(fine, raw, k.asset, w, k.bucket, k.bucket + HOUR);
    RowsOfHourBounded(fine, raw, k, w);
    SlotsCoverHour(raw, k);
    CombineSound(RowsOfHour(fine, k, w), Bucket(raw, k, Hourly));
  }

  lemma HourGroupsSound(fine: map<Key, Row>, raw: seq<Sample>, w: Window)
    requires SoundTable(fine, raw, Five)
    ensures SoundTable(HourGroups(fine, w), raw, Hourly)
  {
    hide FloorFive, HourOf;
    forall k | k in HourGroups(fine, w)
      ensures Start(k.bucket, Hourly) == k.bucket && Sound(HourGroups(fine, w)[k], Bucket(raw, k, Hourly))
    {
      HourGroupsMembers(fine, w, k);
      HourGroupSound(fine, raw, w, k);
    }
  }

  /** HourGroups really is the GROUP BY: every row that passes the WHERE clause enters the group of its hour. */
  lemma HourGroupsIsGroupBy(fine: map<Key, Row>, raw: seq<Sample>, f: Key, w: Window)
    requires SoundTable(fine, raw, Five) && f in fine && w.Contains(f.bucket)
    ensures Key(f.asset, HourOf(f.bucket)) in HourGroups(fine, w)
    ensures fine[f] in RowsOfHour(fine, Key(f.asset, HourOf(f.bucket)), w)
  {
    hide FloorFive, HourOf;
    var k := Key(f.asset, HourOf(f.bucket));
    HourOfHour(f.bucket);
    FloorFiveIsFloor(f.bucket);
    HourIsInterval(f.bucket, k.bucket);
    RowsBetweenMembers(fine, k.asset, w, k.bucket, k.bucket + HOUR);
    assert k in HourKeys(fine);
  }

  // ---------- every reachable store ----------

  lemma IngestSound(rows: map<Key, Row>, raw: seq<Sample>, x: Sample, g: Grain)
    requires SoundTable(rows, raw, g)
    ensures SoundTable(rows, raw + [x], g)
  {
    forall k | k in rows ensures Sound(rows[k], Bucket(raw + [x], k, g)) {
      SelectAppend(raw, x, k, g, Always);
      BoundedWidens(rows[k], Bucket(raw, k, g), Bucket(raw + [x], k, g));
    }
  }

  lemma MergeSound(a: map<Key, Row>, b: map<Key, Row>, raw: seq<Sample>, g: Grain)
    requires SoundTable(a, raw, g) && SoundTable(b, raw, g)
    ensures SoundTable(a + b, raw, g)
  {
  }

  lemma IngestKeeps(s: Store, x: Sample)
    requires SoundStore(s)
    ensures SoundStore(Step(s, Ingest(x)))
  {
    IngestSound(s.fine, s.raw, x, Five);
    IngestSound(s.hourly, s.raw, x, Hourly);
  }

  lemma GoFiveKeeps(s: Store)
    requires SoundStore(s)
    ensures SoundStore(GoFive(s))
  {
    hide SoundTable, Groups, HourGroups, Watermark, FloorFive, HourOf;
    var w := After(Watermark(s.fine.Keys, s.now - HOUR));
    GroupsSound(s.raw, w);
    MergeSound(Groups(s.raw, w), s.fine, s.raw, Five);
  }

  lemma WebFiveKeeps(s: Store)
    requires SoundStore(s)
    ensures SoundStore(WebFive(s))
  {
    hide SoundTable, Groups, HourGroups, Watermark, FloorFive, HourOf;
    GroupsSound(s.raw, WebWindow(s.now));
    MergeSound(s.fine, Groups(s.raw, WebWindow(s.now)), s.raw, Five);
  }

  lemma GoHourlyKeeps(s: Store)
    requires SoundStore(s)
    ensures SoundStore(GoHourly(s))
  {
    hide SoundTable, Groups, HourGroups, Watermark, FloorFive, HourOf;
    var w := After(Watermark(s.hourly.Keys, s.now - DAY));
    HourGroupsSound(s.fine, s.raw, w);
    MergeSound(HourGroups(s.fine, w), s.hourly, s.raw, Hourly);
  }

  lemma WebHourlyKeeps(s: Store)
    requires SoundStore(s)
    ensures SoundStore(WebHourly(s))
  {
    hide SoundTable, Groups, HourGroups, Watermark, FloorFive, HourOf;
    var w := WebHourWindow(s.now);
    HourGroupsSound(s.fine, s.raw, w);
    MergeSound(s.hourly, HourGroups(s.fine, w), s.raw, Hourly);
  }

  lemma StepSound(s: Store, e: Event)
    requires SoundStore(s)
    ensures SoundStore(Step(s, e))
  {
    match e
    case Tick(_) =>
    case Ingest(x) => IngestKeeps(s, x);
    case RunGoFive => GoFiveKeeps(s);
    case RunGoHourly => GoHourlyKeeps(s);
    case RunWebFive => WebFiveKeeps(s);
    case RunWebHourly => WebHourlyKeeps(s);
  }

  /** Soundness of both tables is an invariant of every history. */
  lemma {:induction false} RunSound(s: Store, es: seq<Event>)
    requires SoundStore(s)
    ensures SoundStore(Run(s, es))
    decreases |es|
  {
    if es != [] {
      StepSound(s, es[0]);
      RunSound(Step(s, es[0]), es[1..]);
    }
  }

  /** Starting from empty tables, every reachable row is sound. */
  lemma ReachableSound(now: int, es: seq<Event>, k: Key)
    ensures var s := Run(Store(now, [], map[], map[]), es);
            && (k in s.fine ==> Sound(s.fine[k], Bucket(s.raw, k, Five)))
            && (k in s.hourly ==> Sound(s.hourly[k], Bucket(s.raw, k, Hourly)))
  {
    RunSound(Store(now, [], map[], map[]), es);
  }

  // ---------- no raw sample counts in two rows ----------

  /** The sum of sample_count over a table. */
  ghost function Total(rows: map<Key, Row>): nat
    decreases |rows|
  {
    if rows == map[] then 0
    else
      var k :| k in rows;
      rows[k].count + Total(rows - {k})
  }

  lemma TotalRemove(rows: map<Key, Row>, k: Key)
    requires k in rows
    ensures Total(rows) == rows[k].count + Total(rows - {k})
    decreases |rows|
  {
    var j :| j in rows && Total(rows) == rows[j].count + Total(rows - {j});
    if j != k {
      TotalRemove(rows - {j}, k);
      TotalRemove(rows - {k}, j);
      assert rows - {j} - {k} == rows - {k} - {j};
    }
  }

  /** The number of raw samples whose bucket is among the given keys. */
  function Covered(raw: seq<Sample>, g: Grain, keys: set<Key>): nat {
    if raw == [] then 0
    else Covered(raw[..|raw| - 1], g, keys) + if KeyOf(raw[|raw| - 1], g) in keys then 1 else 0
  }

  lemma {:induction false} CoveredRemove(raw: seq<Sample>, g: Grain, keys: set<Key>, k: Key)
    requires k in keys
    ensures Covered(raw, g, keys) == |Bucket(raw, k, g)| + Covered(raw, g, keys - {k})
  {
    if raw != [] { CoveredRemove(raw[..|raw| - 1], g, keys, k); }
  }

  lemma {:induction false} CoveredAtMostAll(raw: seq<Sample>, g: Grain, keys: set<Key>)
    ensures Covered(raw, g, keys) <= |raw|
  {
    if raw != [] { CoveredAtMostAll(raw[..|raw| - 1], g, keys); }
  }

  lemma {:induction false} TotalBound(rows: map<Key, Row>, raw: seq<Sample>, g: Grain)
    requires forall k :: k in rows ==> rows[k].count <= |Bucket(raw, k, g)|
    ensures Total(rows) <= Covered(raw, g, rows.Keys)
    decreases |rows|
  {
    if rows != map[] {
      var k :| k in rows;
      TotalRemove(rows, k);
      TotalBound(rows - {k}, raw, g);
      CoveredRemove(raw, g, rows.Keys, k);
      assert (rows - {k}).Keys == rows.Keys - {k};
    }
  }

  lemma {:induction false} CoveredNone(raw: seq<Sample>, g: Grain)
    ensures Covered(raw, g, {}) == 0
  {
    if raw != [] { CoveredNone(raw[..|raw| - 1], g); }
  }

  lemma {:induction false} TotalExact(rows: map<Key, Row>, raw: seq<Sample>, g: Grain)
    requires forall k :: k in rows ==> rows[k].count == |Bucket(raw, k, g)|
    ensures Total(rows) == Covered(raw, g, rows.Keys)
    decreases |rows|
  {
    if rows == map[] {
      CoveredNone(raw, g);
    } else {
      var k :| k in rows;
      TotalRemove(rows, k);
      TotalExact(rows - {k}, raw, g);
      CoveredRemove(raw, g, rows.Keys, k);
      assert (rows - {k}).Keys == rows.Keys - {k};
    }
  }

  /** In every reachable store the counts of either table sum to at most the number of samples. */
  lemma CountsNeverExceedSamples(now: int, es: seq<Event>)
    ensures var s := Run(Store(now, [], map[], map[]), es);
            Total(s.fine) <= |s.raw| && Total(s.hourly) <= |s.raw|
  {
    var s := Run(Store(now, [], map[], map[]), es);
    RunSound(Store(now, [], map[], map[]), es);
    TotalBound(s.fine, s.raw, Five);
    CoveredAtMostAll(s.raw, Five, s.fine.Keys);
    TotalBound(s.hourly, s.raw, Hourly);
    CoveredAtMostAll(s.raw, Hourly, s.hourly.Keys);
  }
}
