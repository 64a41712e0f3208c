/** Which samples and which 5-minute rows each statement reads, in microseconds of the clock: the strict
    and inclusive bounds of both web windows, and the Go watermarks with their fallbacks. */
module RollupWindows {
  import opened Rollup
  import opened RollupSoundness
  import opened RollupHours

  function Filter(xs: seq<Sample>, p: Sample -> bool): seq<Sample> {
    if xs == [] then []
    else Filter(xs[..|xs| - 1], p) + if p(xs[|xs| - 1]) then [xs[|xs| - 1]] else []
  }

  /** The first n 5-minute rows of an asset from a time on, without those whose bucket is not read. */
  function SlotRows(fine: map<Key, Row>, asset: int, from: int, n: nat, sees: int -> bool): seq<Row> {
    if n == 0 then []
    else
      var slot := Key(asset, from + 300_000_000 * (n - 1));
      SlotRows(fine, asset, from, n - 1, sees) + if slot in fine && sees(slot.bucket) then [fine[slot]] else []
  }

  ghost predicate SameRow(a: map<Key, Row>, b: map<Key, Row>, k: Key) {
    (k in a <==> k in b) && (k in a ==> a[k] == b[k])
  }

  /** max(bucket) */
  ghost predicate NewestBucket(rows: map<Key, Row>, m: int) {
    (exists k :: k in rows && k.bucket == m) && forall k :: k in rows ==> k.bucket <= m
  }

  lemma {:induction false} SelectIsFilter(raw: seq<Sample>, k: Key, w: Window, p: Sample -> bool)
    requires forall x :: p(x) <==> KeyOf(x, Five) == k && w.Contains(x.at)
    ensures Select(raw, k, Five, w) == Filter(raw, p)
  {
    hide KeyOf;
    if raw != [] { SelectIsFilter(raw[..|raw| - 1], k, w, p); }
  }

  lemma {:induction false} RowsAreSlots(fine: map<Key, Row>, asset: int, w: Window, from: int, n: nat, sees: int -> bool)
    requires forall t :: sees(t) <==> w.Contains(t)
    ensures RowsBetween(fine, asset, w, from, from + 300_000_000 * n) == SlotRows(fine, asset, from, n, sees)
  {
    if n > 0 {
      RowsAreSlots(fine, asset, w, from, n - 1, sees);
      assert from + 300_000_000 * n - FIVE_MIN == from + 300_000_000 * (n - 1);
    }
  }

  lemma InSlot(x: Sample, k: Key)
    requires k.bucket % 300_000_000 == 0
    ensures KeyOf(x, Five) == k <==> x.asset == k.asset && k.bucket <= x.at < k.bucket + 300_000_000
  {
    hide FloorFive;
    FloorFiveUnique(x.at, k.bucket);
  }

  lemma FiveFloor(t: int)
    ensures FloorFive(t) == t - t % 300_000_000
  {
    hide FloorFive;
    FloorFiveIsFloor(t);
    MultiplesApart(FloorFive(t), t - t % 300_000_000);
  }

  // ---------- the 5-minute statements ----------

  /** The web run aggregates the samples of a bucket that are less than ten minutes old and not past the
      start of the bucket in progress, and leaves a bucket without any alone. */
  lemma WebFiveReads(s: Store, k: Key)
    requires k.bucket % 300_000_000 == 0
    ensures var t := Step(s, RunWebFive);
            var read := Filter(s.raw, (x: Sample) =>
              && x.asset == k.asset && k.bucket <= x.at < k.bucket + 300_000_000
              && s.now - 600_000_000 < x.at <= s.now - s.now % 300_000_000);
            if read == [] then SameRow(s.fine, t.fine, k)
            else k in t.fine && t.fine[k] == Aggregate(read)
  {
    hide FloorFive, KeyOf, Select, Filter, Aggregate;
    var p := (x: Sample) =>
      && x.asset == k.asset && k.bucket <= x.at < k.bucket + 300_000_000
      && s.now - 600_000_000 < x.at <= s.now - s.now % 300_000_000;
    FiveFloor(s.now);
    forall x: Sample ensures p(x) <==> KeyOf(x, Five) == k && WebWindow(s.now).Contains(x.at) { InSlot(x, k); }
    SelectIsFilter(s.raw, k, WebWindow(s.now), p);
    GroupsMembers(s.raw, WebWindow(s.now), k);
  }

  /** The Go run adds a row for a bucket that has none, of its samples later than the newest bucket, or
      than an hour ago where the table is empty. */
  lemma GoFiveReads(s: Store, k: Key, m: int)
    requires k.bucket % 300_000_000 == 0
    requires if s.fine == map[] then m == s.now - 3_600_000_000 else NewestBucket(s.fine, m)
    ensures var t := Step(s, RunGoFive);
            var read := Filter(s.raw, (x: Sample) =>
              x.asset == k.asset && k.bucket <= x.at < k.bucket + 300_000_000 && m < x.at);
            if k in s.fine || read == [] then SameRow(s.fine, t.fine, k)
            else k in t.fine && t.fine[k] == Aggregate(read)
  {
    hide FloorFive, KeyOf, Select, Filter, Aggregate;
    var p := (x: Sample) => x.asset == k.asset && k.bucket <= x.at < k.bucket + 300_000_000 && m < x.at;
    OnlyWatermark(s.fine, s.now - HOUR, m);
    forall x: Sample ensures p(x) <==> KeyOf(x, Five) == k && After(m).Contains(x.at) { InSlot(x, k); }
    SelectIsFilter(s.raw, k, After(m), p);
    GroupsMembers(s.raw, After(m), k);
  }

  lemma OnlyWatermark(rows: map<Key, Row>, fallback: int, m: int)
    requires if rows == map[] then m == fallback else NewestBucket(rows, m)
    ensures Watermark(rows.Keys, fallback) == m
  {
    if rows != map[] {
      var k :| k in rows && k.bucket == m;
      assert IsWatermark(rows.Keys, Watermark(rows.Keys, fallback)) && k in rows.Keys;
    }
  }

  // ---------- the hourly statements ----------

  lemma TwelveSlots(fine: map<Key, Row>, k: Key, w: Window, sees: int -> bool)
    requires k.bucket % 3_600_000_000 == 0 && forall t :: sees(t) <==> w.Contains(t)
    ensures var read := SlotRows(fine, k.asset, k.bucket, 12, sees);
            && (k in HourGroups(fine, w) <==> read != [])
            && (read != [] ==> HourGroups(fine, w)[k] == Combine(read))
  {
    hide HourGroups, SlotRows, RowsBetween, Combine;
    RowsAreSlots(fine, k.asset, w, k.bucket, 12, sees);
    HourGroupsExactly(fine, w, k);
  }

  /** The web run combines the rows of an hour whose bucket is less than two hours old and not past the
      start of the hour in progress, and leaves an hour without any alone. */
  lemma WebHourReads(s: Store, k: Key)
    requires k.bucket % 3_600_000_000 == 0
    ensures var t := Step(s, RunWebHourly);
            var read := SlotRows(s.fine, k.asset, k.bucket, 12, b =>
              s.now - 7_200_000_000 < b <= s.now - s.now % 3_600_000_000);
            if read == [] then SameRow(s.hourly, t.hourly, k)
            else k in t.hourly && t.hourly[k] == Combine(read)
  {
    hide HourGroups, SlotRows, Combine;
    TwelveSlots(s.fine, k, WebHourWindow(s.now), b => s.now - 7_200_000_000 < b <= s.now - s.now % 3_600_000_000);
  }

  /** The hour in progress is written from its first row alone. */
  lemma WebHourInProgress(s: Store, k: Key)
    requires k.bucket == s.now - s.now % 3_600_000_000
    ensures var t := Step(s, RunWebHourly);
            if k in s.fine then k in t.hourly && t.hourly[k] == s.fine[k] else SameRow(s.hourly, t.hourly, k)
  {
    hide HourGroups, Combine;
    var sees := (b: int) => s.now - 7_200_000_000 < b <= s.now - s.now % 3_600_000_000;
    WebHourReads(s, k);
    FirstSlotOnly(s.fine, k, 12, sees);
    if k in s.fine { CombineOne(s.fine[k]); }
  }

  lemma {:induction false} FirstSlotOnly(fine: map<Key, Row>, k: Key, n: nat, sees: int -> bool)
    requires n > 0 && forall b :: b >= k.bucket ==> (sees(b) <==> b == k.bucket)
    ensures SlotRows(fine, k.asset, k.bucket, n, sees) == if k in fine then [fine[k]] else []
  {
    if n > 1 {
      FirstSlotOnly(fine, k, n - 1, sees);
    } else {
      assert SlotRows(fine, k.asset, k.bucket, 0, sees) == [];
    }
  }

  lemma CombineOne(row: Row)
    ensures Combine([row]) == row
  {
    assert [row][..0] == [] && SumAvg([]) == 0.0 && SumCount([]) == 0;
    assert SumAvg([row]) == SumAvg([row][..0]) + row.avg && SumCount([row]) == SumCount([row][..0]) + row.count;
  }

  /** The Go run adds a row for an hour that has none, of its rows later than the newest hour, or than a
      day ago where the table is empty. */
  lemma GoHourReads(s: Store, k: Key, m: int)
    requires k.bucket % 3_600_000_000 == 0
    requires if s.hourly == map[] then m == s.now - 86_400_000_000 else NewestBucket(s.hourly, m)
    ensures var t := Step(s, RunGoHourly);
            var read := SlotRows(s.fine, k.asset, k.bucket, 12, b => m < b);
            if k in s.hourly || read == [] then SameRow(s.hourly, t.hourly, k)
            else k in t.hourly && t.hourly[k] == Combine(read)
  {
    hide HourGroups, SlotRows, Combine;
    OnlyWatermark(s.hourly, s.now - DAY, m);
    TwelveSlots(s.fine, k, After(m), b => m < b);
  }
}
