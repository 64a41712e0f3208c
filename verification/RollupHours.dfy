/** The hourly table: what each engine's statement writes to it, and when an hourly row equals the
    aggregate of the raw samples of its hour. */
module RollupHours {
  import opened Rollup
  import opened RollupSoundness
  import opened RollupExactness
  import opened RollupMeans

  /** The hourly row is what all raw samples of the hour aggregate to. */
  ghost predicate HourComplete(s: Store, k: Key) {
    var xs := Bucket(s.raw, k, Hourly);
    if xs == [] then k !in s.hourly else k in s.hourly && s.hourly[k] == Aggregate(xs)
  }

  /** The hourly query has a row exactly for the hours with a 5-minute row in the window. */
  lemma HourGroupsExactly(fine: map<Key, Row>, w: Window, k: Key)
    requires HourOf(k.bucket) == k.bucket
    ensures k in HourGroups(fine, w) <==> RowsOfHour(fine, k, w) != []
    ensures k in HourGroups(fine, w) ==> HourGroups(fine, w)[k] == Combine(RowsOfHour(fine, k, w))
  {
    hide HourOf;
    HourGroupsMembers(fine, w, k);
    var rows := RowsOfHour(fine, k, w);
    if rows != [] {
      HourIsInterval(k.bucket, k.bucket);
      RowsBetweenMembers(fine, k.asset, w, k.bucket, k.bucket + HOUR);
      assert rows[0] in rows;
      var f :| f in fine && f.asset == k.asset && k.bucket <= f.bucket < k.bucket + HOUR && fine[f] == rows[0];
      HourIsInterval(f.bucket, k.bucket);
      assert Key(f.asset, HourOf(f.bucket)) in HourKeys(fine);
    }
  }

  /** The hour is over for the window: it has samples, and all its rows are complete and in the window. */
  ghost predicate Ready(s: Store, k: Key, w: Window) {
    && HourOf(k.bucket) == k.bucket && Bucket(s.raw, k, Hourly) != []
    && AllSeen(s, k.asset, w, k.bucket, k.bucket + HOUR)
  }

  /** A row's count and maximum are those of these samples. */
  ghost predicate CountsAll(row: Row, xs: seq<Sample>)
    requires xs != []
  {
    row.count == |xs| && row.peak == Peak(xs)
  }

  /** The web statement writes a ready hour with exact count and maximum, and the whole row is exact
      exactly when counts and averages are uncorrelated over its 5-minute rows. */
  lemma WebHourExactly(s: Store, k: Key)
    requires Ready(s, k, WebHourWindow(s.now))
    ensures var t, xs := Step(s, RunWebHourly), Bucket(s.raw, k, Hourly);
            && k in t.hourly && CountsAll(t.hourly[k], xs)
            && (HourComplete(t, k) <==> Uncorrelated(RowsOfHour(s.fine, k, WebHourWindow(s.now))))
  {
    hide HourOf, AllSeen, Bucket, RowsOfHour, Uncorrelated, HourGroups, Combine, Weighted, Sum;
    var w := WebHourWindow(s.now);
    HourConserved(s, k, w);
    HourExactly(s, k, w);
    HourGroupsExactly(s.fine, w, k);
  }

  // ---------- what the counts tell ----------

  /** A 5-minute row that counts its whole bucket is the full recomputation. */
  ghost predicate CountDecides(s: Store) {
    forall f :: f in s.fine ==> RowDecides(s.fine[f], Bucket(s.raw, f, Five))
  }

  ghost predicate RowDecides(row: Row, xs: seq<Sample>) {
    xs != [] && row.count == |xs| ==> row == Aggregate(xs)
  }

  lemma GroupDecides(raw: seq<Sample>, w: Window, f: Key)
    requires f in Groups(raw, w)
    ensures RowDecides(Groups(raw, w)[f], Bucket(raw, f, Five))
  {
    hide FloorFive, HourOf;
    GroupsMembers(raw, w, f);
    SelectNarrows(raw, f, Five, w);
    var xs := Bucket(raw, f, Five);
    if Groups(raw, w)[f].count == |xs| { SelectAgrees(raw, f, Five, w, Always); }
  }

  lemma IngestDecides(s: Store, x: Sample, f: Key)
    requires SoundStore(s) && CountDecides(s) && f in s.fine
    ensures RowDecides(s.fine[f], Bucket(s.raw + [x], f, Five))
  {
    hide FloorFive, HourOf, Select, Aggregate;
    SelectAppend(s.raw, x, f, Five, Always);
    assert Sound(s.fine[f], Bucket(s.raw, f, Five));
    if KeyOf(x, Five) != f { assert Bucket(s.raw, f, Five) + [] == Bucket(s.raw, f, Five); }
  }

  lemma MergeDecides(s: Store, t: Store, w: Window)
    requires CountDecides(s) && t.raw == s.raw
    requires t.fine == s.fine + Groups(s.raw, w) || t.fine == Groups(s.raw, w) + s.fine
    ensures CountDecides(t)
  {
    hide FloorFive, HourOf, RowDecides, Bucket, Groups;
    forall f | f in t.fine ensures RowDecides(t.fine[f], Bucket(t.raw, f, Five)) {
      FromGroups(s, w, f);
    }
  }

  lemma IngestKeepsDecides(s: Store, x: Sample)
    requires SoundStore(s) && CountDecides(s)
    ensures CountDecides(Step(s, Ingest(x)))
  {
    hide RowDecides, Bucket, SoundStore;
    forall f | f in s.fine ensures RowDecides(s.fine[f], Bucket(s.raw + [x], f, Five)) {
      IngestDecides(s, x, f);
    }
  }

  lemma StepDecides(s: Store, e: Event)
    requires SoundStore(s) && CountDecides(s)
    ensures CountDecides(Step(s, e))
  {
    hide SoundStore, RowDecides, Bucket, Groups, HourGroups, Watermark, FloorFive, HourOf;
    match e
    case Ingest(x) => IngestKeepsDecides(s, x);
    case RunWebFive => MergeDecides(s, WebFive(s), WebWindow(s.now));
    case RunGoFive => MergeDecides(s, GoFive(s), After(Watermark(s.fine.Keys, s.now - HOUR)));
    case _ =>
  }

  lemma FromGroups(s: Store, w: Window, f: Key)
    requires CountDecides(s)
    ensures f in Groups(s.raw, w) ==> RowDecides(Groups(s.raw, w)[f], Bucket(s.raw, f, Five))
    ensures f in s.fine ==> RowDecides(s.fine[f], Bucket(s.raw, f, Five))
  {
    hide FloorFive, HourOf, RowDecides, Bucket, Groups;
    if f in Groups(s.raw, w) { GroupDecides(s.raw, w, f); }
  }

  /** What a window keeps of one bucket counts at most its samples, and all of them exactly when the row
      is complete and in the window. */
  lemma KeptOfBucket(s: Store, f: Key, w: Window)
    requires SoundStore(s) && CountDecides(s)
    ensures var kept, xs := if f in s.fine && w.Contains(f.bucket) then s.fine[f].count else 0, Bucket(s.raw, f, Five);
            kept <= |xs| && (kept == |xs| <==> Complete(s, f) && (f in s.fine ==> w.Contains(f.bucket)))
  {
    hide FloorFive, HourOf, Bucket;
    if f in s.fine { assert Sound(s.fine[f], Bucket(s.raw, f, Five)) && RowDecides(s.fine[f], Bucket(s.raw, f, Five)); }
  }

  lemma LastRowCounts(fine: map<Key, Row>, asset: int, w: Window, lo: int, hi: int)
    requires lo < hi
    ensures var f := Key(asset, hi - FIVE_MIN);
            SumCount(RowsBetween(fine, asset, w, lo, hi)) ==
              SumCount(RowsBetween(fine, asset, w, lo, hi - FIVE_MIN)) + if f in fine && w.Contains(f.bucket) then fine[f].count else 0
  {
    var f, rows := Key(asset, hi - FIVE_MIN), RowsBetween(fine, asset, w, lo, hi - FIVE_MIN);
    if f in fine && w.Contains(f.bucket) {
      assert (rows + [fine[f]])[..|rows|] == rows;
    } else {
      assert rows + [] == rows;
    }
  }

  lemma SeenJoins(s: Store, asset: int, w: Window, lo: int, hi: int)
    requires lo % FIVE_MIN == 0 && hi % FIVE_MIN == 0 && lo < hi
    ensures lo <= hi - FIVE_MIN && (hi - FIVE_MIN) % FIVE_MIN == 0
    ensures var f := Key(asset, hi - FIVE_MIN);
            AllSeen(s, asset, w, lo, hi) <==>
              AllSeen(s, asset, w, lo, hi - FIVE_MIN) && Complete(s, f) && (f in s.fine ==> w.Contains(f.bucket))
  {
    hide Complete, FloorFive;
    SlotBefore(lo, lo, hi);
    forall f: Key | f.asset == asset && f.bucket % FIVE_MIN == 0 && lo <= f.bucket < hi
      ensures f.bucket < hi - FIVE_MIN || f.bucket == hi - FIVE_MIN
    {
      if f.bucket > hi - FIVE_MIN { MultiplesApart(f.bucket, hi - FIVE_MIN); }
    }
  }

  /** What a window keeps of the buckets between lo and hi counts at most their samples, and all of them
      exactly when every row is complete and in the window. */
  lemma {:induction false} KeptCounts(s: Store, asset: int, w: Window, lo: int, hi: int)
    requires SoundStore(s) && CountDecides(s) && lo % FIVE_MIN == 0 && hi % FIVE_MIN == 0
    ensures var kept, n := SumCount(RowsBetween(s.fine, asset, w, lo, hi)), |Slots(s.raw, asset, lo, hi)|;
            kept <= n && (kept == n <==> AllSeen(s, asset, w, lo, hi))
    decreases hi - lo
  {
    if lo < hi {
      hide SoundStore, CountDecides, AllSeen, Complete, RowsBetween, SumCount, Bucket;
      SeenJoins(s, asset, w, lo, hi);
      KeptCounts(s, asset, w, lo, hi - FIVE_MIN);
      KeptOfBucket(s, Key(asset, hi - FIVE_MIN), w);
      LastRowCounts(s.fine, asset, w, lo, hi);
    }
  }

  /** What an hourly statement writes from a window is the aggregate of the hour's samples if and only if
      it cuts off none of the hour's rows, these are complete, and counts and averages are uncorrelated
      over them. */
  lemma WrittenExactly(s: Store, k: Key, w: Window)
    requires SoundStore(s) && CountDecides(s) && HourOf(k.bucket) == k.bucket && RowsOfHour(s.fine, k, w) != []
    ensures Bucket(s.raw, k, Hourly) != []
    ensures Combine(RowsOfHour(s.fine, k, w)) == Aggregate(Bucket(s.raw, k, Hourly)) <==>
            AllSeen(s, k.asset, w, k.bucket, k.bucket + HOUR) && Uncorrelated(RowsOfHour(s.fine, k, w))
  {
    var rows := RowsOfHour(s.fine, k, w);
    RowsOfHourBounded(s.fine, s.raw, k, w);
    SumCountPositive(rows);
    hide HourOf, FloorFive, CountDecides, SoundStore, AllSeen, Bucket, Uncorrelated, SumCount, RowsBetween, Slots;
    HourIsInterval(k.bucket, k.bucket);
    KeptCounts(s, k.asset, w, k.bucket, k.bucket + HOUR);
    SlotsCoverHour(s.raw, k);
    if AllSeen(s, k.asset, w, k.bucket, k.bucket + HOUR) { HourExactly(s, k, w); }
  }

  // ---------- every history ----------

  function WebHours(s: Store): Window {
    WebHourWindow(s.now)
  }

  ghost function GoHours(s: Store): Window {
    After(Watermark(s.hourly.Keys, s.now - DAY))
  }

  /** All rows of the hour are complete and in the window, with counts and averages uncorrelated. */
  ghost predicate Faithful(s: Store, k: Key, w: Window) {
    AllSeen(s, k.asset, w, k.bucket, k.bucket + HOUR) && Uncorrelated(RowsOfHour(s.fine, k, w))
  }

  /** A web run leaves an hour none of whose rows are in the window alone, and the row it writes for any
      other is exact if and only if the window cuts off none of the hour's rows, these are complete, and
      counts and averages are uncorrelated over them. */
  lemma WebHourAfter(s: Store, k: Key)
    requires SoundStore(s) && CountDecides(s) && HourOf(k.bucket) == k.bucket
    ensures HourComplete(Step(s, RunWebHourly), k) <==>
              if RowsOfHour(s.fine, k, WebHours(s)) == [] then HourComplete(s, k) else Faithful(s, k, WebHours(s))
  {
    hide HourOf, FloorFive, CountDecides, SoundStore, AllSeen, Bucket, Uncorrelated, HourGroups, RowsOfHour, Combine;
    HourGroupsExactly(s.fine, WebHours(s), k);
    if RowsOfHour(s.fine, k, WebHours(s)) != [] { WrittenExactly(s, k, WebHours(s)); }
  }

  /** A Go run leaves an hour that has a row alone, and otherwise does so past its watermark. */
  lemma GoHourAfter(s: Store, k: Key)
    requires SoundStore(s) && CountDecides(s) && HourOf(k.bucket) == k.bucket
    ensures HourComplete(Step(s, RunGoHourly), k) <==>
              if k in s.hourly || RowsOfHour(s.fine, k, GoHours(s)) == [] then HourComplete(s, k) else Faithful(s, k, GoHours(s))
  {
    hide HourOf, FloorFive, CountDecides, SoundStore, AllSeen, Bucket, Uncorrelated, HourGroups, RowsOfHour, Combine, Watermark;
    HourGroupsExactly(s.fine, GoHours(s), k);
    if RowsOfHour(s.fine, k, GoHours(s)) != [] { WrittenExactly(s, k, GoHours(s)); }
  }

  /** The Go statement writes an hour with samples that has no row yet exactly right if and only if some
      rows of it are past the watermark, none are cut off, all are complete, and counts and averages are
      uncorrelated; and a complete hour that is not cut off gets exact count and maximum. */
  lemma GoHourExactly(s: Store, k: Key)
    requires SoundStore(s) && CountDecides(s) && HourOf(k.bucket) == k.bucket
    requires k !in s.hourly && Bucket(s.raw, k, Hourly) != []
    ensures var t := Step(s, RunGoHourly);
            && (HourComplete(t, k) <==> RowsOfHour(s.fine, k, GoHours(s)) != [] && Faithful(s, k, GoHours(s)))
            && (Ready(s, k, GoHours(s)) ==> k in t.hourly && CountsAll(t.hourly[k], Bucket(s.raw, k, Hourly)))
  {
    hide HourOf, FloorFive, CountDecides, SoundStore, AllSeen, Bucket, Uncorrelated, HourGroups, RowsOfHour, Combine, Watermark, Weighted, Sum;
    GoHourAfter(s, k);
    HourGroupsExactly(s.fine, GoHours(s), k);
    if Ready(s, k, GoHours(s)) { HourConserved(s, k, GoHours(s)); }
  }

  /** Whether an hourly row is complete after a step, by whether it was before. */
  ghost predicate HourAfterStep(s: Store, e: Event, k: Key, complete: bool) {
    match e
    case RunWebHourly =>
      if RowsOfHour(s.fine, k, WebHours(s)) == [] then complete else Faithful(s, k, WebHours(s))
    case RunGoHourly =>
      if k in s.hourly || RowsOfHour(s.fine, k, GoHours(s)) == [] then complete else Faithful(s, k, GoHours(s))
    case Ingest(x) => complete && KeyOf(x, Hourly) != k
    case _ => complete
  }

  ghost predicate HourAfterAll(s: Store, es: seq<Event>, k: Key, complete: bool)
    decreases |es|
  {
    if es == [] then complete else HourAfterAll(Step(s, es[0]), es[1..], k, HourAfterStep(s, es[0], k, complete))
  }

  lemma HourIngestExact(s: Store, x: Sample, k: Key)
    requires SoundStore(s)
    ensures HourComplete(Step(s, Ingest(x)), k) <==> HourComplete(s, k) && KeyOf(x, Hourly) != k
  {
    hide HourOf, Select, Sum, Peak;
    SelectAppend(s.raw, x, k, Hourly, Always);
    if k in s.hourly { assert Sound(s.hourly[k], Bucket(s.raw, k, Hourly)); }
    if KeyOf(x, Hourly) != k { assert Bucket(s.raw + [x], k, Hourly) == Bucket(s.raw, k, Hourly); }
  }

  lemma HourOtherExact(s: Store, e: Event, k: Key)
    requires e.Tick? || e.RunGoFive? || e.RunWebFive?
    ensures HourComplete(Step(s, e), k) <==> HourComplete(s, k)
  {
    hide HourOf, Groups, Bucket, Aggregate, Watermark;
  }

  lemma HourStepExact(s: Store, e: Event, k: Key)
    requires SoundStore(s) && CountDecides(s) && HourOf(k.bucket) == k.bucket
    ensures HourComplete(Step(s, e), k) <==> HourAfterStep(s, e, k, HourComplete(s, k))
  {
    hide HourOf, SoundStore, CountDecides, HourComplete, Step, RowsOfHour, Faithful;
    match e
    case RunWebHourly => WebHourAfter(s, k);
    case RunGoHourly => GoHourAfter(s, k);
    case Ingest(x) => HourIngestExact(s, x, k);
    case _ => HourOtherExact(s, e, k);
  }

  lemma {:induction false} RunDecides(s: Store, es: seq<Event>)
    requires SoundStore(s) && CountDecides(s)
    ensures SoundStore(Run(s, es)) && CountDecides(Run(s, es))
    decreases |es|
  {
    hide SoundStore, CountDecides, Step;
    if es != [] {
      StepSound(s, es[0]);
      StepDecides(s, es[0]);
      RunDecides(Step(s, es[0]), es[1..]);
    }
  }

  lemma {:induction false} HoursExactly(s: Store, es: seq<Event>, k: Key)
    requires SoundStore(s) && CountDecides(s) && HourOf(k.bucket) == k.bucket
    ensures HourComplete(Run(s, es), k) <==> HourAfterAll(s, es, k, HourComplete(s, k))
    decreases |es|
  {
    hide HourOf, SoundStore, CountDecides, HourComplete, Step, HourAfterStep;
    if es != [] {
      HourStepExact(s, es[0], k);
      StepSound(s, es[0]);
      StepDecides(s, es[0]);
      HoursExactly(Step(s, es[0]), es[1..], k);
    }
  }

  /** Both engines together, exactly: over any history from empty tables an hourly row is the aggregate of
      its raw samples at the end if and only if the last run that wrote it was faithful to the hour and
      no sample of the hour came after. */
  lemma EveryHourExactly(now: int, es: seq<Event>, k: Key)
    requires HourOf(k.bucket) == k.bucket
    ensures var s := Store(now, [], map[], map[]);
            HourComplete(Run(s, es), k) <==> HourAfterAll(s, es, k, true)
  {
    hide HourOf;
    HoursExactly(Store(now, [], map[], map[]), es, k);
  }

  // ---------- the Go engine over whole runs ----------

  lemma GoStepExtendsHours(s: Store, e: Event)
    requires !e.RunWebHourly?
    ensures Extends(s.hourly, Step(s, e).hourly)
  {
    hide Groups, HourGroups;
  }

  /** Where only the Go engine writes hourly rows, they never change and max(bucket) never decreases. */
  lemma {:induction false} GoHoursFrozen(s: Store, es: seq<Event>)
    requires forall e :: e in es ==> !e.RunWebHourly?
    ensures Extends(s.hourly, Run(s, es).hourly)
    ensures s.hourly != map[] ==>
            Run(s, es).hourly != map[] && Watermark(s.hourly.Keys, 0) <= Watermark(Run(s, es).hourly.Keys, 0)
    decreases |es|
  {
    hide Step;
    if es != [] {
      GoStepExtendsHours(s, es[0]);
      GoHoursFrozen(Step(s, es[0]), es[1..]);
    }
    if s.hourly != map[] {
      var k :| k in s.hourly.Keys && k.bucket == Watermark(s.hourly.Keys, 0);
      assert k in Run(s, es).hourly.Keys;
    }
  }

  /** A Go hourly row equals the aggregate of its raw samples at a later time if and only if it did when
      it was written and no sample of its hour has arrived since. */
  lemma GoHourRowExact(s: Store, es: seq<Event>, k: Key)
    requires SoundStore(s) && k in s.hourly && forall e :: e in es ==> !e.RunWebHourly?
    ensures HourComplete(Run(s, es), k) <==> HourComplete(s, k) && Quiet(es, k, Hourly)
  {
    hide FloorFive, HourOf, Bucket;
    GoHoursFrozen(s, es);
    BucketGrows(s, es, k, Hourly);
    assert Sound(s.hourly[k], Bucket(s.raw, k, Hourly));
  }
}
