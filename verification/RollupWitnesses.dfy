/** Short runs from the empty tables in which each engine leaves a row that is not the full
    recomputation. */
module RollupWitnesses {
  import opened Rollup
  import opened RollupSoundness
  import opened RollupExactness
  import opened RollupMeans
  import opened RollupHours

  const EMPTY := Store(0, [], map[], map[])
  const SLOT := Key(1, 0)

  lemma RunOne(s: Store, e: Event)
    ensures Run(s, [e]) == Step(s, e)
  {
    hide Step;
    assert [e][1..] == [];
    assert Run(Step(s, e), []) == Step(s, e);
  }

  lemma RunTwo(s: Store, e: Event, f: Event)
    ensures Run(s, [e, f]) == Step(Step(s, e), f)
  {
    hide Step;
    assert [e, f][1..] == [f];
    RunOne(Step(s, e), f);
  }

  lemma RunThree(s: Store, e: Event, f: Event, g: Event)
    ensures Run(s, [e, f, g]) == Step(Step(Step(s, e), f), g)
  {
    hide Step;
    assert [e, f, g][1..] == [f, g];
    RunTwo(Step(s, e), f, g);
  }

  lemma RunFour(s: Store, e: Event, f: Event, g: Event, h: Event)
    ensures Run(s, [e, f, g, h]) == Step(Step(Step(Step(s, e), f), g), h)
  {
    hide Step;
    assert [e, f, g, h][1..] == [f, g, h];
    RunThree(Step(s, e), f, g, h);
  }

  lemma RunFive(s: Store, e: Event, f: Event, g: Event, h: Event, i: Event)
    ensures Run(s, [e, f, g, h, i]) == Step(Step(Step(Step(Step(s, e), f), g), h), i)
  {
    hide Step;
    assert [e, f, g, h, i][1..] == [f, g, h, i];
    RunFour(Step(s, e), f, g, h, i);
  }

  lemma TickKeepsComplete(s: Store, dt: nat, k: Key)
    ensures Complete(Step(s, Tick(dt)), k) == Complete(s, k)
    ensures Step(s, Tick(dt)) == Store(s.now + dt, s.raw, s.fine, s.hourly)
  {
  }

  lemma WebFiveKeepsRaw(s: Store)
    ensures WebFive(s).raw == s.raw && WebFive(s).now == s.now
  {
    hide Groups;
  }

  /** Two samples of the bucket at 0. */
  lemma SlotSelect(x: Sample, y: Sample, w: Window)
    requires x.asset == y.asset == 1 && 0 <= x.at < FIVE_MIN && 0 <= y.at < FIVE_MIN
    ensures Select([x, y], SLOT, Five, w) == (if w.Contains(x.at) then [x] else []) + if w.Contains(y.at) then [y] else []
    ensures IsBucket(SLOT) && InBucket(x, SLOT) && InBucket(y, SLOT)
  {
    hide FloorFive, Select;
    FloorFiveUnique(0, 0);
    FloorFiveUnique(x.at, 0);
    FloorFiveUnique(y.at, 0);
    SelectNone(SLOT, Five, w);
    SelectAppend([], x, SLOT, Five, w);
    SelectAppend([x], y, SLOT, Five, w);
    assert [] + [x] == [x] && [x] + [y] == [x, y];
  }

  // ---------- 5-minute rows of the web engine ----------

  const EDGE := Sample(1, 0, 1.0)
  const INNER := Sample(1, SECOND, 2.0)
  const CLOSED := Store(FIVE_MIN, [EDGE, INNER], map[], map[])

  /** The web engine visits the bucket on time and has it complete, with both samples; five minutes later
      it visits it again, and the sample on the boundary is gone. */
  lemma WebDropsBoundarySample()
    ensures var once := Run(EMPTY, [Ingest(EDGE), Ingest(INNER), Tick(FIVE_MIN), RunWebFive]);
            var again := Run(once, [Tick(FIVE_MIN), RunWebFive]);
            && Complete(once, SLOT) && SLOT in once.fine && once.fine[SLOT].count == 2
            && !Complete(again, SLOT) && SLOT in again.fine && again.fine[SLOT].count == 1
  {
    hide Complete, WebFive, Run, Select;
    WebReaches(FIVE_MIN);
    FirstVisit(CLOSED);
    DropAgain(WebFive(CLOSED));
  }

  lemma DropAgain(s: Store)
    requires s == WebFive(CLOSED) && Complete(s, SLOT)
    ensures var again := Run(s, [Tick(FIVE_MIN), RunWebFive]);
            !Complete(again, SLOT) && SLOT in again.fine && again.fine[SLOT].count == 1
  {
    hide Complete, WebFive, Run, Select;
    WebFiveKeepsRaw(CLOSED);
    RunTwo(s, Tick(FIVE_MIN), RunWebFive);
    TickKeepsComplete(s, FIVE_MIN, SLOT);
    SecondVisit(Step(s, Tick(FIVE_MIN)));
  }

  lemma WebReaches(dt: nat)
    ensures Run(EMPTY, [Ingest(EDGE), Ingest(INNER), Tick(dt), RunWebFive]) == WebFive(Store(dt, [EDGE, INNER], map[], map[]))
  {
    hide Run, WebFive;
    RunFour(EMPTY, Ingest(EDGE), Ingest(INNER), Tick(dt), RunWebFive);
    assert [] + [EDGE] == [EDGE] && [EDGE] + [INNER] == [EDGE, INNER];
  }

  lemma FirstVisit(s: Store)
    requires s == CLOSED
    ensures Complete(WebFive(s), SLOT) && SLOT in WebFive(s).fine && WebFive(s).fine[SLOT].count == 2
  {
    hide FloorFive, Select, Groups;
    SlotSelect(EDGE, INNER, Always);
    FirstVisitCompletes(s, SLOT);
  }

  lemma SecondVisit(s: Store)
    requires s.now == 2 * FIVE_MIN && s.raw == [EDGE, INNER] && Complete(s, SLOT)
    ensures !Complete(WebFive(s), SLOT) && SLOT in WebFive(s).fine && WebFive(s).fine[SLOT].count == 1
  {
    hide FloorFive, Select, Groups, Complete;
    SlotSelect(EDGE, INNER, WebWindow(s.now));
    assert EDGE in s.raw && INNER in s.raw;
    assert Splits(s, SLOT);
    RevisitKeepsComplete(s, SLOT);
    FloorFiveUnique(2 * FIVE_MIN, 2 * FIVE_MIN);
    GroupsMembers(s.raw, WebWindow(s.now), SLOT);
  }

  /** The upper bound is inclusive, so the web engine writes a row for the bucket in progress, of its
      boundary samples alone. */
  lemma WebWritesOpenBucket()
    ensures var s := Run(EMPTY, [Ingest(EDGE), Ingest(INNER), Tick(120 * SECOND), RunWebFive]);
            SLOT in s.fine && s.fine[SLOT].count == 1 && |Bucket(s.raw, SLOT, Five)| == 2 && !Complete(s, SLOT)
  {
    hide FloorFive, Select, Groups, Run;
    WebReaches(120 * SECOND);
    var s := Store(120 * SECOND, [EDGE, INNER], map[], map[]);
    FloorFiveUnique(120 * SECOND, 0);
    SlotSelect(EDGE, INNER, WebWindow(s.now));
    SlotSelect(EDGE, INNER, Always);
    GroupsMembers(s.raw, WebWindow(s.now), SLOT);
  }

  // ---------- 5-minute rows of the Go engine ----------

  const LATER := Sample(1, 120 * SECOND, 3.0)
  const OPEN := Store(60 * SECOND, [INNER], map[], map[])

  /** The Go engine writes the row of the bucket in progress; a sample that comes before the bucket closes
      never enters it. */
  lemma GoFreezesPartialRow()
    ensures var once := Run(EMPTY, [Ingest(INNER), Tick(60 * SECOND), RunGoFive]);
            var again := Run(once, [Ingest(LATER), Tick(FIVE_MIN), RunGoFive]);
            && SLOT in once.fine && Complete(once, SLOT)
            && SLOT in again.fine && again.fine[SLOT] == once.fine[SLOT] && !Complete(again, SLOT)
  {
    hide Run, GoFive, Complete, SoundStore;
    GoReaches();
    GoWrites(OPEN);
    NeverRepaired(GoFive(OPEN));
  }

  lemma NeverRepaired(s: Store)
    requires SoundStore(s) && SLOT in s.fine
    ensures var again := Run(s, [Ingest(LATER), Tick(FIVE_MIN), RunGoFive]);
            SLOT in again.fine && again.fine[SLOT] == s.fine[SLOT] && !Complete(again, SLOT)
  {
    FloorFiveUnique(LATER.at, 0);
    hide FloorFive, Complete, Run, SoundStore;
    var es := [Ingest(LATER), Tick(FIVE_MIN), RunGoFive];
    GoRowsFrozen(s, es);
    GoRowExact(s, es, SLOT);
    assert es[0] in es && KeyOf(LATER, Five) == SLOT;
  }

  lemma GoReaches()
    ensures Run(EMPTY, [Ingest(INNER), Tick(60 * SECOND), RunGoFive]) == GoFive(OPEN)
    ensures SoundStore(GoFive(OPEN))
  {
    hide Run, GoFive, SoundTable;
    RunThree(EMPTY, Ingest(INNER), Tick(60 * SECOND), RunGoFive);
    assert [] + [INNER] == [INNER];
    EmptySound();
    RunSound(EMPTY, [Ingest(INNER), Tick(60 * SECOND), RunGoFive]);
  }

  lemma EmptySound()
    ensures SoundStore(EMPTY) && CountDecides(EMPTY)
  {
  }

  /** From empty tables the first run adds the one row of the sample. */
  lemma GoWrites(s: Store)
    requires s == OPEN
    ensures SLOT in GoFive(s).fine && Complete(GoFive(s), SLOT)
    ensures forall k :: k in GoFive(s).fine ==> k == SLOT
  {
    hide FloorFive, Groups, Complete, Watermark;
    FloorFiveUnique(INNER.at, 0);
    assert INNER in s.raw && InBucket(INNER, SLOT);
    assert Watermark(s.fine.Keys, s.now - HOUR) == s.now - HOUR;
    GoAdds(s, SLOT);
    GoAddsExact(s, SLOT);
    forall k | k in GoFive(s).fine ensures k == SLOT { GoAdds(s, k); }
  }

  const BEFORE := Sample(2, 30 * SECOND, 1.0)
  const AFTER := Sample(1, 61 * SECOND, 1.0)
  const HOUR_ON := Store(HOUR + 60 * SECOND, [AFTER, BEFORE], map[], map[])

  /** On an empty table the fallback cuts off what is over an hour old; the watermark of the first rows
      reopens it, so a second run with no new sample adds a row. */
  lemma GoNotIdempotentFromEmpty()
    ensures var once := Run(EMPTY, [Ingest(AFTER), Ingest(BEFORE), Tick(HOUR + 60 * SECOND), RunGoFive]);
            var again := Run(once, [RunGoFive]);
            Key(2, 0) !in once.fine && Key(2, 0) in again.fine
  {
    hide Run, GoFive;
    RunFour(EMPTY, Ingest(AFTER), Ingest(BEFORE), Tick(HOUR + 60 * SECOND), RunGoFive);
    assert [] + [AFTER] == [AFTER] && [AFTER] + [BEFORE] == [AFTER, BEFORE];
    RunOne(GoFive(HOUR_ON), RunGoFive);
    FirstCuts(HOUR_ON);
    SecondReopens(GoFive(HOUR_ON));
  }

  lemma FirstCuts(s: Store)
    requires s == HOUR_ON
    ensures Key(1, 0) in GoFive(s).fine && Key(2, 0) !in GoFive(s).fine && GoFive(s).raw == s.raw
    ensures forall k :: k in GoFive(s).fine ==> k.bucket == 0
  {
    hide FloorFive, Groups, Watermark;
    FloorFiveUnique(AFTER.at, 0);
    FloorFiveUnique(BEFORE.at, 0);
    assert Watermark(s.fine.Keys, s.now - HOUR) == s.now - HOUR;
    assert AFTER in s.raw && InBucket(AFTER, Key(1, 0));
    GoAdds(s, Key(1, 0));
    GoAdds(s, Key(2, 0));
    forall k | k in GoFive(s).fine ensures k.bucket == 0 { GoAdds(s, k); }
  }

  lemma SecondReopens(s: Store)
    requires s.raw == [AFTER, BEFORE] && Key(1, 0) in s.fine && Key(2, 0) !in s.fine
    requires forall k :: k in s.fine ==> k.bucket == 0
    ensures Key(2, 0) in GoFive(s).fine
  {
    hide FloorFive, Groups;
    FloorFiveUnique(BEFORE.at, 0);
    assert Key(1, 0) in s.fine.Keys;
    assert Watermark(s.fine.Keys, s.now - HOUR) == 0;
    assert BEFORE in s.raw && InBucket(BEFORE, Key(2, 0));
    GoAdds(s, Key(2, 0));
  }

  // ---------- hours of two buckets ----------

  const ONE := Sample(1, SECOND, 1.0)
  const FOUR := Sample(1, FIVE_MIN + SECOND, 4.0)

  /** The samples of the second bucket, one or two. */
  ghost predicate Second(later: seq<Sample>) {
    later == [FOUR] || later == [FOUR, FOUR]
  }

  lemma SecondSelect(later: seq<Sample>, k: Key, g: Grain)
    requires Second(later)
    ensures Bucket([ONE] + later, k, g) ==
              (if KeyOf(ONE, g) == k then [ONE] else []) + if KeyOf(FOUR, g) == k then later else []
  {
    hide KeyOf, Select;
    SelectNone(k, g, Always);
    SelectAppend([], ONE, k, g, Always);
    SelectAppend([ONE], FOUR, k, g, Always);
    SelectAppend([ONE] + [FOUR], FOUR, k, g, Always);
    assert [] + [ONE] == [ONE] && [FOUR] + [FOUR] == [FOUR, FOUR];
    assert [ONE] + [FOUR] + [FOUR] == [ONE] + [FOUR, FOUR];
  }

  lemma Buckets(later: seq<Sample>, f: Key)
    requires Second(later) && f.bucket % FIVE_MIN == 0
    ensures Bucket([ONE] + later, f, Five) == if f == Key(1, 0) then [ONE] else if f == Key(1, FIVE_MIN) then later else []
    ensures Bucket([ONE] + later, SLOT, Hourly) == [ONE] + later
  {
    hide FloorFive, Select;
    FloorFiveUnique(ONE.at, 0);
    FloorFiveUnique(FOUR.at, FIVE_MIN);
    SecondSelect(later, f, Five);
    SecondSelect(later, SLOT, Hourly);
  }

  lemma SumSnoc(xs: seq<Sample>, x: Sample)
    ensures Sum(xs + [x]) == Sum(xs) + x.cpu
    ensures Peak(xs + [x]) == if xs == [] || Peak(xs) < x.cpu then x.cpu else Peak(xs)
  {
    assert (xs + [x])[..|xs|] == xs;
  }

  lemma BucketRows()
    ensures Aggregate([ONE]) == Row(1.0, 1.0, 1) && Aggregate([FOUR, FOUR]) == Row(4.0, 4.0, 2)
    ensures Aggregate([ONE] + [FOUR, FOUR]).avg == 3.0
  {
    SumSnoc([], ONE);
    SumSnoc([], FOUR);
    SumSnoc([FOUR], FOUR);
    SumConcat([ONE], [FOUR, FOUR]);
    assert [] + [ONE] == [ONE] && [] + [FOUR] == [FOUR] && [FOUR] + [FOUR] == [FOUR, FOUR];
  }

  /** One run of the schedule: a sample or two, then the web engine when the bucket closes. */
  lemma Rolled(s: Store, due: int, x: Sample)
    requires UpToDate(s, due) && s.now == due - FIVE_MIN && s.now < x.at < due
    ensures var t := Run(s, [Ingest(x), Tick(FIVE_MIN), RunWebFive]);
            UpToDate(t, due + FIVE_MIN) && t.raw == s.raw + [x] && t.now == due
  {
    hide UpToDate, Run, WebFive;
    RunThree(s, Ingest(x), Tick(FIVE_MIN), RunWebFive);
    var a := Step(s, Ingest(x));
    ScheduledIngest(s, due, x);
    TickKeeps(a, due, FIVE_MIN);
    RunIsDue(Step(a, Tick(FIVE_MIN)), due);
    WebFiveKeepsRaw(Step(a, Tick(FIVE_MIN)));
  }

  lemma RolledTwo(s: Store, due: int, x: Sample)
    requires UpToDate(s, due) && s.now == due - FIVE_MIN && s.now < x.at < due
    ensures var t := Run(s, [Ingest(x), Ingest(x), Tick(FIVE_MIN), RunWebFive]);
            UpToDate(t, due + FIVE_MIN) && t.raw == s.raw + [x, x] && t.now == due
  {
    hide UpToDate, Run, WebFive;
    RunFour(s, Ingest(x), Ingest(x), Tick(FIVE_MIN), RunWebFive);
    var a := Step(Step(s, Ingest(x)), Ingest(x));
    ScheduledIngest(s, due, x);
    ScheduledIngest(Step(s, Ingest(x)), due, x);
    TickKeeps(a, due, FIVE_MIN);
    RunIsDue(Step(a, Tick(FIVE_MIN)), due);
    WebFiveKeepsRaw(Step(a, Tick(FIVE_MIN)));
    assert s.raw + [x] + [x] == s.raw + [x, x];
  }

  /** The state after the two buckets were rolled up on time. */
  ghost predicate TwoRows(s: Store, later: seq<Sample>) {
    && s.raw == [ONE] + later && Second(later)
    && SoundStore(s) && CountDecides(s)
    && (forall f: Key :: f in s.fine ==> f.bucket % FIVE_MIN == 0)
    && (forall f: Key :: f.bucket % FIVE_MIN == 0 ==> Complete(s, f))
  }

  lemma BucketFollows(s: Store, later: seq<Sample>, f: Key)
    requires UpToDate(s, 3 * FIVE_MIN) && s.raw == [ONE] + later && Second(later)
    ensures f.bucket % FIVE_MIN == 0 ==> Complete(s, f)
    ensures f in s.fine ==> f.bucket % FIVE_MIN == 0
  {
    hide FloorFive, Bucket, Aggregate, Second;
    FloorFiveIsFloor(f.bucket);
    if f.bucket % FIVE_MIN == 0 {
      FloorFiveUnique(f.bucket, f.bucket);
      Buckets(later, f);
      if f.bucket + FIVE_MIN > 2 * FIVE_MIN { assert f !in s.fine; }
    }
  }

  lemma TwoRowsFollow(s: Store, later: seq<Sample>)
    requires UpToDate(s, 3 * FIVE_MIN) && s.raw == [ONE] + later && Second(later)
    requires SoundStore(s) && CountDecides(s)
    ensures TwoRows(s, later)
  {
    hide UpToDate, Complete, SoundStore, CountDecides, Second;
    forall f: Key ensures (f.bucket % FIVE_MIN == 0 ==> Complete(s, f)) && (f in s.fine ==> f.bucket % FIVE_MIN == 0) {
      BucketFollows(s, later, f);
    }
  }

  lemma RowFollows(s: Store, later: seq<Sample>, f: Key)
    requires TwoRows(s, later)
    ensures f in s.fine <==> f == Key(1, 0) || f == Key(1, FIVE_MIN)
    ensures f == Key(1, 0) ==> s.fine[f] == Aggregate([ONE])
    ensures f == Key(1, FIVE_MIN) ==> s.fine[f] == Aggregate(later)
  {
    hide Bucket, SoundStore, CountDecides, Aggregate;
    if f.bucket % FIVE_MIN == 0 { Buckets(later, f); }
  }

  lemma HourHasSamples(s: Store, later: seq<Sample>)
    requires TwoRows(s, later)
    ensures HourOf(SLOT.bucket) == SLOT.bucket && Bucket(s.raw, SLOT, Hourly) == [ONE] + later
  {
    hide Select, Bucket, Complete, SoundStore, CountDecides, Second;
    Buckets(later, SLOT);
  }

  lemma StepKeepsTwoRows(s: Store, later: seq<Sample>, e: Event)
    requires TwoRows(s, later) && (e.Tick? || e.RunWebHourly?)
    ensures TwoRows(Step(s, e), later)
  {
    hide HourGroups, Bucket, SoundStore, CountDecides, Aggregate;
    StepSound(s, e);
    StepDecides(s, e);
  }

  /** At the end of the hour both rows are in the window, in order. */
  lemma BothInWindow(s: Store, later: seq<Sample>)
    requires TwoRows(s, later) && s.now == HOUR
    ensures AllSeen(s, 1, WebHours(s), 0, HOUR)
    ensures RowsOfHour(s.fine, SLOT, WebHours(s)) == [Aggregate([ONE]), Aggregate(later)]
  {
    hide Complete, Select, SoundStore, CountDecides, Aggregate;
    var w := WebHours(s);
    forall f: Key ensures f in s.fine ==> w.Contains(f.bucket) && f.bucket < 2 * FIVE_MIN {
      RowFollows(s, later, f);
    }
    RowFollows(s, later, Key(1, 0));
    RowFollows(s, later, Key(1, FIVE_MIN));
    RowsInOrder(s.fine, w, s.fine[Key(1, 0)], s.fine[Key(1, FIVE_MIN)]);
  }

  lemma RowsInOrder(fine: map<Key, Row>, w: Window, a: Row, b: Row)
    requires Key(1, 0) in fine && fine[Key(1, 0)] == a && Key(1, FIVE_MIN) in fine && fine[Key(1, FIVE_MIN)] == b
    requires forall f: Key :: f in fine ==> w.Contains(f.bucket) && f.bucket < 2 * FIVE_MIN
    ensures RowsOfHour(fine, SLOT, w) == [a, b]
  {
    RowsStop(fine, 1, w, 0, 2 * FIVE_MIN, HOUR);
    assert RowsBetween(fine, 1, w, 0, 0) == [];
    assert RowsBetween(fine, 1, w, 0, FIVE_MIN) == [a];
  }

  lemma {:induction false} RowsStop(fine: map<Key, Row>, asset: int, w: Window, lo: int, mid: int, hi: int)
    requires lo <= mid <= hi && (hi - mid) % FIVE_MIN == 0
    requires forall f: Key :: f in fine ==> f.bucket < mid
    ensures RowsBetween(fine, asset, w, lo, hi) == RowsBetween(fine, asset, w, lo, mid)
    decreases hi - lo
  {
    if mid < hi { RowsStop(fine, asset, w, lo, mid, hi - FIVE_MIN); }
  }

  // ---------- an exact hour that is overwritten ----------

  /** The web engine writes an hour exactly, and over an hour later overwrites it with what is left of its
      rows in the window. */
  lemma WebOverwritesHour()
    ensures var first := Run(EMPTY, [Ingest(ONE), Tick(FIVE_MIN), RunWebFive]);
            var second := Run(first, [Ingest(FOUR), Tick(FIVE_MIN), RunWebFive]);
            var once := Run(second, [Tick(HOUR - 2 * FIVE_MIN), RunWebHourly]);
            var again := Run(once, [Tick(HOUR + 60 * SECOND), RunWebHourly]);
            HourComplete(once, SLOT) && !HourComplete(again, SLOT)
  {
    hide Run, UpToDate, TwoRows, HourComplete, SoundStore, CountDecides, WebFive;
    var first := Run(EMPTY, [Ingest(ONE), Tick(FIVE_MIN), RunWebFive]);
    var second := Run(first, [Ingest(FOUR), Tick(FIVE_MIN), RunWebFive]);
    FirstRolled();
    Rolled(first, 2 * FIVE_MIN, FOUR);
    RunDecides(first, [Ingest(FOUR), Tick(FIVE_MIN), RunWebFive]);
    TwoRowsFollow(second, [FOUR]);
    OnceAndAgain(second);
  }

  lemma FirstRolled()
    ensures var first := Run(EMPTY, [Ingest(ONE), Tick(FIVE_MIN), RunWebFive]);
            UpToDate(first, 2 * FIVE_MIN) && first.raw == [ONE] && first.now == FIVE_MIN && SoundStore(first) && CountDecides(first)
  {
    hide UpToDate, Run, SoundStore, CountDecides;
    EmptyUpToDate(0);
    EmptySound();
    Rolled(EMPTY, FIVE_MIN, ONE);
    RunDecides(EMPTY, [Ingest(ONE), Tick(FIVE_MIN), RunWebFive]);
    assert [] + [ONE] == [ONE];
  }

  lemma OnceAndAgain(s: Store)
    requires TwoRows(s, [FOUR]) && s.now == 2 * FIVE_MIN
    ensures var once := Run(s, [Tick(HOUR - 2 * FIVE_MIN), RunWebHourly]);
            var again := Run(once, [Tick(HOUR + 60 * SECOND), RunWebHourly]);
            HourComplete(once, SLOT) && !HourComplete(again, SLOT)
  {
    hide Run, TwoRows, HourComplete, Groups, HourGroups;
    var a := Step(s, Tick(HOUR - 2 * FIVE_MIN));
    RunTwo(s, Tick(HOUR - 2 * FIVE_MIN), RunWebHourly);
    StepKeepsTwoRows(s, [FOUR], Tick(HOUR - 2 * FIVE_MIN));
    HourWritten(a);
    StepKeepsTwoRows(a, [FOUR], RunWebHourly);
    var once := Step(a, RunWebHourly);
    RunTwo(once, Tick(HOUR + 60 * SECOND), RunWebHourly);
    StepKeepsTwoRows(once, [FOUR], Tick(HOUR + 60 * SECOND));
    HourOverwritten(Step(once, Tick(HOUR + 60 * SECOND)));
  }

  lemma HourWritten(s: Store)
    requires TwoRows(s, [FOUR]) && s.now == HOUR
    ensures HourComplete(Step(s, RunWebHourly), SLOT)
  {
    HourHasSamples(s, [FOUR]);
    BothInWindow(s, [FOUR]);
    hide AllSeen, Bucket, HourGroups, Uncorrelated, RowsOfHour, HourComplete, Complete, SoundStore, CountDecides, Select;
    EvenIsUncorrelated(RowsOfHour(s.fine, SLOT, WebHours(s)), 1);
    WebHourAfter(s, SLOT);
  }

  /** Over an hour later only the second row is left in the window. */
  lemma OneInWindow(s: Store)
    requires TwoRows(s, [FOUR]) && s.now == 2 * HOUR + 60 * SECOND
    ensures !AllSeen(s, 1, WebHours(s), 0, HOUR)
    ensures RowsOfHour(s.fine, SLOT, WebHours(s)) != []
  {
    hide Complete, Select, SoundStore, CountDecides, Aggregate;
    RowFollows(s, [FOUR], Key(1, 0));
    RowFollows(s, [FOUR], Key(1, FIVE_MIN));
    var w := WebHours(s);
    RowsBetweenMembers(s.fine, 1, w, 0, HOUR);
    hide RowsBetween;
    assert s.fine[Key(1, FIVE_MIN)] in RowsOfHour(s.fine, SLOT, w);
    assert Key(1, 0) in s.fine && !w.Contains(Key(1, 0).bucket);
  }

  lemma HourOverwritten(s: Store)
    requires TwoRows(s, [FOUR]) && s.now == 2 * HOUR + 60 * SECOND
    ensures !HourComplete(Step(s, RunWebHourly), SLOT)
  {
    HourHasSamples(s, [FOUR]);
    OneInWindow(s);
    hide AllSeen, Bucket, HourGroups, Uncorrelated, HourComplete, RowsOfHour, Complete, SoundStore, CountDecides;
    WebHourAfter(s, SLOT);
  }

  // ---------- an hour whose average is not the mean ----------

  /** 1 in one bucket and 4, 4 in the next: all 5-minute rows are right, and the hourly average is 2.5
      where the mean is 3. */
  lemma UnevenHourDiffers()
    ensures var first := Run(EMPTY, [Ingest(ONE), Tick(FIVE_MIN), RunWebFive]);
            var second := Run(first, [Ingest(FOUR), Ingest(FOUR), Tick(FIVE_MIN), RunWebFive]);
            var s := Run(second, [Tick(HOUR - 2 * FIVE_MIN), RunWebHourly]);
            var xs := Bucket(s.raw, SLOT, Hourly);
            && (forall f: Key :: f.bucket % FIVE_MIN == 0 ==> Complete(s, f))
            && SLOT in s.hourly && xs != [] && s.hourly[SLOT].avg == 2.5 && Aggregate(xs).avg == 3.0
  {
    hide Run, UpToDate, TwoRows, HourComplete, SoundStore, CountDecides, WebFive, Bucket, Complete, Aggregate;
    var first := Run(EMPTY, [Ingest(ONE), Tick(FIVE_MIN), RunWebFive]);
    var es := [Ingest(FOUR), Ingest(FOUR), Tick(FIVE_MIN), RunWebFive];
    FirstRolled();
    RolledTwo(first, 2 * FIVE_MIN, FOUR);
    RunDecides(first, es);
    TwoRowsFollow(Run(first, es), [FOUR, FOUR]);
    UnevenWritten(Run(first, es));
  }

  lemma UnevenWritten(s: Store)
    requires TwoRows(s, [FOUR, FOUR]) && s.now == 2 * FIVE_MIN
    ensures var t := Run(s, [Tick(HOUR - 2 * FIVE_MIN), RunWebHourly]);
            var xs := Bucket(t.raw, SLOT, Hourly);
            && (forall f: Key :: f.bucket % FIVE_MIN == 0 ==> Complete(t, f))
            && SLOT in t.hourly && xs != [] && t.hourly[SLOT].avg == 2.5 && Aggregate(xs).avg == 3.0
  {
    var a := Step(s, Tick(HOUR - 2 * FIVE_MIN));
    RunTwo(s, Tick(HOUR - 2 * FIVE_MIN), RunWebHourly);
    StepKeepsTwoRows(s, [FOUR, FOUR], Tick(HOUR - 2 * FIVE_MIN));
    StepKeepsTwoRows(a, [FOUR, FOUR], RunWebHourly);
    HourHasSamples(Step(a, RunWebHourly), [FOUR, FOUR]);
    BucketRows();
    UnevenRow(a);
    hide Complete, Bucket, HourGroups, SoundStore, CountDecides, Aggregate, Run;
  }

  lemma UnevenAverage()
    ensures Combine([Row(1.0, 1.0, 1), Row(4.0, 4.0, 2)]).avg == 2.5
  {
    var rows := [Row(1.0, 1.0, 1), Row(4.0, 4.0, 2)];
    assert rows[..1] == [rows[0]] && rows[..1][..0] == [];
    assert SumAvg(rows[..1]) == SumAvg(rows[..1][..0]) + 1.0;
    assert SumAvg(rows) == SumAvg(rows[..1]) + 4.0;
  }

  lemma UnevenRow(s: Store)
    requires TwoRows(s, [FOUR, FOUR]) && s.now == HOUR
    ensures SLOT in Step(s, RunWebHourly).hourly && Step(s, RunWebHourly).hourly[SLOT].avg == 2.5
  {
    hide TwoRows, AllSeen, HourGroups, Aggregate, RowsOfHour, Combine;
    BothInWindow(s, [FOUR, FOUR]);
    BucketRows();
    UnevenAverage();
    assert HourOf(SLOT.bucket) == SLOT.bucket;
    HourGroupsExactly(s.fine, WebHours(s), SLOT);
  }

  // ---------- an hour the Go engine cuts ----------

  const EARLY := Sample(2, 120 * SECOND, 1.0)
  const LATE := Sample(2, FIVE_MIN + SECOND, 1.0)
  const CUT := Key(2, 0)

  /** Once the hour of one asset is written, the hourly watermark cuts off the first row of an asset whose
      samples of that hour are rolled up later: its hourly row is written from the other rows alone. */
  lemma GoCutsHour()
    ensures var once := Run(EMPTY, [Ingest(INNER), Tick(60 * SECOND), RunGoFive, RunGoHourly]);
            var again := Run(once, [Ingest(EARLY), Ingest(LATE), Tick(2 * FIVE_MIN), RunGoFive, RunGoHourly]);
            && CUT in again.fine && Complete(again, CUT) && Key(2, FIVE_MIN) in again.fine && Complete(again, Key(2, FIVE_MIN))
            && CUT in again.hourly && !HourComplete(again, CUT)
  {
    hide Run, GoFive, GoHourly, Complete, HourComplete, SoundStore, CountDecides;
    var once := GoHourly(GoFive(OPEN));
    RunFour(EMPTY, Ingest(INNER), Tick(60 * SECOND), RunGoFive, RunGoHourly);
    assert [] + [INNER] == [INNER];
    EmptySound();
    RunDecides(EMPTY, [Ingest(INNER), Tick(60 * SECOND), RunGoFive, RunGoHourly]);
    FirstHour(OPEN);
    CutAgain(once);
  }

  /** Both watermarks are at the start of the hour. */
  ghost predicate Marked(s: Store) {
    && Watermark(s.fine.Keys, s.now - HOUR) == 0 && Watermark(s.hourly.Keys, s.now - DAY) == 0
    && (forall f :: f in s.fine ==> f == SLOT) && (forall k :: k in s.hourly ==> k == SLOT)
    && SLOT in s.fine && SLOT in s.hourly
  }

  lemma FirstHour(s: Store)
    requires s == OPEN
    ensures Marked(GoHourly(GoFive(s))) && GoHourly(GoFive(s)).raw == [INNER] && GoHourly(GoFive(s)).now == s.now
  {
    hide Groups, HourGroups, FloorFive, Complete, SoundStore, Watermark, Run;
    GoWrites(s);
    GoReaches();
    var a := GoFive(s);
    HourOfOne(a);
    var t := GoHourly(a);
    MarkOfSlot(t.fine.Keys, t.now - HOUR);
    MarkOfSlot(t.hourly.Keys, t.now - DAY);
  }

  lemma MarkOfSlot(keys: set<Key>, fallback: int)
    requires SLOT in keys && forall k :: k in keys ==> k == SLOT
    ensures Watermark(keys, fallback) == 0
  {
  }

  lemma HourOfOne(s: Store)
    requires SoundStore(s) && s.hourly == map[] && s.now == 60 * SECOND
    requires SLOT in s.fine && forall f :: f in s.fine ==> f == SLOT
    ensures forall k :: k in GoHourly(s).hourly <==> k == SLOT
  {
    var w := GoHours(s);
    assert Watermark(s.hourly.Keys, s.now - DAY) == s.now - DAY;
    HourGroupsIsGroupBy(s.fine, s.raw, SLOT, w);
    hide SoundStore, Watermark, RowsOfHour;
    forall k ensures k in GoHourly(s).hourly <==> k == SLOT {
    }
  }

  lemma CutAgain(s: Store)
    requires Marked(s) && s.raw == [INNER] && SoundStore(s) && CountDecides(s)
    ensures var again := Run(s, [Ingest(EARLY), Ingest(LATE), Tick(2 * FIVE_MIN), RunGoFive, RunGoHourly]);
            && CUT in again.fine && Complete(again, CUT) && Key(2, FIVE_MIN) in again.fine && Complete(again, Key(2, FIVE_MIN))
            && CUT in again.hourly && !HourComplete(again, CUT)
  {
    hide Run, GoFive, GoHourly, Complete, HourComplete, SoundStore, CountDecides, Watermark;
    RunFive(s, Ingest(EARLY), Ingest(LATE), Tick(2 * FIVE_MIN), RunGoFive, RunGoHourly);
    var a := Step(Step(Step(s, Ingest(EARLY)), Ingest(LATE)), Tick(2 * FIVE_MIN));
    RunThree(s, Ingest(EARLY), Ingest(LATE), Tick(2 * FIVE_MIN));
    RunDecides(s, [Ingest(EARLY), Ingest(LATE), Tick(2 * FIVE_MIN)]);
    assert [INNER] + [EARLY] + [LATE] == [INNER, EARLY, LATE];
    MarkStays(s, a);
    RowsAdded(a);
    StepSound(a, RunGoFive);
    StepDecides(a, RunGoFive);
    HourCut(GoFive(a));
  }

  lemma MarkStays(s: Store, t: Store)
    requires Marked(s) && t.fine == s.fine && t.hourly == s.hourly
    ensures Marked(t)
  {
    assert SLOT in t.fine.Keys && SLOT in t.hourly.Keys;
  }

  lemma RowsAdded(s: Store)
    requires Marked(s) && s.raw == [INNER, EARLY, LATE]
    ensures var t := GoFive(s);
            && t.raw == s.raw && t.hourly == s.hourly
            && CUT in t.fine && Complete(t, CUT) && Key(2, FIVE_MIN) in t.fine && Complete(t, Key(2, FIVE_MIN))
  {
    hide FloorFive, Groups, Complete, Watermark;
    FloorFiveUnique(EARLY.at, 0);
    FloorFiveUnique(LATE.at, FIVE_MIN);
    assert EARLY in s.raw && InBucket(EARLY, CUT);
    assert LATE in s.raw && InBucket(LATE, Key(2, FIVE_MIN));
    GoAdds(s, CUT);
    GoAddsExact(s, CUT);
    GoAdds(s, Key(2, FIVE_MIN));
    GoAddsExact(s, Key(2, FIVE_MIN));
  }

  /** The hourly watermark lets the second row through and cuts off the first. */
  lemma FirstRowCut(s: Store)
    requires Watermark(s.hourly.Keys, s.now - DAY) == 0 && s.raw == [INNER, EARLY, LATE]
    requires CUT in s.fine && Key(2, FIVE_MIN) in s.fine
    ensures RowsOfHour(s.fine, CUT, GoHours(s)) != [] && !AllSeen(s, 2, GoHours(s), 0, HOUR)
    ensures Bucket(s.raw, CUT, Hourly) != []
  {
    hide Watermark, Complete, FloorFive, Select;
    RowsBetweenMembers(s.fine, 2, GoHours(s), 0, HOUR);
    SelectMembers(s.raw, CUT, Hourly, Always);
    assert EARLY in s.raw && EARLY in Bucket(s.raw, CUT, Hourly);
    hide RowsBetween;
    assert s.fine[Key(2, FIVE_MIN)] in RowsOfHour(s.fine, CUT, GoHours(s));
    assert CUT in s.fine && !GoHours(s).Contains(CUT.bucket);
  }

  lemma HourCut(s: Store)
    requires SoundStore(s) && CountDecides(s) && s.raw == [INNER, EARLY, LATE]
    requires SLOT in s.hourly && forall k :: k in s.hourly ==> k == SLOT
    requires CUT in s.fine && Complete(s, CUT) && Key(2, FIVE_MIN) in s.fine && Complete(s, Key(2, FIVE_MIN))
    ensures var t := GoHourly(s);
            && t.fine == s.fine && t.raw == s.raw && CUT in t.hourly && !HourComplete(t, CUT)
            && Complete(t, CUT) && Complete(t, Key(2, FIVE_MIN))
  {
    hide Watermark, RowsOfHour, Bucket, HourGroups, SoundStore, CountDecides, Complete, HourComplete, FloorFive, AllSeen, Uncorrelated;
    MarkOfSlot(s.hourly.Keys, s.now - DAY);
    FirstRowCut(s);
    HourGroupsExactly(s.fine, GoHours(s), CUT);
    GoHourExactly(s, CUT);
    HourlyKeepsRows(s);
  }

  lemma HourlyKeepsRows(s: Store)
    ensures GoHourly(s).fine == s.fine && GoHourly(s).raw == s.raw
    ensures forall f :: Complete(GoHourly(s), f) <==> Complete(s, f)
  {
    hide HourGroups, Bucket, Watermark, Aggregate;
  }
}
