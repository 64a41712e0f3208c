/** When a 5-minute row equals the full recomputation of its bucket, for each engine. */
module RollupExactness {
  import opened Rollup
  import opened RollupSoundness

  /** The row of the bucket is exactly what all its samples aggregate to. */
  ghost predicate Complete(s: Store, k: Key) {
    var xs := Bucket(s.raw, k, Five);
    if xs == [] then k !in s.fine else k in s.fine && s.fine[k] == Aggregate(xs)
  }

  ghost predicate IsBucket(k: Key) {
    FloorFive(k.bucket) == k.bucket
  }

  ghost predicate InBucket(x: Sample, k: Key) {
    KeyOf(x, Five) == k
  }

  /** No sample of the bucket or hour arrives. */
  ghost predicate Quiet(es: seq<Event>, k: Key, g: Grain) {
    forall e :: e in es && e.Ingest? ==> KeyOf(e.sample, g) != k
  }

  // ---------- what one statement does to one row ----------

  /** The row a window yields is the full recomputation exactly when the window sees the whole bucket. */
  lemma WindowExact(raw: seq<Sample>, k: Key, w: Window)
    requires Select(raw, k, Five, w) != []
    ensures Bucket(raw, k, Five) != []
    ensures Aggregate(Select(raw, k, Five, w)) == Aggregate(Bucket(raw, k, Five)) <==>
            forall x :: x in raw && InBucket(x, k) ==> w.Contains(x.at)
  {
    hide FloorFive, HourOf;
    SelectNarrows(raw, k, Five, w);
    if forall x :: x in raw && InBucket(x, k) ==> w.Contains(x.at) {
      SelectAgrees(raw, k, Five, w, Always);
    }
  }

  lemma BucketEmpty(raw: seq<Sample>, k: Key, w: Window)
    ensures Select(raw, k, Five, w) == [] <==> forall x :: x in raw && InBucket(x, k) ==> !w.Contains(x.at)
    ensures Bucket(raw, k, Five) == [] <==> forall x :: x in raw ==> !InBucket(x, k)
  {
    hide FloorFive, HourOf;
    SelectMembers(raw, k, Five, w);
    SelectMembers(raw, k, Five, Always);
    if Select(raw, k, Five, w) != [] { assert Select(raw, k, Five, w)[0] in Select(raw, k, Five, w); }
    if Bucket(raw, k, Five) != [] { assert Bucket(raw, k, Five)[0] in Bucket(raw, k, Five); }
  }

  lemma InBucketBounds(x: Sample, k: Key)
    requires InBucket(x, k)
    ensures IsBucket(k) && x.asset == k.asset && k.bucket <= x.at < k.bucket + FIVE_MIN
  {
    FloorFiveIsFloor(x.at);
    FloorFiveUnique(k.bucket, k.bucket);
  }

  lemma BucketUntouched(raw: seq<Sample>, x: Sample, k: Key)
    requires !InBucket(x, k)
    ensures Bucket(raw + [x], k, Five) == Bucket(raw, k, Five)
  {
    hide FloorFive, HourOf;
    SelectAppend(raw, x, k, Five, Always);
  }

  // ---------- the web engine ----------

  /** A run at this time sees some samples of the bucket and misses others. */
  ghost predicate Splits(s: Store, k: Key) {
    && (exists x :: x in s.raw && InBucket(x, k) && x.at <= s.now - 2 * FIVE_MIN)
    && (exists x :: x in s.raw && InBucket(x, k) && s.now - 2 * FIVE_MIN < x.at)
  }

  lemma ClosedBelow(k: Key, now: int)
    requires IsBucket(k) && k.bucket + FIVE_MIN <= now
    ensures k.bucket + FIVE_MIN <= FloorFive(now)
  {
    hide FloorFive;
    FloorFiveIsFloor(k.bucket);
    FloorFiveIsFloor(now);
    if FloorFive(now) < k.bucket + FIVE_MIN {
      MultiplesApart(FloorFive(now), k.bucket);
    }
  }

  /** The first visit after a bucket closes computes it in full. */
  lemma FirstVisitCompletes(s: Store, k: Key)
    requires IsBucket(k) && k.bucket + FIVE_MIN <= s.now < k.bucket + 2 * FIVE_MIN
    requires k in s.fine ==> Bucket(s.raw, k, Five) != []
    ensures Complete(WebFive(s), k)
  {
    hide FloorFive, HourOf;
    var w := WebWindow(s.now);
    ClosedBelow(k, s.now);
    forall x | x in s.raw && InBucket(x, k) ensures w.Contains(x.at) { InBucketBounds(x, k); }
    GroupsMembers(s.raw, w, k);
    SelectAgrees(s.raw, k, Five, w, Always);
  }

  /** A later visit keeps a complete row complete exactly when it does not split the bucket. */
  lemma RevisitKeepsComplete(s: Store, k: Key)
    requires IsBucket(k) && k.bucket + FIVE_MIN <= s.now && Complete(s, k)
    ensures Complete(WebFive(s), k) <==> !Splits(s, k)
  {
    hide FloorFive, HourOf;
    var w := WebWindow(s.now);
    ClosedBelow(k, s.now);
    forall x | x in s.raw && InBucket(x, k)
      ensures w.Contains(x.at) <==> s.now - 2 * FIVE_MIN < x.at
    {
      InBucketBounds(x, k);
    }
    GroupsMembers(s.raw, w, k);
    BucketEmpty(s.raw, k, w);
    if Select(s.raw, k, Five, w) != [] { WindowExact(s.raw, k, w); }
  }

  /** Some samples of the bucket are out of reach of every later run, and the row does not count them. */
  ghost predicate Behind(s: Store, k: Key) {
    && k in s.fine && s.fine[k].count < |Bucket(s.raw, k, Five)|
    && exists x :: x in s.raw && InBucket(x, k) && x.at <= s.now - 2 * FIVE_MIN
  }

  lemma SplitLeavesBehind(s: Store, k: Key)
    requires IsBucket(k) && k.bucket + FIVE_MIN <= s.now && Splits(s, k)
    ensures Behind(WebFive(s), k)
  {
    hide FloorFive, HourOf;
    var w := WebWindow(s.now);
    ClosedBelow(k, s.now);
    var x :| x in s.raw && InBucket(x, k) && s.now - 2 * FIVE_MIN < x.at;
    InBucketBounds(x, k);
    assert w.Contains(x.at);
    GroupsMembers(s.raw, w, k);
    BucketEmpty(s.raw, k, w);
    SelectNarrows(s.raw, k, Five, w);
  }

  lemma BehindIsIncomplete(s: Store, k: Key)
    requires Behind(s, k)
    ensures !Complete(s, k)
  {
    hide FloorFive, HourOf;
  }

  /** No later run of either engine repairs such a row. */
  lemma BehindForever(s: Store, e: Event, k: Key)
    requires Behind(s, k)
    ensures Behind(Step(s, e), k)
  {
    hide FloorFive, HourOf;
    var x :| x in s.raw && InBucket(x, k) && x.at <= s.now - 2 * FIVE_MIN;
    var s' := Step(s, e);
    assert x in s'.raw && s.now <= s'.now;
    match e
    case Ingest(y) => SelectAppend(s.raw, y, k, Five, Always);
    case RunWebFive =>
      GroupsMembers(s.raw, WebWindow(s.now), k);
      SelectNarrows(s.raw, k, Five, WebWindow(s.now));
    case _ =>
  }

  lemma {:induction false} BehindToTheEnd(s: Store, es: seq<Event>, k: Key)
    requires Behind(s, k)
    ensures Behind(Run(s, es), k)
    decreases |es|
  {
    if es != [] {
      BehindForever(s, es[0], k);
      BehindToTheEnd(Step(s, es[0]), es[1..], k);
    }
  }

  // ---------- every history ----------

  /** The window lets some sample of the bucket through. */
  ghost predicate LetsSome(s: Store, k: Key, w: Window) {
    exists x :: x in s.raw && InBucket(x, k) && w.Contains(x.at)
  }

  /** The window cuts off no sample of the bucket. */
  ghost predicate LetsAll(s: Store, k: Key, w: Window) {
    forall x :: x in s.raw && InBucket(x, k) ==> w.Contains(x.at)
  }

  function WebWindowOf(s: Store): Window {
    WebWindow(s.now)
  }

  ghost function GoWindowOf(s: Store): Window {
    After(Watermark(s.fine.Keys, s.now - HOUR))
  }

  /** Whether a row is complete after a step, by whether it was before. */
  ghost predicate AfterStep(s: Store, e: Event, k: Key, complete: bool) {
    match e
    case RunWebFive => if LetsSome(s, k, WebWindowOf(s)) then LetsAll(s, k, WebWindowOf(s)) else complete
    case RunGoFive => if k !in s.fine && LetsSome(s, k, GoWindowOf(s)) then LetsAll(s, k, GoWindowOf(s)) else complete
    case Ingest(x) => complete && !InBucket(x, k)
    case _ => complete
  }

  ghost predicate AfterAll(s: Store, es: seq<Event>, k: Key, complete: bool)
    decreases |es|
  {
    if es == [] then complete else AfterAll(Step(s, es[0]), es[1..], k, AfterStep(s, es[0], k, complete))
  }

  lemma WebStepExact(s: Store, k: Key)
    ensures Complete(WebFive(s), k) <==> AfterStep(s, RunWebFive, k, Complete(s, k))
  {
    hide FloorFive, HourOf;
    var w := WebWindow(s.now);
    GroupsMembers(s.raw, w, k);
    BucketEmpty(s.raw, k, w);
    if Select(s.raw, k, Five, w) != [] { WindowExact(s.raw, k, w); }
  }

  lemma GoStepExact(s: Store, k: Key)
    ensures Complete(GoFive(s), k) <==> AfterStep(s, RunGoFive, k, Complete(s, k))
  {
    hide FloorFive, HourOf, Watermark, Groups;
    if k !in s.fine {
      GoAdds(s, k);
      GoAddsExact(s, k);
    }
  }

  lemma IngestExact(s: Store, x: Sample, k: Key)
    requires SoundStore(s)
    ensures Complete(Step(s, Ingest(x)), k) <==> AfterStep(s, Ingest(x), k, Complete(s, k))
  {
    hide FloorFive, HourOf, Select;
    SelectAppend(s.raw, x, k, Five, Always);
    if InBucket(x, k) {
      LateSampleSpoils(s, x, k);
    } else {
      assert Bucket(s.raw + [x], k, Five) == Bucket(s.raw, k, Five);
    }
  }

  lemma LateSampleSpoils(s: Store, x: Sample, k: Key)
    requires SoundStore(s) && InBucket(x, k)
    ensures !Complete(Step(s, Ingest(x)), k)
  {
    hide FloorFive, HourOf, Select, Sum, Peak;
    SelectAppend(s.raw, x, k, Five, Always);
    if k in s.fine { assert Sound(s.fine[k], Bucket(s.raw, k, Five)); }
  }

  lemma StepExact(s: Store, e: Event, k: Key)
    requires SoundStore(s)
    ensures Complete(Step(s, e), k) <==> AfterStep(s, e, k, Complete(s, k))
  {
    hide FloorFive, HourOf, SoundStore, AfterStep;
    match e
    case RunWebFive => WebStepExact(s, k);
    case RunGoFive => GoStepExact(s, k);
    case Ingest(x) => IngestExact(s, x, k);
    case _ => OtherStepExact(s, e, k);
  }

  lemma OtherStepExact(s: Store, e: Event, k: Key)
    requires e.Tick? || e.RunGoHourly? || e.RunWebHourly?
    ensures Complete(Step(s, e), k) <==> AfterStep(s, e, k, Complete(s, k))
  {
    hide FloorFive, HourOf, HourGroups;
  }

  lemma {:induction false} RowsExactly(s: Store, es: seq<Event>, k: Key)
    requires SoundStore(s)
    ensures Complete(Run(s, es), k) <==> AfterAll(s, es, k, Complete(s, k))
    decreases |es|
  {
    hide FloorFive, HourOf, Complete, AfterStep, SoundStore, Step;
    if es != [] {
      StepExact(s, es[0], k);
      StepSound(s, es[0]);
      RowsExactly(Step(s, es[0]), es[1..], k);
    }
  }

  /** Both engines together, exactly: over any history from empty tables, samples late or not, bucket open
      or closed, a row equals the full recomputation at the end if and only if the last step that decided
      it says so: a web run whose window lets any of the bucket through must cut off none of it, so must
      a Go run that first writes it, and no sample may come after. */
  lemma EveryRowExactly(now: int, es: seq<Event>, k: Key)
    ensures var s := Store(now, [], map[], map[]);
            Complete(Run(s, es), k) <==> AfterAll(s, es, k, true)
  {
    hide FloorFive, HourOf;
    RowsExactly(Store(now, [], map[], map[]), es, k);
  }

  // ---------- closed buckets ----------

  /** The web window at this time reaches some sample of the bucket. */
  ghost predicate Reached(s: Store, k: Key) {
    exists x :: x in s.raw && InBucket(x, k) && s.now - 2 * FIVE_MIN < x.at
  }

  /** For a closed bucket only the lower bound of the web window matters. */
  lemma ClosedWindow(s: Store, k: Key)
    requires IsBucket(k) && k.bucket + FIVE_MIN <= s.now
    ensures LetsSome(s, k, WebWindowOf(s)) <==> Reached(s, k)
    ensures Reached(s, k) ==> (LetsAll(s, k, WebWindowOf(s)) <==> !Splits(s, k))
  {
    hide FloorFive, HourOf;
    ClosedBelow(k, s.now);
    forall x | x in s.raw && InBucket(x, k)
      ensures WebWindowOf(s).Contains(x.at) <==> s.now - 2 * FIVE_MIN < x.at
    {
      InBucketBounds(x, k);
    }
  }

  ghost predicate ClosedAfterStep(s: Store, e: Event, k: Key, complete: bool) {
    if e.RunWebFive? then (if Reached(s, k) then !Splits(s, k) else complete) else AfterStep(s, e, k, complete)
  }

  ghost predicate ClosedAfterAll(s: Store, es: seq<Event>, k: Key, complete: bool)
    decreases |es|
  {
    if es == [] then complete else ClosedAfterAll(Step(s, es[0]), es[1..], k, ClosedAfterStep(s, es[0], k, complete))
  }

  lemma {:induction false} ClosedFold(s: Store, es: seq<Event>, k: Key, complete: bool)
    requires IsBucket(k) && k.bucket + FIVE_MIN <= s.now
    ensures AfterAll(s, es, k, complete) <==> ClosedAfterAll(s, es, k, complete)
    decreases |es|
  {
    if es != [] {
      hide FloorFive, HourOf, LetsSome, LetsAll, Reached, Splits, Groups, HourGroups, Watermark;
      ClosedWindow(s, k);
      ClosedFold(Step(s, es[0]), es[1..], k, AfterStep(s, es[0], k, complete));
    }
  }

  /** For a bucket closed at the start a web run decides by its lower bound alone: it must not split the
      bucket if it reaches it. */
  lemma ClosedRowsExactly(s: Store, es: seq<Event>, k: Key)
    requires SoundStore(s) && IsBucket(k) && k.bucket + FIVE_MIN <= s.now
    ensures Complete(Run(s, es), k) <==> ClosedAfterAll(s, es, k, Complete(s, k))
  {
    hide FloorFive, HourOf, Complete, SoundStore;
    RowsExactly(s, es, k);
    ClosedFold(s, es, k, Complete(s, k));
  }

  // ---------- once a bucket has been visited on time ----------

  /** No run of the web engine splits the bucket. */
  ghost predicate NeverSplit(s: Store, es: seq<Event>, k: Key)
    decreases |es|
  {
    es == [] || ((es[0].RunWebFive? ==> !Splits(s, k)) && NeverSplit(Step(s, es[0]), es[1..], k))
  }

  /** A row that is not complete and that no later run reaches in full stays so. */
  lemma StaysIncomplete(s: Store, es: seq<Event>, k: Key)
    requires SoundStore(s) && Behind(s, k)
    ensures !AfterAll(s, es, k, false)
  {
    hide FloorFive, HourOf, SoundStore;
    BehindIsIncomplete(s, k);
    BehindToTheEnd(s, es, k);
    BehindIsIncomplete(Run(s, es), k);
    RowsExactly(s, es, k);
  }

  /** Without late samples only a split decides. */
  lemma {:induction false} OnlySplitsDecide(s: Store, es: seq<Event>, k: Key)
    requires SoundStore(s) && IsBucket(k) && k.bucket + FIVE_MIN <= s.now && Quiet(es, k, Five)
    requires Complete(s, k)
    ensures AfterAll(s, es, k, true) <==> NeverSplit(s, es, k)
    decreases |es|
  {
    hide FloorFive, HourOf, SoundStore, Complete, Step, AfterStep;
    if es != [] {
      var e, t := es[0], Step(s, es[0]);
      TimeForward(s, e);
      StepExact(s, e, k);
      StepSound(s, e);
      if e.RunWebFive? && Splits(s, k) {
        SplitIsBehind(s, k);
        StaysIncomplete(t, es[1..], k);
      } else {
        StepStaysComplete(s, e, k);
        OnlySplitsDecide(t, es[1..], k);
      }
    }
  }

  lemma TimeForward(s: Store, e: Event)
    ensures s.now <= Step(s, e).now
  {
  }

  lemma SplitIsBehind(s: Store, k: Key)
    requires IsBucket(k) && k.bucket + FIVE_MIN <= s.now && Splits(s, k)
    ensures Behind(Step(s, RunWebFive), k) && !AfterStep(s, RunWebFive, k, true)
  {
    hide FloorFive, HourOf, Groups, Behind, WebFive;
    SplitLeavesBehind(s, k);
    ClosedWindow(s, k);
  }

  lemma StepStaysComplete(s: Store, e: Event, k: Key)
    requires IsBucket(k) && k.bucket + FIVE_MIN <= s.now && Complete(s, k)
    requires (e.Ingest? ==> !InBucket(e.sample, k)) && (e.RunWebFive? ==> !Splits(s, k))
    ensures AfterStep(s, e, k, true)
  {
    hide FloorFive, HourOf;
    ClosedWindow(s, k);
    if e.RunGoFive? && k !in s.fine { BucketEmpty(s.raw, k, Always); }
  }

  lemma ClosedRowExact(s: Store, es: seq<Event>, k: Key)
    requires SoundStore(s) && IsBucket(k) && k.bucket + FIVE_MIN <= s.now && Complete(s, k) && Quiet(es, k, Five)
    ensures Complete(Run(s, es), k) <==> NeverSplit(s, es, k)
  {
    hide FloorFive, HourOf, Complete, SoundStore;
    RowsExactly(s, es, k);
    OnlySplitsDecide(s, es, k);
  }

  /** Once a bucket has been visited in the five minutes after it closed, and no sample of it comes
      later, its row equals the full recomputation at every later time if and only if no later web run
      splits it, whatever the Go engine does. */
  lemma WebRowExact(s: Store, es: seq<Event>, k: Key)
    requires SoundStore(s) && IsBucket(k)
    requires k.bucket + FIVE_MIN <= s.now < k.bucket + 2 * FIVE_MIN
    requires Quiet(es, k, Five)
    ensures Complete(Run(WebFive(s), es), k) <==> NeverSplit(WebFive(s), es, k)
  {
    hide FloorFive, HourOf, SoundStore, Complete, WebFive, Bucket;
    RowHasSamples(s, k);
    FirstVisitCompletes(s, k);
    StepSound(s, RunWebFive);
    ClosedRowExact(Step(s, RunWebFive), es, k);
  }

  lemma RowHasSamples(s: Store, k: Key)
    requires SoundStore(s)
    ensures k in s.fine ==> Bucket(s.raw, k, Five) != []
    ensures WebFive(s) == Step(s, RunWebFive) && Step(s, RunWebFive).now == s.now
  {
    hide FloorFive, HourOf, Groups;
    if k in s.fine { assert Sound(s.fine[k], Bucket(s.raw, k, Five)); }
  }

  // ---------- the web engine on its schedule ----------

  /** Runs happen at every multiple of five minutes and at no other time; a sample arrives before the
      run that closes its bucket and never lies exactly on a bucket boundary.  `due` is the next run. */
  ghost predicate Scheduled(s: Store, due: int, es: seq<Event>)
    decreases |es|
  {
    es == [] ||
    (var e, t := es[0], Step(s, es[0]);
     match e
     case Tick(dt) => s.now + dt <= due && Scheduled(t, due, es[1..])
     case Ingest(x) => due - FIVE_MIN < x.at < due && s.now < due && Scheduled(t, due, es[1..])
     case RunWebFive => s.now == due && Scheduled(t, due + FIVE_MIN, es[1..])
     case RunWebHourly => Scheduled(t, due, es[1..])
     case _ => false)
  }

  /** The next run due after such a history. */
  ghost function DueAfter(due: int, es: seq<Event>): int
    decreases |es|
  {
    if es == [] then due else DueAfter(NextDue(due, es[0]), es[1..])
  }

  /** Samples respect the schedule, rows exist only for closed buckets, and those are complete. */
  ghost predicate UpToDate(s: Store, due: int) {
    && due % FIVE_MIN == 0 && s.now <= due
    && (forall x :: x in s.raw ==> x.at < due && x.at != FloorFive(x.at))
    && (forall k :: k in s.fine ==> IsBucket(k) && k.bucket + FIVE_MIN <= due - FIVE_MIN)
    && (forall k :: IsBucket(k) && k.bucket + FIVE_MIN <= due - FIVE_MIN ==> Complete(s, k))
  }

  lemma ScheduledIngest(s: Store, due: int, x: Sample)
    requires UpToDate(s, due) && due - FIVE_MIN < x.at < due
    ensures UpToDate(Step(s, Ingest(x)), due)
  {
    hide FloorFive, HourOf;
    var s' := Step(s, Ingest(x));
    MultipleBelow(due);
    FloorFiveUnique(x.at, due - FIVE_MIN);
    forall k | IsBucket(k) && k.bucket + FIVE_MIN <= due - FIVE_MIN ensures Complete(s', k) {
      assert Complete(s, k);
      BucketUntouched(s.raw, x, k);
    }
  }

  lemma MultipleBelow(due: int)
    requires due % FIVE_MIN == 0
    ensures (due - FIVE_MIN) % FIVE_MIN == 0 && (due + FIVE_MIN) % FIVE_MIN == 0
  {
  }

  lemma ScheduledRun(s: Store, due: int)
    requires UpToDate(s, due) && s.now == due
    ensures UpToDate(WebFive(s), due + FIVE_MIN)
  {
    hide FloorFive, HourOf;
    var s' := WebFive(s);
    MultipleBelow(due);
    forall k | IsBucket(k) && k.bucket + FIVE_MIN <= due ensures Complete(s', k) {
      FloorFiveIsFloor(k.bucket);
      if k.bucket + FIVE_MIN == due {
        FirstVisitCompletes(s, k);
      } else {
        MultipleBelow(due - FIVE_MIN);
        ClosedEarlier(k, due);
        RevisitKeepsComplete(s, k);
        BoundaryFreeNeverSplits(s, due, k);
      }
    }
    forall k | k in s'.fine ensures IsBucket(k) && k.bucket + FIVE_MIN <= due {
      GroupsMembers(s.raw, WebWindow(s.now), k);
      if k !in s.fine { NewRowIsClosed(s, due, k); }
    }
  }

  lemma ClosedEarlier(k: Key, due: int)
    requires IsBucket(k) && due % FIVE_MIN == 0 && k.bucket + FIVE_MIN < due
    ensures k.bucket + FIVE_MIN <= due - FIVE_MIN
  {
    hide FloorFive;
    FloorFiveIsFloor(k.bucket);
    MultipleBelow(due);
    MultipleBelow(due - FIVE_MIN);
    MultipleBelow(due - 2 * FIVE_MIN);
    if k.bucket > due - 2 * FIVE_MIN { MultiplesApart(k.bucket, due - FIVE_MIN); }
  }

  lemma NewRowIsClosed(s: Store, due: int, k: Key)
    requires UpToDate(s, due) && s.now == due && Select(s.raw, k, Five, WebWindow(due)) != []
    ensures IsBucket(k) && k.bucket + FIVE_MIN <= due
  {
    hide FloorFive, HourOf;
    SelectMembers(s.raw, k, Five, WebWindow(due));
    var x := Select(s.raw, k, Five, WebWindow(due))[0];
    InBucketBounds(x, k);
    FloorFiveIsFloor(k.bucket);
    if k.bucket + FIVE_MIN > due { MultiplesApart(k.bucket, due); }
  }

  lemma BoundaryFreeNeverSplits(s: Store, due: int, k: Key)
    requires UpToDate(s, due) && s.now == due && IsBucket(k) && k.bucket + FIVE_MIN <= due - FIVE_MIN
    ensures !Splits(s, k)
  {
    hide FloorFive, HourOf;
    forall x, y | x in s.raw && InBucket(x, k) && x.at <= due - 2 * FIVE_MIN && y in s.raw && InBucket(y, k)
      ensures y.at <= due - 2 * FIVE_MIN
    {
      InBucketBounds(x, k);
      InBucketBounds(y, k);
      FloorFiveIsFloor(k.bucket);
      MultipleBelow(due);
      MultipleBelow(due - FIVE_MIN);
      if due - 2 * FIVE_MIN < y.at { MultiplesApart(k.bucket, due - 2 * FIVE_MIN); }
    }
  }

  ghost function NextDue(due: int, e: Event): int {
    if e.RunWebFive? then due + FIVE_MIN else due
  }

  lemma ScheduledStep(s: Store, due: int, es: seq<Event>)
    requires UpToDate(s, due) && es != [] && Scheduled(s, due, es)
    ensures UpToDate(Step(s, es[0]), NextDue(due, es[0]))
    ensures Scheduled(Step(s, es[0]), NextDue(due, es[0]), es[1..])
  {
    hide FloorFive, HourOf, UpToDate;
    match es[0]
    case Tick(dt) => TickKeeps(s, due, dt);
    case Ingest(x) => ScheduledIngest(s, due, x);
    case RunWebFive => RunIsDue(s, due);
    case RunWebHourly => HourlyKeeps(s, due);
  }

  lemma {:induction false} ScheduledKeeps(s: Store, due: int, es: seq<Event>)
    requires UpToDate(s, due) && Scheduled(s, due, es)
    ensures UpToDate(Run(s, es), DueAfter(due, es))
    decreases |es|
  {
    hide FloorFive, HourOf, UpToDate, Scheduled, Step;
    if es != [] {
      ScheduledStep(s, due, es);
      ScheduledKeeps(Step(s, es[0]), NextDue(due, es[0]), es[1..]);
    }
  }

  lemma TickKeeps(s: Store, due: int, dt: nat)
    requires UpToDate(s, due) && s.now + dt <= due
    ensures UpToDate(Step(s, Tick(dt)), due)
  {
    hide FloorFive, HourOf, Bucket, Aggregate, HourGroups, WebHourWindow;
    forall k | IsBucket(k) && k.bucket + FIVE_MIN <= due - FIVE_MIN ensures Complete(Step(s, Tick(dt)), k) {
      assert Complete(s, k);
    }
  }

  lemma HourlyKeeps(s: Store, due: int)
    requires UpToDate(s, due)
    ensures UpToDate(Step(s, RunWebHourly), due)
  {
    hide FloorFive, HourOf, Bucket, Aggregate, HourGroups, WebHourWindow;
    forall k | IsBucket(k) && k.bucket + FIVE_MIN <= due - FIVE_MIN ensures Complete(Step(s, RunWebHourly), k) {
      assert Complete(s, k);
    }
  }

  lemma RunIsDue(s: Store, due: int)
    requires UpToDate(s, due) && s.now == due
    ensures UpToDate(Step(s, RunWebFive), due + FIVE_MIN)
  {
    hide FloorFive, HourOf, UpToDate;
    ScheduledRun(s, due);
  }

  /** The number of samples older than a point in time. */
  function OlderThan(raw: seq<Sample>, t: int): nat {
    if raw == [] then 0 else OlderThan(raw[..|raw| - 1], t) + if raw[|raw| - 1].at < t then 1 else 0
  }

  lemma {:induction false} CoveredIsOlder(raw: seq<Sample>, keys: set<Key>, t: int)
    requires forall x :: x in raw ==> (x.at < t <==> KeyOf(x, Five) in keys)
    ensures Covered(raw, Five, keys) == OlderThan(raw, t)
  {
    hide FloorFive, HourOf;
    if raw != [] {
      var n := |raw| - 1;
      assert raw == raw[..n] + [raw[n]];
      CoveredIsOlder(raw[..n], keys, t);
    }
  }

  /** The web engine on its schedule: after every run each closed bucket holds the full recomputation,
      and the counts of all rows sum to the number of samples taken before the run. */
  lemma ScheduledRunExact(start: int, es: seq<Event>, k: Key)
    requires start % FIVE_MIN == 0
    requires Scheduled(Store(start, [], map[], map[]), start + FIVE_MIN, es) && es != [] && es[|es| - 1].RunWebFive?
    ensures var s := Run(Store(start, [], map[], map[]), es);
            && (IsBucket(k) && k.bucket + FIVE_MIN <= s.now ==> Complete(s, k))
            && Total(s.fine) == OlderThan(s.raw, s.now) == |s.raw|
  {
    hide FloorFive, HourOf, Scheduled, UpToDate;
    var s0 := Store(start, [], map[], map[]);
    EmptyUpToDate(start);
    ScheduledKeeps(s0, start + FIVE_MIN, es);
    LastRun(s0, start + FIVE_MIN, es);
    UpToDateExact(Run(s0, es), k);
  }

  lemma EmptyUpToDate(start: int)
    requires start % FIVE_MIN == 0
    ensures UpToDate(Store(start, [], map[], map[]), start + FIVE_MIN)
  {
    hide FloorFive, HourOf;
    MultipleBelow(start);
  }

  lemma {:induction false} LastRun(s: Store, due: int, es: seq<Event>)
    requires UpToDate(s, due) && Scheduled(s, due, es) && es != [] && es[|es| - 1].RunWebFive?
    ensures DueAfter(due, es) == Run(s, es).now + FIVE_MIN
    ensures forall x :: x in Run(s, es).raw ==> x.at < Run(s, es).now
    decreases |es|
  {
    hide UpToDate, Scheduled, Step;
    if |es| == 1 {
      DueRun(s, due, es);
    } else {
      ScheduledStep(s, due, es);
      LastRun(Step(s, es[0]), NextDue(due, es[0]), es[1..]);
    }
  }

  lemma DueRun(s: Store, due: int, es: seq<Event>)
    requires UpToDate(s, due) && Scheduled(s, due, es) && |es| == 1 && es[0].RunWebFive?
    ensures Run(s, es) == WebFive(s) && s.now == due && DueAfter(due, es) == due + FIVE_MIN
    ensures forall x :: x in s.raw ==> x.at < due
  {
    hide FloorFive, HourOf, WebFive;
    assert es[1..] == [];
  }

  lemma RowIsComplete(s: Store, k: Key)
    requires UpToDate(s, s.now + FIVE_MIN) && k in s.fine
    ensures s.fine[k].count == |Bucket(s.raw, k, Five)|
  {
    hide FloorFive, HourOf;
    assert Complete(s, k);
  }

  lemma SampleHasRow(s: Store, x: Sample)
    requires UpToDate(s, s.now + FIVE_MIN) && x in s.raw && x.at < s.now
    ensures KeyOf(x, Five) in s.fine
  {
    hide FloorFive, HourOf;
    var k := KeyOf(x, Five);
    InBucketBounds(x, k);
    MultipleBelow(s.now + FIVE_MIN);
    FloorFiveIsFloor(x.at);
    if k.bucket + FIVE_MIN > s.now { MultiplesApart(k.bucket, s.now); }
    assert Complete(s, k);
    SelectMembers(s.raw, k, Five, Always);
  }

  lemma {:induction false} AllOlder(raw: seq<Sample>, t: int)
    requires forall x :: x in raw ==> x.at < t
    ensures OlderThan(raw, t) == |raw|
  {
    if raw != [] {
      assert raw[|raw| - 1] in raw;
      AllOlder(raw[..|raw| - 1], t);
    }
  }

  lemma UpToDateExact(s: Store, k: Key)
    requires UpToDate(s, s.now + FIVE_MIN)
    requires forall x :: x in s.raw ==> x.at < s.now
    ensures IsBucket(k) && k.bucket + FIVE_MIN <= s.now ==> Complete(s, k)
    ensures Total(s.fine) == OlderThan(s.raw, s.now) == |s.raw|
  {
    hide FloorFive, HourOf;
    forall j | j in s.fine ensures s.fine[j].count == |Bucket(s.raw, j, Five)| {
      RowIsComplete(s, j);
    }
    TotalExact(s.fine, s.raw, Five);
    forall x | x in s.raw ensures KeyOf(x, Five) in s.fine {
      SampleHasRow(s, x);
    }
    CoveredIsOlder(s.raw, s.fine.Keys, s.now);
    AllOlder(s.raw, s.now);
  }

  // ---------- the Go engine ----------

  /** Only the Go engine writes 5-minute rows. */
  ghost predicate GoOnly(es: seq<Event>) {
    forall e :: e in es ==> !e.RunWebFive?
  }

  ghost predicate Extends(a: map<Key, Row>, b: map<Key, Row>) {
    forall k :: k in a ==> k in b && b[k] == a[k]
  }

  lemma GoStepExtends(s: Store, e: Event)
    requires !e.RunWebFive?
    ensures Extends(s.fine, Step(s, e).fine)
  {
    hide Groups, HourGroups;
  }

  /** Rows once inserted never change and max(bucket) never decreases. */
  lemma {:induction false} GoRowsFrozen(s: Store, es: seq<Event>)
    requires GoOnly(es)
    ensures Extends(s.fine, Run(s, es).fine)
    ensures s.fine != map[] ==>
            Run(s, es).fine != map[] && Watermark(s.fine.Keys, 0) <= Watermark(Run(s, es).fine.Keys, 0)
    decreases |es|
  {
    hide Step;
    if es != [] {
      GoStepExtends(s, es[0]);
      GoRowsFrozen(Step(s, es[0]), es[1..]);
    }
    if s.fine != map[] {
      var k :| k in s.fine.Keys && k.bucket == Watermark(s.fine.Keys, 0);
      assert k in Run(s, es).fine.Keys;
    }
  }

  /** Which rows a run adds: those of samples past the watermark that have no row yet. */
  lemma GoAdds(s: Store, k: Key)
    requires k !in s.fine
    ensures k in GoFive(s).fine <==>
            exists x :: x in s.raw && InBucket(x, k) && Watermark(s.fine.Keys, s.now - HOUR) < x.at
  {
    hide FloorFive, HourOf, Watermark, Select;
    var w := After(Watermark(s.fine.Keys, s.now - HOUR));
    GroupsMembers(s.raw, w, k);
    BucketEmpty(s.raw, k, w);
  }

  /** An added row is the full recomputation exactly when the watermark cuts off none of its bucket. */
  lemma GoAddsExact(s: Store, k: Key)
    requires k !in s.fine
    ensures k in GoFive(s).fine ==>
              (Complete(GoFive(s), k) <==>
               forall x :: x in s.raw && InBucket(x, k) ==> Watermark(s.fine.Keys, s.now - HOUR) < x.at)
  {
    hide FloorFive, HourOf, Watermark, Select;
    var w := After(Watermark(s.fine.Keys, s.now - HOUR));
    GroupsMembers(s.raw, w, k);
    if k in GoFive(s).fine { WindowExact(s.raw, k, w); }
  }

  /** Running again with no new sample adds a row exactly when a sample past the new watermark has none. */
  lemma GoRerun(s: Store, dt: nat)
    ensures var t := Step(GoFive(s), Tick(dt));
            GoFive(t).fine == t.fine <==>
            forall x :: x in s.raw && Watermark(t.fine.Keys, t.now - HOUR) < x.at ==> KeyOf(x, Five) in t.fine
  {
    hide FloorFive, HourOf, Watermark, Groups;
    var t := Step(GoFive(s), Tick(dt));
    forall k | k !in t.fine
      ensures k in GoFive(t).fine <==>
              exists x :: x in s.raw && InBucket(x, k) && Watermark(t.fine.Keys, t.now - HOUR) < x.at
    {
      GoAdds(t, k);
    }
    assert Extends(t.fine, GoFive(t).fine);
    if x :| x in s.raw && Watermark(t.fine.Keys, t.now - HOUR) < x.at && KeyOf(x, Five) !in t.fine {
      assert InBucket(x, KeyOf(x, Five));
      assert KeyOf(x, Five) in GoFive(t).fine;
    } else {
      assert forall k :: k in GoFive(t).fine ==> k in t.fine;
    }
  }

  /** From a non-empty table a second run with no new sample changes nothing. */
  lemma GoIdempotent(s: Store, dt: nat)
    requires s.fine != map[]
    ensures var t := Step(GoFive(s), Tick(dt)); GoFive(t).fine == t.fine
  {
    hide FloorFive, HourOf, Watermark, Groups;
    var t := Step(GoFive(s), Tick(dt));
    assert Extends(s.fine, t.fine);
    WatermarkGrows(s.fine.Keys, t.fine.Keys, s.now - HOUR, t.now - HOUR);
    forall x | x in s.raw && Watermark(t.fine.Keys, t.now - HOUR) < x.at ensures KeyOf(x, Five) in t.fine {
      var k := KeyOf(x, Five);
      assert InBucket(x, k);
      if k !in s.fine { GoAdds(s, k); }
    }
    GoRerun(s, dt);
  }

  lemma WatermarkGrows(a: set<Key>, b: set<Key>, fa: int, fb: int)
    requires a != {} && a <= b
    ensures Watermark(a, fa) <= Watermark(b, fb)
  {
    var k :| k in a && k.bucket == Watermark(a, fa);
    assert k in b;
  }

  lemma {:induction false} BucketGrows(s: Store, es: seq<Event>, k: Key, g: Grain)
    ensures |Bucket(s.raw, k, g)| <= |Bucket(Run(s, es).raw, k, g)|
    ensures Quiet(es, k, g) ==> Bucket(Run(s, es).raw, k, g) == Bucket(s.raw, k, g)
    ensures !Quiet(es, k, g) ==> |Bucket(s.raw, k, g)| < |Bucket(Run(s, es).raw, k, g)|
    decreases |es|
  {
    if es != [] {
      hide KeyOf, Step, Bucket;
      var e := es[0];
      StepGrows(s, e, k, g);
      assert es == [e] + es[1..];
      BucketGrows(Step(s, e), es[1..], k, g);
    }
  }

  lemma StepGrows(s: Store, e: Event, k: Key, g: Grain)
    ensures Bucket(Step(s, e).raw, k, g) ==
            Bucket(s.raw, k, g) + if e.Ingest? && KeyOf(e.sample, g) == k then [e.sample] else []
  {
    hide KeyOf, Groups, HourGroups, Watermark;
    if e.Ingest? {
      SelectAppend(s.raw, e.sample, k, g, Always);
    } else {
      assert Bucket(s.raw, k, g) + [] == Bucket(s.raw, k, g);
    }
  }

  /** The Go engine, exactly: a row equals the full recomputation at a later time if and only if it did
      when it was written and no sample of its bucket has arrived since. */
  lemma GoRowExact(s: Store, es: seq<Event>, k: Key)
    requires SoundStore(s) && GoOnly(es) && k in s.fine
    ensures Complete(Run(s, es), k) <==> Complete(s, k) && Quiet(es, k, Five)
  {
    hide FloorFive, HourOf, Bucket;
    GoRowsFrozen(s, es);
    BucketGrows(s, es, k, Five);
    assert Sound(s.fine[k], Bucket(s.raw, k, Five));
  }
}
