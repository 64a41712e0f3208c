/** The three metric tables as the schedulers update them, one statement a method call. */
module MetricTables {
  import opened Rollup
  import opened RollupSoundness

  class Tables {
    var raw: seq<Sample>
    var fine: map<Key, Row>
    var hourly: map<Key, Row>

    ghost function View(now: int): Store
      reads this
    {
      Store(now, raw, fine, hourly)
    }

    constructor ()
      ensures raw == [] && fine == map[] && hourly == map[]
    {
      raw, fine, hourly := [], map[], map[];
    }

    method Insert(x: Sample)
      modifies this`raw
      ensures forall now :: View(now) == Step(old(View(now)), Ingest(x))
    {
      raw := raw + [x];
    }

    /** aggregate5m */
    method GoAggregate5m(now: int)
      modifies this`fine
      ensures View(now) == Step(old(View(now)), RunGoFive)
    {
      hide Groups, Watermark;
      var mark := MaxBucket(fine.Keys, now - HOUR);
      fine := Groups(raw, After(mark)) + fine;
    }

    /** aggregate1h */
    method GoAggregate1h(now: int)
      modifies this`hourly
      ensures View(now) == Step(old(View(now)), RunGoHourly)
    {
      hide HourGroups, Watermark;
      var mark := MaxBucket(hourly.Keys, now - DAY);
      hourly := HourGroups(fine, After(mark)) + hourly;
    }

    /** runAggregation of the Go scheduler */
    method GoAggregate(now: int)
      modifies this`fine, this`hourly
      ensures View(now) == Run(old(View(now)), [RunGoFive, RunGoHourly])
      ensures SoundStore(old(View(now))) ==> SoundStore(View(now))
    {
      ghost var before := View(now);
      GoAggregate5m(now);
      GoAggregate1h(now);
      assert Run(before, [RunGoFive, RunGoHourly]) == Run(Step(before, RunGoFive), [RunGoHourly]);
      if SoundStore(before) { RunSound(before, [RunGoFive, RunGoHourly]); }
    }

    /** runAggregation of the web scheduler */
    method WebAggregate(now: int)
      modifies this`fine, this`hourly
      ensures View(now) == Run(old(View(now)), [RunWebFive, RunWebHourly])
      ensures SoundStore(old(View(now))) ==> SoundStore(View(now))
    {
      ghost var before := View(now);
      fine := fine + Groups(raw, WebWindow(now));
      hourly := hourly + HourGroups(fine, WebHourWindow(now));
      assert Run(before, [RunWebFive, RunWebHourly]) == Run(Step(before, RunWebFive), [RunWebHourly]);
      if SoundStore(before) { RunSound(before, [RunWebFive, RunWebHourly]); }
    }
  }

  /** COALESCE(max(bucket), fallback) */
  method MaxBucket(keys: set<Key>, fallback: int) returns (m: int)
    ensures m == Watermark(keys, fallback)
  {
    if keys == {} { return fallback; }
    var first :| first in keys;
    m := first.bucket;
    var rest := keys - {first};
    while rest != {}
      invariant rest <= keys
      invariant exists k :: k in keys && k.bucket == m
      invariant forall k :: k in keys - rest ==> k.bucket <= m
      decreases rest
    {
      var k :| k in rest;
      if k.bucket > m { m := k.bucket; }
      rest := rest - {k};
    }
  }
}
