/** What the averages, maxima and counts of the two tables are: they do not depend on the order of the
    rows, a 5-minute average is the mean, and an hour is computed from complete rows without loss. */
module RollupMeans {
  import opened Rollup
  import opened RollupSoundness
  import opened RollupExactness

  // ---------- the order of rows does not matter ----------

  lemma {:induction false} SumConcat(a: seq<Sample>, b: seq<Sample>)
    ensures Sum(a + b) == Sum(a) + Sum(b)
  {
    if b == [] {
      assert a + b == a;
    } else {
      var n := |b| - 1;
      assert (a + b)[..|a + b| - 1] == a + b[..n];
      SumConcat(a, b[..n]);
    }
  }

  lemma SumOfOne(x: Sample)
    ensures Sum([x]) == x.cpu
  {
    assert [x][..0] == [];
  }

  lemma SumWithout(xs: seq<Sample>, i: nat)
    requires i < |xs|
    ensures Sum(xs) == Sum(xs[..i] + xs[i + 1..]) + xs[i].cpu
  {
    hide Sum;
    assert xs == xs[..i] + [xs[i]] + xs[i + 1..];
    SumConcat(xs[..i] + [xs[i]], xs[i + 1..]);
    SumConcat(xs[..i], [xs[i]]);
    SumConcat(xs[..i], xs[i + 1..]);
    SumOfOne(xs[i]);
  }

  lemma MultisetWithout(xs: seq<Sample>, i: nat)
    requires i < |xs|
    ensures multiset(xs[..i] + xs[i + 1..]) == multiset(xs) - multiset{xs[i]}
  {
    assert xs == xs[..i] + [xs[i]] + xs[i + 1..];
  }

  lemma {:induction false} SumPermuted(xs: seq<Sample>, ys: seq<Sample>)
    requires multiset(xs) == multiset(ys)
    ensures |xs| == |ys| && Sum(xs) == Sum(ys)
    decreases |xs|
  {
    assert |multiset(xs)| == |xs| && |multiset(ys)| == |ys|;
    if xs != [] {
      var n := |xs| - 1;
      var x := xs[n];
      assert xs[..n] + xs[n + 1..] == xs[..n];
      assert x in multiset(ys);
      var i :| 0 <= i < |ys| && ys[i] == x;
      MultisetWithout(xs, n);
      MultisetWithout(ys, i);
      SumPermuted(xs[..n], ys[..i] + ys[i + 1..]);
      SumWithout(ys, i);
    }
  }

  lemma PeakIs(xs: seq<Sample>, p: real)
    requires xs != []
    ensures p == Peak(xs) <==> (exists x :: x in xs && x.cpu == p) && forall x :: x in xs ==> x.cpu <= p
  {
    PeakAttained(xs);
  }

  /** A group's row depends only on which samples it holds, not on the order the table has them in. */
  lemma AggregateOrderFree(xs: seq<Sample>, ys: seq<Sample>)
    requires xs != [] && multiset(xs) == multiset(ys)
    ensures ys != [] && Aggregate(xs) == Aggregate(ys)
  {
    SumPermuted(xs, ys);
    assert forall x :: x in xs <==> x in multiset(xs);
    assert forall y :: y in ys <==> y in multiset(ys);
    hide Sum, Peak;
    PeakIs(xs, Peak(xs));
    PeakIs(ys, Peak(xs));
  }

  // ---------- the average is the mean ----------

  /** The sum of the samples' distances from m. */
  function Deviations(xs: seq<Sample>, m: real): real {
    if xs == [] then 0.0 else Deviations(xs[..|xs| - 1], m) + (xs[|xs| - 1].cpu - m)
  }

  lemma {:induction false} DeviationsFromSum(xs: seq<Sample>, m: real)
    ensures Deviations(xs, m) == Sum(xs) - Times(|xs|, m)
  {
    if xs != [] { DeviationsFromSum(xs[..|xs| - 1], m); }
  }

  lemma QuotientExactly(sum: real, d: real, m: real)
    requires d > 0.0
    ensures sum == d * m <==> m == sum / d
  {
  }

  /** The average of a group is the one value from which the samples' deviations cancel. */
  lemma MeanExactly(xs: seq<Sample>, m: real)
    requires xs != []
    ensures Deviations(xs, m) == 0.0 <==> m == Aggregate(xs).avg
  {
    hide Deviations, Sum, Times;
    DeviationsFromSum(xs, m);
    TimesIsProduct(|xs|, m);
    QuotientExactly(Sum(xs), |xs| as real, m);
  }

  // ---------- the buckets of an hour ----------

  lemma {:induction false} SlotsGainOne(raw: seq<Sample>, x: Sample, asset: int, lo: int, hi: int)
    requires lo % FIVE_MIN == 0 && hi % FIVE_MIN == 0
    ensures multiset(Slots(raw + [x], asset, lo, hi)) ==
            multiset(Slots(raw, asset, lo, hi)) + if x.asset == asset && lo <= x.at < hi then multiset{x} else multiset{}
    decreases hi - lo
  {
    hide FloorFive, HourOf;
    if lo < hi {
      SlotBefore(x.at, lo, hi);
      SlotsGainOne(raw, x, asset, lo, hi - FIVE_MIN);
      SelectAppend(raw, x, Key(asset, hi - FIVE_MIN), Five, Always);
    }
  }

  /** The samples of the twelve five-minute buckets are exactly the samples of the hour. */
  lemma {:induction false} SlotsAreTheHour(raw: seq<Sample>, k: Key)
    requires HourOf(k.bucket) == k.bucket
    ensures multiset(Slots(raw, k.asset, k.bucket, k.bucket + HOUR)) == multiset(Bucket(raw, k, Hourly))
  {
    hide FloorFive, HourOf;
    if raw == [] {
      SlotsEmpty(k.asset, k.bucket, k.bucket + HOUR);
    } else {
      var n := |raw| - 1;
      var x := raw[n];
      assert raw == raw[..n] + [x];
      HourIsInterval(x.at, k.bucket);
      SlotsAreTheHour(raw[..n], k);
      SlotsGainOne(raw[..n], x, k.asset, k.bucket, k.bucket + HOUR);
      SelectAppend(raw[..n], x, k, Hourly, Always);
    }
  }

  /** The total a list of rows stands for: each average weighted by its count. */
  ghost function Weighted(rows: seq<Row>): real {
    if rows == [] then 0.0 else Weighted(rows[..|rows| - 1]) + Times(rows[|rows| - 1].count, rows[|rows| - 1].avg)
  }

  /** Every five-minute bucket between lo and hi is complete and its row is in the window. */
  ghost predicate AllSeen(s: Store, asset: int, w: Window, lo: int, hi: int) {
    forall f: Key :: f.asset == asset && f.bucket % FIVE_MIN == 0 && lo <= f.bucket < hi ==>
      Complete(s, f) && (f in s.fine ==> w.Contains(f.bucket))
  }

  lemma WeightOfAggregate(xs: seq<Sample>)
    requires xs != []
    ensures Times(Aggregate(xs).count, Aggregate(xs).avg) == Sum(xs)
  {
    TimesIsProduct(|xs|, Aggregate(xs).avg);
    QuotientExactly(Sum(xs), |xs| as real, Aggregate(xs).avg);
  }

  lemma PeakConcat(a: seq<Sample>, b: seq<Sample>)
    requires a != [] && b != []
    ensures Peak(a + b) == if Peak(a) < Peak(b) then Peak(b) else Peak(a)
  {
    hide Peak;
    PeakIs(a, Peak(a));
    PeakIs(b, Peak(b));
    PeakIs(a + b, if Peak(a) < Peak(b) then Peak(b) else Peak(a));
  }

  /** The rows between lo and hi stand for the samples between lo and hi. */
  ghost predicate StandFor(rows: seq<Row>, xs: seq<Sample>) {
    && SumCount(rows) == |xs| && Weighted(rows) == Sum(xs)
    && (rows == [] <==> xs == [])
    && (rows != [] ==> PeakOf(rows) == Peak(xs))
  }

  lemma StandForMore(rows: seq<Row>, xs: seq<Sample>, b: seq<Sample>)
    requires StandFor(rows, xs) && b != []
    ensures StandFor(rows + [Aggregate(b)], xs + b)
  {
    var more := rows + [Aggregate(b)];
    assert more[..|rows|] == rows;
    SumConcat(xs, b);
    WeightOfAggregate(b);
    if xs == [] {
      assert xs + b == b;
    } else {
      PeakConcat(xs, b);
    }
  }

  lemma SeenSplits(s: Store, asset: int, w: Window, lo: int, hi: int)
    requires AllSeen(s, asset, w, lo, hi) && lo % FIVE_MIN == 0 && hi % FIVE_MIN == 0 && lo < hi
    ensures lo <= hi - FIVE_MIN && (hi - FIVE_MIN) % FIVE_MIN == 0 && AllSeen(s, asset, w, lo, hi - FIVE_MIN)
    ensures var f := Key(asset, hi - FIVE_MIN); Complete(s, f) && (f in s.fine ==> w.Contains(f.bucket))
  {
    hide Complete, FloorFive;
    SlotBefore(lo, lo, hi);
  }

  lemma {:induction false} RowsStandFor(s: Store, asset: int, w: Window, lo: int, hi: int)
    requires lo % FIVE_MIN == 0 && hi % FIVE_MIN == 0 && AllSeen(s, asset, w, lo, hi)
    ensures StandFor(RowsBetween(s.fine, asset, w, lo, hi), Slots(s.raw, asset, lo, hi))
    decreases hi - lo
  {
    if lo < hi {
      hide FloorFive, HourOf, AllSeen, StandFor, Aggregate, Bucket;
      SeenSplits(s, asset, w, lo, hi);
      RowsStandFor(s, asset, w, lo, hi - FIVE_MIN);
      var rows, xs := RowsBetween(s.fine, asset, w, lo, hi - FIVE_MIN), Slots(s.raw, asset, lo, hi - FIVE_MIN);
      var b := Bucket(s.raw, Key(asset, hi - FIVE_MIN), Five);
      if b == [] {
        assert xs + b == xs && rows + [] == rows;
      } else {
        StandForMore(rows, xs, b);
      }
    }
  }

  lemma StandForPermuted(rows: seq<Row>, xs: seq<Sample>, ys: seq<Sample>)
    requires StandFor(rows, xs) && multiset(xs) == multiset(ys) && ys != []
    ensures rows != [] && Combine(rows).count == |ys| && Combine(rows).peak == Peak(ys) && Weighted(rows) == Sum(ys)
  {
    SumPermuted(xs, ys);
    AggregateOrderFree(ys, xs);
  }

  /** From complete rows that are all in the window, an hour's count and maximum are those of its raw
      samples, and its rows together weigh what the samples sum to. */
  lemma HourConserved(s: Store, k: Key, w: Window)
    requires HourOf(k.bucket) == k.bucket && AllSeen(s, k.asset, w, k.bucket, k.bucket + HOUR)
    requires Bucket(s.raw, k, Hourly) != []
    ensures var rows, xs := RowsOfHour(s.fine, k, w), Bucket(s.raw, k, Hourly);
            && rows != []
            && Combine(rows).count == |xs| && Combine(rows).peak == Peak(xs)
            && Weighted(rows) == Sum(xs)
  {
    hide FloorFive, HourOf, AllSeen, StandFor, Slots, Bucket, Combine, Weighted, Sum, Peak, RowsBetween;
    HourIsInterval(k.bucket, k.bucket);
    RowsStandFor(s, k.asset, w, k.bucket, k.bucket + HOUR);
    SlotsAreTheHour(s.raw, k);
    StandForPermuted(RowsOfHour(s.fine, k, w), Slots(s.raw, k.asset, k.bucket, k.bucket + HOUR), Bucket(s.raw, k, Hourly));
  }

  // ---------- when the average of averages is the mean ----------

  lemma TimesAdds(n: nat, a: real, b: real)
    ensures Times(n, a + b) == Times(n, a) + Times(n, b)
  {
    TimesIsProduct(n, a + b);
    TimesIsProduct(n, a);
    TimesIsProduct(n, b);
    Distributes(n as real, a, b);
  }

  lemma Distributes(n: real, a: real, b: real)
    ensures n * (a + b) == n * a + n * b
  {
  }

  lemma {:induction false} EqualWeights(rows: seq<Row>, c: nat)
    requires forall row :: row in rows ==> row.count == c
    ensures Weighted(rows) == Times(c, SumAvg(rows))
    ensures SumCount(rows) as real == Times(|rows|, c as real)
  {
    hide Times;
    if rows == [] {
      TimesIsProduct(c, 0.0);
      TimesIsProduct(0, c as real);
    } else {
      var n := |rows| - 1;
      assert rows == rows[..n] + [rows[n]] && rows[n] in rows;
      EqualWeights(rows[..n], c);
      TimesAdds(c, SumAvg(rows[..n]), rows[n].avg);
      TimesIsProduct(n, c as real);
      TimesIsProduct(n + 1, c as real);
      Distribute(n as real, c as real);
    }
  }

  lemma QuotientsEqualExactly(a: real, n: real, b: real, m: real)
    requires n > 0.0 && m > 0.0
    ensures a / n == b / m <==> m * a == n * b
  {
    var q, p := a / n, b / m;
    QuotientExactly(a, n, q);
    QuotientExactly(b, m, p);
    Regroup(m, n, q);
    Regroup(n, m, p);
    Cancel(n * m, q, p);
  }

  lemma Regroup(n: real, c: real, q: real)
    ensures n * (c * q) == n * c * q && n * c == c * n
  {
  }

  lemma Cancel(d: real, q: real, p: real)
    requires d != 0.0
    ensures d * q == d * p <==> q == p
  {
    assert d * q - d * p == d * (q - p);
  }

  /** Over the rows of an hour, counts and averages are uncorrelated. */
  ghost predicate Uncorrelated(rows: seq<Row>) {
    SumCount(rows) as real * SumAvg(rows) == |rows| as real * Weighted(rows)
  }

  lemma MeanWhenUncorrelated(rows: seq<Row>, xs: seq<Sample>)
    requires rows != [] && xs != [] && SumCount(rows) == |xs| && Weighted(rows) == Sum(xs)
    ensures Combine(rows).avg == Aggregate(xs).avg <==> Uncorrelated(rows)
  {
    hide Weighted, Sum, SumAvg, SumCount;
    QuotientsEqualExactly(SumAvg(rows), |rows| as real, Sum(xs), |xs| as real);
  }

  /** From complete rows that are all in the window, the hourly row is the aggregate of the hour's raw
      samples exactly when counts and averages are uncorrelated over those rows. */
  lemma HourExactly(s: Store, k: Key, w: Window)
    requires HourOf(k.bucket) == k.bucket && AllSeen(s, k.asset, w, k.bucket, k.bucket + HOUR)
    requires Bucket(s.raw, k, Hourly) != []
    ensures RowsOfHour(s.fine, k, w) != []
    ensures Combine(RowsOfHour(s.fine, k, w)) == Aggregate(Bucket(s.raw, k, Hourly)) <==>
            Uncorrelated(RowsOfHour(s.fine, k, w))
  {
    hide FloorFive, HourOf, AllSeen, Bucket, RowsOfHour, Weighted, Sum, SumAvg, SumCount, Peak, PeakOf, Uncorrelated;
    HourConserved(s, k, w);
    MeanWhenUncorrelated(RowsOfHour(s.fine, k, w), Bucket(s.raw, k, Hourly));
  }

  lemma EvenIsUncorrelated(rows: seq<Row>, c: nat)
    requires forall row :: row in rows ==> row.count == c
    ensures Uncorrelated(rows)
  {
    hide Weighted, SumAvg, SumCount, Times;
    EqualWeights(rows, c);
    TimesIsProduct(c, SumAvg(rows));
    TimesIsProduct(|rows|, c as real);
    Regroup(|rows| as real, c as real, SumAvg(rows));
  }

  /** In particular when the rows count equally many samples each. */
  lemma HourExactWhenEven(s: Store, k: Key, w: Window, c: nat)
    requires HourOf(k.bucket) == k.bucket && AllSeen(s, k.asset, w, k.bucket, k.bucket + HOUR)
    requires Bucket(s.raw, k, Hourly) != []
    requires forall row :: row in RowsOfHour(s.fine, k, w) ==> row.count == c
    ensures RowsOfHour(s.fine, k, w) != []
    ensures Combine(RowsOfHour(s.fine, k, w)) == Aggregate(Bucket(s.raw, k, Hourly))
  {
    hide FloorFive, HourOf, AllSeen, Bucket, RowsOfHour, Uncorrelated;
    HourExactly(s, k, w);
    EvenIsUncorrelated(RowsOfHour(s.fine, k, w), c);
  }
}
