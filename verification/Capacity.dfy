/** The least-squares line behind the capacity forecast, over exact reals. */
module Capacity {
  function Times(a: real, b: real): real { a * b }

  datatype Line = Line(slope: real, intercept: real) {
    function At(i: int): real { intercept + slope * i as real }
  }

  // ---------- the sums linearRegression reduces ----------

  function SumX(n: nat): real {
    if n == 0 then 0.0 else SumX(n - 1) + (n - 1) as real
  }

  function SumXX(n: nat): real {
    if n == 0 then 0.0 else SumXX(n - 1) + Times((n - 1) as real, (n - 1) as real)
  }

  function SumY(ys: seq<real>, n: nat): real
    requires n <= |ys|
  {
    if n == 0 then 0.0 else SumY(ys, n - 1) + ys[n - 1]
  }

  function SumXY(ys: seq<real>, n: nat): real
    requires n <= |ys|
  {
    if n == 0 then 0.0 else SumXY(ys, n - 1) + Times((n - 1) as real, ys[n - 1])
  }

  function Denom(n: nat): real {
    n as real * SumXX(n) - SumX(n) * SumX(n)
  }

  /** The line from the five sums: slope and intercept, unless the denominator is zero. */
  function Fit(n: real, sx: real, sxx: real, sy: real, sxy: real): Line
    requires n > 0.0
  {
    var denom := n * sxx - sx * sx;
    if denom == 0.0 then Line(0.0, sy / n)
    else
      var slope := (n * sxy - sx * sy) / denom;
      Line(slope, (sy - slope * sx) / n)
  }

  function LinearRegression(ys: seq<real>): Line {
    var n := |ys|;
    if n == 0 then Line(0.0, 0.0)
    else if n == 1 then Line(0.0, ys[0])
    else Fit(n as real, SumX(n), SumXX(n), SumY(ys, n), SumXY(ys, n))
  }

  // ---------- the denominator ----------

  /** The sums of the first indices and of their squares, in closed form. */
  ghost predicate ClosedForm(n: real, sx: real, sxx: real) {
    2.0 * sx == n * (n - 1.0) && 6.0 * sxx == n * (n - 1.0) * (2.0 * n - 1.0)
  }

  lemma ClosedFormStep(m: real, sx: real, sxx: real)
    requires ClosedForm(m, sx, sxx)
    ensures ClosedForm(m + 1.0, sx + m, sxx + Times(m, m))
  {
    assert 2.0 * (sx + m) == (m + 1.0) * m;
    assert 6.0 * (sxx + m * m) == (m + 1.0) * m * (2.0 * m + 1.0);
  }

  lemma {:induction false} SumsClosed(n: nat)
    ensures ClosedForm(n as real, SumX(n), SumXX(n))
  {
    if n > 0 {
      hide ClosedForm, Times;
      SumsClosed(n - 1);
      ClosedFormStep((n - 1) as real, SumX(n - 1), SumXX(n - 1));
      assert n as real == (n - 1) as real + 1.0;
    }
  }

  lemma DenomIdentity(n: real, sx: real, sxx: real)
    requires ClosedForm(n, sx, sxx)
    ensures n * sxx - sx * sx == Quartic(n) / 12.0
  {
    assert 12.0 * (n * sxx) == 2.0 * n * (6.0 * sxx);
    assert 4.0 * (sx * sx) == (n * (n - 1.0)) * (n * (n - 1.0));
  }

  /** n^2 (n^2 - 1) */
  function Quartic(n: real): real {
    n * n * (n * n - 1.0)
  }

  lemma QuarticPositive(n: real)
    requires n > 1.0
    ensures Quartic(n) > 0.0
  {
    var s := n * n;
    PositiveProduct(n, n, s);
    var d := s - 1.0;
    assert d == (n - 1.0) * (n + 1.0);
    PositiveProduct(n - 1.0, n + 1.0, d);
    PositiveProduct(s, d, s * d);
  }

  lemma PositiveProduct(a: real, b: real, s: real)
    requires a > 0.0 && b > 0.0 && s == a * b
    ensures s > 0.0
  {
  }

  lemma NegativeProduct(a: real, b: real, s: real)
    requires a < 0.0 && b < 0.0 && s == a * b
    ensures s > 0.0
  {
  }

  /** For two points or more the denominator is n^2 (n^2 - 1) / 12, so the zero test never fires. */
  lemma DenomPositive(n: nat)
    ensures Denom(n) == Quartic(n as real) / 12.0
    ensures n >= 2 ==> Denom(n) > 0.0
  {
    hide ClosedForm, Quartic, Times;
    SumsClosed(n);
    DenomIdentity(n as real, SumX(n), SumXX(n));
    if n >= 2 { QuarticPositive(n as real); }
  }

  // ---------- the normal equations ----------

  /** Sum of residuals of the first n points. */
  function Residuals(ys: seq<real>, l: Line, n: nat): real
    requires n <= |ys|
  {
    if n == 0 then 0.0 else Residuals(ys, l, n - 1) + (ys[n - 1] - l.At(n - 1))
  }

  /** Sum of index times residual of the first n points. */
  function WeightedResiduals(ys: seq<real>, l: Line, n: nat): real
    requires n <= |ys|
  {
    if n == 0 then 0.0 else WeightedResiduals(ys, l, n - 1) + Times((n - 1) as real, ys[n - 1] - l.At(n - 1))
  }

  /** Sums of residuals r and w of n points, as functions of the other sums. */
  ghost predicate ResidualForm(l: Line, n: nat, r: real, w: real, sx: real, sxx: real, sy: real, sxy: real) {
    && r == sy - l.intercept * n as real - l.slope * sx
    && w == sxy - l.intercept * sx - l.slope * sxx
  }

  lemma ResidualStep(l: Line, i: nat, y: real, r: real, w: real, sx: real, sxx: real, sy: real, sxy: real)
    requires ResidualForm(l, i, r, w, sx, sxx, sy, sxy)
    ensures ResidualForm(l, i + 1, r + (y - l.At(i)), w + Times(i as real, y - l.At(i)),
                         sx + i as real, sxx + Times(i as real, i as real), sy + y, sxy + Times(i as real, y))
  {
    ResidualPolynomials(l.intercept, l.slope, i as real, y, sx, sxx);
  }

  lemma ResidualPolynomials(a: real, b: real, m: real, y: real, sx: real, sxx: real)
    ensures a * (m + 1.0) == a * m + a
    ensures b * (sx + m) == b * sx + b * m
    ensures a * (sx + m) == a * sx + a * m
    ensures b * (sxx + m * m) == b * sxx + b * (m * m)
    ensures m * (y - (a + b * m)) == m * y - a * m - b * (m * m)
  {
  }

  lemma {:induction false} ResidualsInSums(ys: seq<real>, l: Line, n: nat)
    requires n <= |ys|
    ensures ResidualForm(l, n, Residuals(ys, l, n), WeightedResiduals(ys, l, n), SumX(n), SumXX(n), SumY(ys, n), SumXY(ys, n))
  {
    if n > 0 {
      hide ResidualForm, Line.At, Times;
      var i := n - 1;
      ResidualsInSums(ys, l, i);
      ResidualStep(l, i, ys[i], Residuals(ys, l, i), WeightedResiduals(ys, l, i), SumX(i), SumXX(i), SumY(ys, i), SumXY(ys, i));
    }
  }

  /** The fitted line makes both sums of residuals vanish. */
  lemma FitSolves(n: nat, sx: real, sxx: real, sy: real, sxy: real)
    requires n > 0 && n as real * sxx - sx * sx != 0.0
    ensures ResidualForm(Fit(n as real, sx, sxx, sy, sxy), n, 0.0, 0.0, sx, sxx, sy, sxy)
  {
    var r, l := n as real, Fit(n as real, sx, sxx, sy, sxy);
    QuotientTimes(r * sxy - sx * sy, r * sxx - sx * sx);
    QuotientTimes(sy - l.slope * sx, r);
    Eliminate(r, sx, sxx, sy, sxy, l.slope, l.intercept);
  }

  lemma QuotientTimes(a: real, d: real)
    requires d != 0.0
    ensures a / d * d == a
  {
  }

  lemma Eliminate(n: real, sx: real, sxx: real, sy: real, sxy: real, slope: real, intercept: real)
    requires n > 0.0
    requires slope * (n * sxx - sx * sx) == n * sxy - sx * sy
    requires intercept * n == sy - slope * sx
    ensures sxy - intercept * sx - slope * sxx == 0.0
  {
    var e := sxy - intercept * sx - slope * sxx;
    assert n * e == n * sxy - (intercept * n) * sx - slope * (n * sxx);
    assert (intercept * n) * sx == sy * sx - slope * (sx * sx);
    assert slope * (n * sxx - sx * sx) == slope * (n * sxx) - slope * (sx * sx);
    assert n * e == 0.0;
  }

  /** The residuals of the fitted line sum to zero and are orthogonal to the index. */
  lemma ResidualsVanish(ys: seq<real>)
    requires |ys| >= 2
    ensures Residuals(ys, LinearRegression(ys), |ys|) == 0.0
    ensures WeightedResiduals(ys, LinearRegression(ys), |ys|) == 0.0
  {
    hide ResidualForm, Fit;
    var n, l := |ys|, LinearRegression(ys);
    DenomPositive(n);
    ResidualsInSums(ys, l, n);
    FitSolves(n, SumX(n), SumXX(n), SumY(ys, n), SumXY(ys, n));
    FormUnique(l, n, Residuals(ys, l, n), WeightedResiduals(ys, l, n), 0.0, 0.0, SumX(n), SumXX(n), SumY(ys, n), SumXY(ys, n));
  }

  lemma FormUnique(l: Line, n: nat, r: real, w: real, r': real, w': real, sx: real, sxx: real, sy: real, sxy: real)
    requires ResidualForm(l, n, r, w, sx, sxx, sy, sxy) && ResidualForm(l, n, r', w', sx, sxx, sy, sxy)
    ensures r == r' && w == w'
  {
  }

  // ---------- least squares ----------

  /** The sum of squared errors of a line. */
  function SquaredError(ys: seq<real>, l: Line, n: nat): real
    requires n <= |ys|
  {
    if n == 0 then 0.0
    else
      var r := ys[n - 1] - l.At(n - 1);
      SquaredError(ys, l, n - 1) + Times(r, r)
  }

  /** The sum of squared distances between two lines at the first n indices. */
  function Gap(l: Line, k: Line, n: nat): real {
    if n == 0 then 0.0
    else
      var d := l.At(n - 1) - k.At(n - 1);
      Gap(l, k, n - 1) + Times(d, d)
  }

  /** The error of k is that of l, a cross term with l's residuals, and the gap. */
  ghost predicate ErrorForm(l: Line, k: Line, ek: real, el: real, r: real, w: real, g: real) {
    ek == el + 2.0 * ((l.intercept - k.intercept) * r + (l.slope - k.slope) * w) + g
  }

  lemma ErrorStep(l: Line, k: Line, i: nat, y: real, ek: real, el: real, r: real, w: real, g: real)
    requires ErrorForm(l, k, ek, el, r, w, g)
    ensures ErrorForm(l, k,
                      ek + Times(y - k.At(i), y - k.At(i)),
                      el + Times(y - l.At(i), y - l.At(i)),
                      r + (y - l.At(i)), w + Times(i as real, y - l.At(i)),
                      g + Times(l.At(i) - k.At(i), l.At(i) - k.At(i)))
  {
    var u, m := y - l.At(i), i as real;
    var p, q := l.intercept - k.intercept, l.slope - k.slope;
    LineDifference(l, k, m);
    SquareOfSum(u, p, q, m);
    CrossStep(p, q, r, w, u, m * u);
  }

  lemma LineDifference(l: Line, k: Line, m: real)
    ensures (l.intercept + l.slope * m) - (k.intercept + k.slope * m) ==
            (l.intercept - k.intercept) + (l.slope - k.slope) * m
  {
  }

  lemma SquareOfSum(u: real, p: real, q: real, m: real)
    ensures (u + (p + q * m)) * (u + (p + q * m)) == u * u + 2.0 * (p * u + q * (m * u)) + (p + q * m) * (p + q * m)
  {
    var d := p + q * m;
    assert (u + d) * (u + d) == u * u + 2.0 * (u * d) + d * d;
    assert u * d == p * u + q * (m * u);
  }

  lemma CrossStep(p: real, q: real, r: real, w: real, x: real, y: real)
    ensures p * (r + x) + q * (w + y) == (p * r + q * w) + (p * x + q * y)
  {
  }

  lemma NoErrorForm(l: Line, k: Line)
    ensures ErrorForm(l, k, 0.0, 0.0, 0.0, 0.0, 0.0)
  {
  }

  lemma {:induction false} ErrorSplits(ys: seq<real>, l: Line, k: Line, n: nat)
    requires n <= |ys|
    ensures ErrorForm(l, k, SquaredError(ys, k, n), SquaredError(ys, l, n),
                      Residuals(ys, l, n), WeightedResiduals(ys, l, n), Gap(l, k, n))
  {
    hide ErrorForm, Line.At, Times;
    if n == 0 {
      NoErrorForm(l, k);
    } else {
      var i := n - 1;
      ErrorSplits(ys, l, k, i);
      ErrorStep(l, k, i, ys[i], SquaredError(ys, k, i), SquaredError(ys, l, i),
                Residuals(ys, l, i), WeightedResiduals(ys, l, i), Gap(l, k, i));
    }
  }

  /** Lines that agree at two indices are equal. */
  lemma {:induction false} GapNonNegative(l: Line, k: Line, n: nat)
    ensures Gap(l, k, n) >= 0.0
    ensures n >= 2 && Gap(l, k, n) == 0.0 ==> l.At(0) == k.At(0) && l.At(1) == k.At(1)
  {
    hide Times, Line.At;
    if n > 0 {
      GapNonNegative(l, k, n - 1);
      SquareNonNegative(l.At(n - 1) - k.At(n - 1));
      if n == 2 {
        SquareNonNegative(l.At(0) - k.At(0));
        assert Gap(l, k, 1) == 0.0 + Times(l.At(0) - k.At(0), l.At(0) - k.At(0));
      }
    }
  }

  lemma SquareNonNegative(d: real)
    ensures Times(d, d) >= 0.0 && (d != 0.0 ==> Times(d, d) > 0.0)
  {
    var s := d * d;
    assert Times(d, d) == s;
    if d != 0.0 { SquarePositive(d, s); }
  }

  lemma SquarePositive(d: real, s: real)
    requires d != 0.0 && s == d * d
    ensures s > 0.0
  {
    if d > 0.0 { PositiveProduct(d, d, s); } else { NegativeProduct(d, d, s); }
  }

  /** The fitted line minimises the squared error over all lines, and is the only one that does. */
  lemma LeastSquares(ys: seq<real>, k: Line)
    requires |ys| >= 2
    ensures var l := LinearRegression(ys);
            SquaredError(ys, l, |ys|) <= SquaredError(ys, k, |ys|)
    ensures var l := LinearRegression(ys);
            k != l ==> SquaredError(ys, l, |ys|) < SquaredError(ys, k, |ys|)
  {
    var l := LinearRegression(ys);
    ResidualsVanish(ys);
    ErrorSplits(ys, l, k, |ys|);
    GapNonNegative(l, k, |ys|);
  }

  lemma {:induction false} NoError(ys: seq<real>, l: Line, n: nat)
    requires n <= |ys| && forall i :: 0 <= i < n ==> ys[i] == l.At(i)
    ensures SquaredError(ys, l, n) == 0.0
  {
    if n > 0 { NoError(ys, l, n - 1); }
  }

  lemma {:induction false} ErrorNonNegative(ys: seq<real>, l: Line, n: nat)
    requires n <= |ys|
    ensures SquaredError(ys, l, n) >= 0.0
  {
    if n > 0 {
      ErrorNonNegative(ys, l, n - 1);
      SquareNonNegative(ys[n - 1] - l.At(n - 1));
    }
  }

  /** On exactly linear data the fit is that line. */
  lemma ExactOnLines(ys: seq<real>, l: Line)
    requires |ys| >= 2 && forall i :: 0 <= i < |ys| ==> ys[i] == l.At(i)
    ensures LinearRegression(ys) == l
  {
    NoError(ys, l, |ys|);
    ErrorNonNegative(ys, LinearRegression(ys), |ys|);
    LeastSquares(ys, l);
  }

  /** Through fewer than two points the line is level: at the one value, or at zero where there is none. */
  lemma FewPoints(ys: seq<real>, i: int)
    requires |ys| <= 1
    ensures LinearRegression(ys).At(i) == if |ys| == 1 then ys[0] else 0.0
  {
    var l := LinearRegression(ys);
    assert l.slope * i as real == 0.0;
  }
}
