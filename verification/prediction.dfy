/** Segment prediction (app.py:157-173): the rows of one (crop, county) pair,
    a least-squares line of price against year fitted to them, evaluated at the
    requested year and rounded to cents. */
module Prediction {
  import opened Common
  import opened Calendar
  import opened Dataset

  /** What the prediction page shows: a price, the "not enough historical data"
      message, or the "prediction failed" message. */
  datatype Outcome = Value(price: real) | NotEnoughHistory | Failed

  /** price = intercept + slope * year */
  datatype Line = Line(slope: real, intercept: real)

  function At(line: Line, x: real): real {
    line.intercept + line.slope * x
  }

  /** The regressor of a row: its year as a number. */
  function X(row: Row): real {
    row.year as real
  }

  /** The years of the rows, as a column of reals: the regressor column. */
  function YearValues(rows: seq<Row>): (v: seq<real>)
    ensures |v| == |rows|
  {
    seq(|rows|, i requires 0 <= i < |rows| => X(rows[i]))
  }

  /** The prices of the rows, as a column of reals. */
  function Prices(rows: seq<Row>): (v: seq<real>)
    ensures |v| == |rows|
  {
    seq(|rows|, i requires 0 <= i < |rows| => rows[i].price)
  }

  /** Every entry of a column less m. */
  function Centred(v: seq<real>, m: real): (d: seq<real>)
    ensures |d| == |v|
  {
    seq(|v|, i requires 0 <= i < |v| => v[i] - m)
  }

  /** v[0] + … + v[n-1] */
  function Sum(v: seq<real>, n: nat): real
    requires n <= |v|
  {
    if n == 0 then 0.0 else Sum(v, n - 1) + v[n - 1]
  }

  /** u[0]·v[0] + … + u[n-1]·v[n-1] */
  function Dot(u: seq<real>, v: seq<real>, n: nat): real
    requires n <= |u| && |u| == |v|
  {
    if n == 0 then 0.0 else Dot(u, v, n - 1) + u[n - 1] * v[n - 1]
  }

  function MeanYear(rows: seq<Row>): real
    requires |rows| > 0
  {
    Sum(YearValues(rows), |rows|) / |rows| as real
  }

  /** The mean price: the number that, times the number of rows, gives the
      total price. */
  function MeanPrice(rows: seq<Row>): (m: real)
    requires |rows| > 0
    ensures m * |rows| as real == Sum(Prices(rows), |rows|)
  {
    var total, n := Sum(Prices(rows), |rows|), |rows| as real;
    DivideOut(total, n);
    total / n
  }

  /** Σ (x − mx)² */
  function SumSquaredDeviation(rows: seq<Row>, mx: real): real {
    Dot(Centred(YearValues(rows), mx), Centred(YearValues(rows), mx), |rows|)
  }

  /** Σ (x − mx)(y − my) */
  function SumCrossDeviation(rows: seq<Row>, mx: real, my: real): real {
    Dot(Centred(YearValues(rows), mx), Centred(Prices(rows), my), |rows|)
  }

  /** The least-squares line from the means and the centred sums. With no
      spread in x there is no slope to fit; the minimum-norm solution the
      solver returns then has slope 0 and passes through the mean price. */
  function LineFromMoments(mx: real, my: real, sxx: real, sxy: real): Line {
    if sxx == 0.0 then Line(0.0, my)
    else Line(sxy / sxx, my - (sxy / sxx) * mx)
  }

  /** Ordinary least squares of price on year, in closed form. The line meets
      both normal equations: it passes through the point of means (the
      residuals sum to zero), and slope times spread is the cross deviation
      (the residuals are uncorrelated with the year). With no spread the
      slope is 0, the minimum-norm choice. */
  function FitLine(rows: seq<Row>): (line: Line)
    requires |rows| > 0
    ensures At(line, MeanYear(rows)) == MeanPrice(rows)
    ensures line.slope * SumSquaredDeviation(rows, MeanYear(rows))
              == SumCrossDeviation(rows, MeanYear(rows), MeanPrice(rows))
    ensures SumSquaredDeviation(rows, MeanYear(rows)) == 0.0 ==> line.slope == 0.0
  {
    var mx := MeanYear(rows);
    var my := MeanPrice(rows);
    var sxx := SumSquaredDeviation(rows, mx);
    var sxy := SumCrossDeviation(rows, mx, my);
    if sxx == 0.0 then
      ZeroSpread(rows, mx);
      ConstantYears(rows, mx, my);
      LineFromMoments(mx, my, sxx, sxy)
    else
      DivideOut(sxy, sxx);
      LineFromMoments(mx, my, sxx, sxy)
  }

  /** The integer nearest to v, ties to the even neighbour. */
  function RoundHalfEven(v: real): (n: int)
    ensures -0.5 <= v - n as real <= 0.5
    ensures v - n as real == 0.5 || v - n as real == -0.5 ==> n % 2 == 0
  {
    var k := v.Floor;
    var frac := v - k as real;
    if frac < 0.5 then k
    else if frac > 0.5 then k + 1
    else if k % 2 == 0 then k
    else k + 1
  }

  /** `round(x, 2)` */
  function RoundCents(x: real): (r: real)
    ensures (r * 100.0).Floor as real == r * 100.0
    ensures -0.005 <= r - x <= 0.005
  {
    RoundHalfEven(x * 100.0) as real / 100.0
  }

  /** A value that is already a whole number of cents is left as it is. */
  lemma {:induction false} RoundCentsExact(x: real)
    requires (x * 100.0).Floor as real == x * 100.0
    ensures RoundCents(x) == x
  {
    var v := x * 100.0;
    assert v.Floor as real == v;
    assert RoundHalfEven(v) == v.Floor;
  }

  /** The prediction for a crop, a county and the year from the form (None
      when the form gives no usable year). With two or more matching rows it
      is the least-squares line of those rows, read at the year and rounded
      to cents. */
  function Predict(rows: seq<Row>, crop: string, county: string, year: Option<int>): (r: Outcome)
    ensures r.Failed? <==> year.None?
    ensures year.Some? ==> (r.NotEnoughHistory? <==> |Matching(rows, crop, county)| < 2)
    ensures year.Some? && |Matching(rows, crop, county)| >= 2 ==>
      r == Value(RoundCents(At(FitLine(Matching(rows, crop, county)), year.value as real)))
  {
    match year
    case None => Failed
    case Some(y) =>
      var segment := Matching(rows, crop, county);
      if |segment| < 2 then NotEnoughHistory
      else Value(RoundCents(At(FitLine(segment), y as real)))
  }

  /** Rows of other crops or counties, wherever they sit in the table, never
      change a prediction. */
  lemma {:induction false} PredictIgnoresOtherRows(a: seq<Row>, other: seq<Row>, b: seq<Row>,
                                crop: string, county: string, year: Option<int>)
    requires forall row :: row in other ==> !Matches(row, crop, county)
    ensures Predict(a + other + b, crop, county, year) == Predict(a + b, crop, county, year)
  {
    MatchingAppend(a + other, b, crop, county);
    MatchingAppend(a, other, crop, county);
    MatchingAppend(a, b, crop, county);
    MatchingNone(other, crop, county);
    assert Matching(a + other, crop, county) == Matching(a, crop, county);
  }
  // ---------------------------------------------------------------------------
  // Real-number algebra, one step at a time

  lemma {:induction false} SquareNonNegative(e: real)
    ensures e * e >= 0.0
  {
  }

  /** A square is zero only for zero. */
  lemma {:induction false} SquareZero(e: real, sq: real)
    requires sq == e * e && sq == 0.0
    ensures e == 0.0
  {
    if e != 0.0 {
      MulDivCancel(e, e);
    }
  }

  lemma {:induction false} DivideOut(a: real, b: real)
    requires b != 0.0
    ensures (a / b) * b == a && b * (a / b) == a
  {
  }

  lemma {:induction false} MulDivCancel(a: real, b: real)
    requires b != 0.0
    ensures (a * b) / b == a
  {
  }

  /** The mean of values a + b·x is a + b times the mean of x. */
  lemma {:induction false} MeanOfAffine(n: real, a: real, b: real, sx: real)
    requires n > 0.0
    ensures (a * n + b * sx) / n == a + b * (sx / n)
  {
    DivideOut(sx, n);
    assert n * (a + b * (sx / n)) == a * n + b * sx;
  }

  /** Moments of points on a line give back that line. */
  lemma {:induction false} LineFromMomentsOnLine(mx: real, my: real, sxx: real, sxy: real, line: Line)
    requires sxx != 0.0 && sxy == line.slope * sxx && my == At(line, mx)
    ensures LineFromMoments(mx, my, sxx, sxy) == line
  {
    MulDivCancel(line.slope, sxx);
  }

  // ---------------------------------------------------------------------------
  // Sums and dot products of columns

  // Each lemma below adds one term at a time: the step is a separate lemma
  // over plain reals, so that the inductive proofs stay linear.

  /** Appending w0 = a + c·v0 to s1 = a·k1 + c·sv1, one more entry. */
  lemma {:induction false} AffineStep(s: real, s1: real, w0: real, k: real, k1: real,
                                      sv: real, sv1: real, v0: real, a: real, c: real)
    requires s == s1 + w0 && k == k1 + 1.0 && sv == sv1 + v0
    requires w0 == a + c * v0
    requires s1 == a * k1 + c * sv1
    ensures s == a * k + c * sv
  {
  }

  /** Appending w0·z0 with w0 = c·v0 to s1 = c·sv1. */
  lemma {:induction false} ScaleStep(s: real, s1: real, w0: real, sv: real, sv1: real, v0: real, z0: real, c: real)
    requires s == s1 + w0 * z0 && sv == sv1 + v0 * z0
    requires w0 == c * v0
    requires s1 == c * sv1
    ensures s == c * sv
  {
    assert w0 * z0 == c * (v0 * z0);
  }

  /** A constant column sums to n·a. */
  lemma {:induction false} SumConst(k: seq<real>, a: real, n: nat)
    requires n <= |k|
    requires forall i :: 0 <= i < |k| ==> k[i] == a
    ensures Sum(k, n) == n as real * a
    decreases n
  {
    if n > 0 {
      SumConst(k, a, n - 1);
      CountStep((n - 1) as real, a);
    }
  }

  /** Σ(a + c·v) = a·n + c·Σv */
  lemma {:induction false} SumAffine(v: seq<real>, w: seq<real>, a: real, c: real, n: nat)
    requires |v| == |w| && n <= |w|
    requires forall i :: 0 <= i < |w| ==> w[i] == a + c * v[i]
    ensures Sum(w, n) == a * n as real + c * Sum(v, n)
    decreases n
  {
    if n > 0 {
      SumAffine(v, w, a, c, n - 1);
      AffineStep(Sum(w, n), Sum(w, n - 1), w[n - 1], n as real, (n - 1) as real,
                 Sum(v, n), Sum(v, n - 1), v[n - 1], a, c);
    }
  }

  /** (c·v)·z = c·(v·z) */
  lemma {:induction false} DotScale(v: seq<real>, w: seq<real>, z: seq<real>, c: real, n: nat)
    requires |v| == |w| && |z| == |w| && n <= |w|
    requires forall i :: 0 <= i < |w| ==> w[i] == c * v[i]
    ensures Dot(w, z, n) == c * Dot(v, z, n)
    decreases n
  {
    if n > 0 {
      DotScale(v, w, z, c, n - 1);
      ScaleStep(Dot(w, z, n), Dot(w, z, n - 1), w[n - 1], Dot(v, z, n), Dot(v, z, n - 1), v[n - 1], z[n - 1], c);
    }
  }

  /** A column of zeros has a zero dot product with any column. */
  lemma {:induction false} DotZero(u: seq<real>, z: seq<real>, n: nat)
    requires |u| == |z| && n <= |u|
    requires forall i :: 0 <= i < n ==> u[i] == 0.0
    ensures Dot(u, z, n) == 0.0
    decreases n
  {
    if n > 0 {
      DotZero(u, z, n - 1);
    }
  }

  lemma {:induction false} DotSymmetric(u: seq<real>, v: seq<real>, n: nat)
    requires n <= |u| && |u| == |v|
    ensures Dot(u, v, n) == Dot(v, u, n)
    decreases n
  {
    if n > 0 {
      DotSymmetric(u, v, n - 1);
    }
  }

  lemma {:induction false} DotSelfNonNegative(u: seq<real>, n: nat)
    requires n <= |u|
    ensures Dot(u, u, n) >= 0.0
    decreases n
  {
    if n > 0 {
      SquareNonNegative(u[n - 1]);
      DotSelfNonNegative(u, n - 1);
    }
  }

  /** Only the zero column has a zero sum of squares. */
  lemma {:induction false} DotSelfZero(u: seq<real>, n: nat)
    requires n <= |u| && Dot(u, u, n) == 0.0
    ensures forall i :: 0 <= i < n ==> u[i] == 0.0
    decreases n
  {
    if n > 0 {
      SquareNonNegative(u[n - 1]);
      DotSelfNonNegative(u, n - 1);
      SquareZero(u[n - 1], u[n - 1] * u[n - 1]);
      DotSelfZero(u, n - 1);
    }
  }

  // ---------------------------------------------------------------------------
  // Facts about the sums of the rows

  lemma {:induction false} SumSquaredDeviationNonNegative(rows: seq<Row>, mx: real)
    ensures SumSquaredDeviation(rows, mx) >= 0.0
  {
    DotSelfNonNegative(Centred(YearValues(rows), mx), |rows|);
  }

  /** A zero spread means every year equals the centre. */
  lemma {:induction false} ZeroSpread(rows: seq<Row>, mx: real)
    requires SumSquaredDeviation(rows, mx) == 0.0
    ensures forall i :: 0 <= i < |rows| ==> X(rows[i]) == mx
  {
    var dx := Centred(YearValues(rows), mx);
    DotSelfZero(dx, |rows|);
    forall i | 0 <= i < |rows| ensures X(rows[i]) == mx {
      assert dx[i] == X(rows[i]) - mx;
    }
  }

  /** Rows all in year x0 sum to n·x0 and have no spread about x0. */
  lemma {:induction false} ConstantYears(rows: seq<Row>, x0: real, my: real)
    requires forall i :: 0 <= i < |rows| ==> X(rows[i]) == x0
    ensures Sum(YearValues(rows), |rows|) == |rows| as real * x0
    ensures SumSquaredDeviation(rows, x0) == 0.0
    ensures SumCrossDeviation(rows, x0, my) == 0.0
  {
    var xs := YearValues(rows);
    var dx := Centred(xs, x0);
    SumConst(xs, x0, |rows|);
    DotZero(dx, dx, |rows|);
    DotZero(dx, Centred(Prices(rows), my), |rows|);
  }

  /** Every row's price is the line at its year. */
  predicate OnLine(rows: seq<Row>, line: Line) {
    forall i :: 0 <= i < |rows| ==> rows[i].price == At(line, X(rows[i]))
  }

  /** Prices on a line have their mean on that line at the mean year. */
  lemma {:induction false} MeanPriceOnLine(rows: seq<Row>, line: Line)
    requires |rows| > 0 && OnLine(rows, line)
    ensures MeanPrice(rows) == At(line, MeanYear(rows))
  {
    var xs, ps, n := YearValues(rows), Prices(rows), |rows| as real;
    assert forall i :: 0 <= i < |ps| ==> ps[i] == line.intercept + line.slope * xs[i];
    SumAffine(xs, ps, line.intercept, line.slope, |rows|);
    var sx := Sum(xs, |rows|);
    MeanOfAffine(n, line.intercept, line.slope, sx);
    assert MeanPrice(rows) == (line.intercept * n + line.slope * sx) / n;
  }

  /** For prices on a line, the cross deviation is the slope times the spread. */
  lemma {:induction false} CrossDeviationOnLine(rows: seq<Row>, line: Line, mx: real, my: real)
    requires OnLine(rows, line) && my == At(line, mx)
    ensures SumCrossDeviation(rows, mx, my) == line.slope * SumSquaredDeviation(rows, mx)
  {
    var dx := Centred(YearValues(rows), mx);
    var dy := Centred(Prices(rows), my);
    forall i | 0 <= i < |rows| ensures dy[i] == line.slope * dx[i] {
      RowOnLine(rows[i].price, X(rows[i]), line, mx, my);
    }
    DotScale(dx, dy, dx, line.slope, |rows|);
    DotSymmetric(dx, dy, |rows|);
  }

  /** A point on a line deviates in y by the slope times its deviation in x. */
  lemma {:induction false} RowOnLine(y: real, x: real, line: Line, mx: real, my: real)
    requires y == At(line, x) && my == At(line, mx)
    ensures y - my == line.slope * (x - mx)
  {
  }

  // ---------------------------------------------------------------------------
  // What the fit returns

  /** Rows all in one year: the fit is the flat line at the mean price. */
  lemma {:induction false} SameYearFit(rows: seq<Row>)
    requires |rows| > 0
    requires forall i :: 0 <= i < |rows| ==> rows[i].year == rows[0].year
    ensures FitLine(rows) == Line(0.0, MeanPrice(rows))
  {
    var x0 := X(rows[0]);
    var n := |rows| as real;
    ConstantYears(rows, x0, MeanPrice(rows));
    MulDivCancel(x0, n);
    assert MeanYear(rows) == (x0 * n) / n;
  }

  /** When every matching row has the same year, the prediction is the mean
      price of those rows, whatever year is asked for. */
  lemma {:induction false} SameYearPredictsMean(rows: seq<Row>, crop: string, county: string, year: int)
    requires |Matching(rows, crop, county)| >= 2
    requires forall row :: row in Matching(rows, crop, county) ==> row.year == Matching(rows, crop, county)[0].year
    ensures Predict(rows, crop, county, Some(year)) == Value(RoundCents(MeanPrice(Matching(rows, crop, county))))
  {
    var segment := Matching(rows, crop, county);
    assert forall i :: 0 <= i < |segment| ==> segment[i] in segment;
    SameYearFit(segment);
  }

  /** Two different years give a nonzero spread. */
  lemma {:induction false} SpreadNonZero(rows: seq<Row>, mx: real, i: int, j: int)
    requires 0 <= i < |rows| && 0 <= j < |rows| && rows[i].year != rows[j].year
    ensures SumSquaredDeviation(rows, mx) != 0.0
  {
    if SumSquaredDeviation(rows, mx) == 0.0 {
      ZeroSpread(rows, mx);
      assert false;
    }
  }

  /** When the rows lie exactly on a line and not all in one year, the fit
      recovers that line. */
  lemma {:induction false} ExactFit(rows: seq<Row>, line: Line)
    requires |rows| > 0 && OnLine(rows, line)
    requires exists i, j :: 0 <= i < |rows| && 0 <= j < |rows| && rows[i].year != rows[j].year
    ensures FitLine(rows) == line
  {
    var i, j :| 0 <= i < |rows| && 0 <= j < |rows| && rows[i].year != rows[j].year;
    var mx := MeanYear(rows);
    var my := MeanPrice(rows);
    MeanPriceOnLine(rows, line);
    CrossDeviationOnLine(rows, line, mx, my);
    SpreadNonZero(rows, mx, i, j);
    LineFromMomentsOnLine(mx, my, SumSquaredDeviation(rows, mx), SumCrossDeviation(rows, mx, my), line);
  }

  /** With two or more matching rows on a line through at least two years, the
      prediction is that line at the requested year, rounded to cents. */
  lemma {:induction false} PredictOnLine(rows: seq<Row>, crop: string, county: string, line: Line, year: int)
    requires |Matching(rows, crop, county)| >= 2
    requires forall row :: row in Matching(rows, crop, county) ==> row.price == At(line, X(row))
    requires exists r1, r2 ::
      r1 in Matching(rows, crop, county) && r2 in Matching(rows, crop, county) && r1.year != r2.year
    ensures Predict(rows, crop, county, Some(year)) == Value(RoundCents(At(line, year as real)))
  {
    var segment := Matching(rows, crop, county);
    var r1, r2 :| r1 in segment && r2 in segment && r1.year != r2.year;
    var i :| 0 <= i < |segment| && segment[i] == r1;
    var j :| 0 <= j < |segment| && segment[j] == r2;
    assert OnLine(segment, line) by {
      forall k | 0 <= k < |segment| ensures segment[k].price == At(line, X(segment[k])) {
        assert segment[k] in segment;
      }
    }
    ExactFit(segment, line);
  }

  /** Rows (2021, 30) and (2022, 40) extrapolate to 50 for 2023 and to 20 for 2020. */
  lemma {:induction false} TwoYearExample()
    ensures
      var rows := [Row(DateFields(1, 1, 2021), 2021, "Maize", "Nairobi", 30.0),
                   Row(DateFields(1, 1, 2022), 2022, "Maize", "Nairobi", 40.0)];
      Predict(rows, "Maize", "Nairobi", Some(2023)) == Value(50.0)
      && Predict(rows, "Maize", "Nairobi", Some(2020)) == Value(20.0)
  {
    var rows := [Row(DateFields(1, 1, 2021), 2021, "Maize", "Nairobi", 30.0),
                 Row(DateFields(1, 1, 2022), 2022, "Maize", "Nairobi", 40.0)];
    var line := Line(10.0, -20180.0);
    assert Matching(rows, "Maize", "Nairobi") == rows;
    assert rows[0] in rows && rows[1] in rows;
    PredictOnLine(rows, "Maize", "Nairobi", line, 2023);
    PredictOnLine(rows, "Maize", "Nairobi", line, 2020);
    RoundCentsExact(50.0);
    RoundCentsExact(20.0);
  }
}
