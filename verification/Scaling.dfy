/**
 The scaling analysis over exact reals: the analysis of variance of balanced
 sessions, and the least-squares trend with its residuals.
 */
module Scaling {
  import opened Prelude
  import opened Sums

  // ------------------------------------------------------------ analysis of variance

  predicate Balanced(sessions: seq<Reals>) {
    forall i | 0 <= i < |sessions| :: |sessions[i]| == |sessions[0]|
  }

  function Flat(sessions: seq<Reals>): Reals {
    if sessions == [] then [] else sessions[0] + Flat(sessions[1..])
  }

  function Means(sessions: seq<Reals>): (m: Reals)
    requires forall i | 0 <= i < |sessions| :: sessions[i] != []
    ensures |m| == |sessions|
  {
    seq(|sessions|, i requires 0 <= i < |sessions| => Mean(sessions[i]))
  }

  /** Squares inside the sessions, each about its own mean. */
  function Within(sessions: seq<Reals>): real
    requires forall i | 0 <= i < |sessions| :: sessions[i] != []
  {
    if sessions == [] then 0.0 else SquaresAbout(sessions[0], Mean(sessions[0])) + Within(sessions[1..])
  }

  /** `squaredError` is the square of the standard error the code reports. */
  datatype Reading = Reading(squaredError: Option<real>, df: int)

  datatype FRatio = NoRatio | Infinite | Ratio(value: real)

  datatype Blocks = Blocks(
    count: nat, runs: nat, mean: real, sessionMeans: Reals,
    msBetween: Option<real>, msWithin: Option<real>,
    pairs: Reading, withinSessions: Reading, sessionsUnit: Reading,
    f: FRatio, icc: Option<real>)

  function Share(squares: Option<real>, total: nat, df: int): Reading
    requires total > 0
  {
    if squares.None? then Reading(None, 0) else Reading(Some(squares.value / total as real), df)
  }

  function MeanSquare(squares: real, df: int): Option<real> {
    if df == 0 then None else Some(squares / df as real)
  }

  function FStatistic(between: Option<real>, within: Option<real>): FRatio {
    if between.None? || within.None? then NoRatio
    else if within.value > 0.0 then Ratio(between.value / within.value)
    else if between.value > 0.0 then Infinite
    else NoRatio
  }

  /** The intraclass correlation. */
  function Correlation(between: Option<real>, within: Option<real>, runs: nat): Option<real>
    requires runs > 0
  {
    if between.None? || within.None? then None
    else
      var denominator := between.value + Times((runs - 1) as real, within.value);
      if denominator <= 0.0 then None
      else
        var ratio := (between.value - within.value) / denominator;
        Some(if ratio > 0.0 then ratio else 0.0)
  }

  /** All runs read as independent: the error of their mean from their total squares. */
  function PairsReading(squares: real, total: nat): Reading
    requires total > 0
  {
    if total > 1 then Reading(Some(squares / (total - 1) as real / total as real), total - 1) else Reading(None, 0)
  }

  /** Everything reported, from the two sums of squares. */
  function Report(count: nat, runs: nat, grand: real, means: Reals, between: real, within: real): Blocks
    requires count * runs > 0
  {
    var total, dfBetween, dfWithin := count * runs, count - 1, count * (runs - 1);
    var msBetween, msWithin := MeanSquare(between, dfBetween), MeanSquare(within, dfWithin);
    Blocks(count, runs, grand, means, msBetween, msWithin,
      PairsReading(between + within, total), Share(msWithin, total, dfWithin), Share(msBetween, total, dfBetween),
      FStatistic(msBetween, msWithin), Correlation(msBetween, msWithin, runs))
  }

  datatype AnalysisError = NoSessions | NotBalanced | NoRuns

  function Analyse(sessions: seq<Reals>): Result<Blocks, AnalysisError> {
    if sessions == [] then Err(NoSessions)
    else if !Balanced(sessions) then Err(NotBalanced)
    else if sessions[0] == [] then Err(NoRuns)
    else
      var runs := |sessions[0]|;
      FlatLength(sessions, runs);
      assert |sessions| * runs > 0;
      var grand := Mean(Flat(sessions));
      var between := Times(runs as real, SquaresAbout(Means(sessions), grand));
      Ok(Report(|sessions|, runs, grand, Means(sessions), between, Within(sessions)))
  }

  lemma {:induction false} FlatLength(sessions: seq<Reals>, runs: nat)
    requires forall i | 0 <= i < |sessions| :: |sessions[i]| == runs
    ensures |Flat(sessions)| == |sessions| * runs
  {
    if sessions != [] {
      FlatLength(sessions[1..], runs);
    }
  }

  lemma {:induction false} SquaresAppend(a: Reals, b: Reals, c: real)
    ensures SquaresAbout(a + b, c) == SquaresAbout(a, c) + SquaresAbout(b, c)
  {
    assert Centred(a + b, c) == Centred(a, c) + Centred(b, c);
    DotAppend(Centred(a, c), Centred(b, c), Centred(a, c), Centred(b, c));
  }

  lemma SquaresFirst(s: Reals, c: real)
    requires s != []
    ensures SquaresAbout(s, c) == Square(s[0] - c) + SquaresAbout(s[1..], c)
  {
    assert Centred(s, c)[1..] == Centred(s[1..], c);
  }

  /** Every sum of squares splits into the part inside sessions and the part between them. */
  lemma {:induction false} Decompose(sessions: seq<Reals>, runs: nat, c: real)
    requires runs > 0 && forall i | 0 <= i < |sessions| :: |sessions[i]| == runs
    ensures Times(runs as real, SquaresAbout(Means(sessions), c)) + Within(sessions) == SquaresAbout(Flat(sessions), c)
  {
    var n := runs as real;
    if sessions == [] {
      Vanish(n, SquaresAbout([], c));
    } else {
      var m, rest := Mean(sessions[0]), sessions[1..];
      MeansFirst(sessions);
      hide SquaresAbout, Times, Square, Mean, Means;
      Decompose(rest, runs, c);
      SquaresFirst(Means(sessions), c);
      SquaresAppend(sessions[0], Flat(rest), c);
      Shift(sessions[0], c);
      TimesSum(n, Square(m - c), SquaresAbout(Means(rest), c));
    }
  }

  lemma MeansFirst(sessions: seq<Reals>)
    requires sessions != [] && forall i | 0 <= i < |sessions| :: sessions[i] != []
    ensures Means(sessions)[0] == Mean(sessions[0]) && Means(sessions)[1..] == Means(sessions[1..])
  {
  }

  lemma TimesSum(n: real, a: real, b: real)
    ensures Times(n, a + b) == Times(n, a) + Times(n, b)
  {
  }

  /**
   Between and within add up to the total about the grand mean, with the degrees of
   freedom; so the "pairs" error is the one-sample error of all the runs pooled.
   */
  lemma VarianceDecomposes(sessions: seq<Reals>)
    requires Analyse(sessions).Ok?
    ensures var b, values := Analyse(sessions).value, Flat(sessions);
      var between := Times(b.runs as real, SquaresAbout(b.sessionMeans, b.mean));
      && |values| == b.count * b.runs && b.mean == Mean(values)
      && between + Within(sessions) == SquaresAbout(values, Mean(values))
      && (b.count - 1) + b.count * (b.runs - 1) == |values| - 1
      && (|values| == 1 ==> b.pairs == Reading(None, 0))
      && (|values| > 1 ==>
            && b.pairs.df == |values| - 1 && b.pairs.squaredError.Some?
            && Times(b.pairs.squaredError.value, Times((|values| - 1) as real, |values| as real))
                 == SquaresAbout(values, Mean(values)))
  {
    var runs, values := |sessions[0]|, Flat(sessions);
    FlatLength(sessions, runs);
    Decompose(sessions, runs, Mean(values));
    Degrees(|sessions|, runs);
    hide SquaresAbout, Within, Mean, Flat, Means, Times, FStatistic, Correlation, MeanSquare, Share;
    var total := SquaresAbout(values, Mean(values));
    var split := Times(runs as real, SquaresAbout(Means(sessions), Mean(values))) + Within(sessions);
    assert total == split;
    var b := Analyse(sessions).value;
    assert b.pairs == PairsReading(split, |values|);
    if |values| > 1 {
      Divided(total, (|values| - 1) as real, |values| as real);
    }
  }

  /** `q` times `d` is `a`; there is no such quotient without a degree of freedom. */
  predicate IsQuotient(q: Option<real>, a: real, d: int) {
    if d == 0 then q.None? else q.Some? && Times(q.value, d as real) == a
  }

  /** The squared standard error that a mean square gives the mean of `total` runs. */
  predicate IsErrorFrom(r: Reading, square: Option<real>, total: nat, df: int) {
    if square.None? then r == Reading(None, 0)
    else r.df == df && r.squaredError.Some? && Times(r.squaredError.value, total as real) == square.value
  }

  /** F times the square within is the square between; infinite when only the latter is not zero. */
  predicate IsFRatio(f: FRatio, between: Option<real>, within: Option<real>) {
    match f
    case Ratio(value) =>
      between.Some? && within.Some? && within.value > 0.0 && Times(value, within.value) == between.value
    case Infinite => between.Some? && within.Some? && within.value <= 0.0 < between.value
    case NoRatio => between.None? || within.None? || (within.value <= 0.0 && between.value <= 0.0)
  }

  /** The correlation times its denominator is the difference of the squares, if that is positive. */
  predicate IsCorrelation(icc: Option<real>, between: Option<real>, within: Option<real>, runs: nat) {
    if between.None? || within.None? then icc.None?
    else
      var denominator := between.value + Times((runs - 1) as real, within.value);
      && (icc.Some? <==> denominator > 0.0)
      && (icc.Some? ==>
            Times(icc.value, denominator)
              == if between.value > within.value then between.value - within.value else 0.0)
  }

  /** Every reported figure, by the equation that defines it. */
  lemma ReportExactly(sessions: seq<Reals>)
    requires Analyse(sessions).Ok?
    ensures var b := Analyse(sessions).value;
      var total, between := b.count * b.runs, Times(b.runs as real, SquaresAbout(b.sessionMeans, b.mean));
      && b.count == |sessions| == |b.sessionMeans| && b.count > 0
      && (forall i | 0 <= i < b.count :: |sessions[i]| == b.runs > 0)
      && (forall i | 0 <= i < b.count :: Times(b.sessionMeans[i], b.runs as real) == Sum(sessions[i]))
      && Times(b.mean, total as real) == Sum(Flat(sessions))
      && IsQuotient(b.msBetween, between, b.count - 1)
      && IsQuotient(b.msWithin, Within(sessions), b.count * (b.runs - 1))
      && IsErrorFrom(b.sessionsUnit, b.msBetween, total, b.count - 1)
      && IsErrorFrom(b.withinSessions, b.msWithin, total, b.count * (b.runs - 1))
      && IsFRatio(b.f, b.msBetween, b.msWithin)
      && IsCorrelation(b.icc, b.msBetween, b.msWithin, b.runs)
  {
    var count, runs, values := |sessions|, |sessions[0]|, Flat(sessions);
    FlatLength(sessions, runs);
    MeanExactly(values);
    forall i | 0 <= i < count
      ensures Times(Means(sessions)[i], runs as real) == Sum(sessions[i])
    {
      MeanExactly(sessions[i]);
    }
    hide Mean, Flat, SquaresAbout, Within, Times, Sum, MeanSquare, Share, FStatistic, Correlation, PairsReading,
         IsQuotient, IsErrorFrom, IsFRatio, IsCorrelation;
    var b := Analyse(sessions).value;
    var between := Times(runs as real, SquaresAbout(b.sessionMeans, b.mean));
    QuotientOf(between, count - 1);
    QuotientOf(Within(sessions), count * (runs - 1));
    ErrorFrom(b.msBetween, count * runs, count - 1);
    ErrorFrom(b.msWithin, count * runs, count * (runs - 1));
    FRatioOf(b.msBetween, b.msWithin);
    CorrelationOf(b.msBetween, b.msWithin, runs);
  }

  lemma QuotientOf(a: real, d: int)
    ensures IsQuotient(MeanSquare(a, d), a, d)
  {
    if d != 0 {
      Quotient(a, d as real);
    }
  }

  lemma ErrorFrom(square: Option<real>, total: nat, df: int)
    requires total > 0
    ensures IsErrorFrom(Share(square, total, df), square, total, df)
  {
    if square.Some? {
      Quotient(square.value, total as real);
    }
  }

  lemma FRatioOf(between: Option<real>, within: Option<real>)
    ensures IsFRatio(FStatistic(between, within), between, within)
  {
    if between.Some? && within.Some? && within.value > 0.0 {
      Quotient(between.value, within.value);
    }
  }

  lemma CorrelationOf(between: Option<real>, within: Option<real>, runs: nat)
    requires runs > 0
    ensures IsCorrelation(Correlation(between, within, runs), between, within, runs)
  {
    if between.Some? && within.Some? {
      var denominator := between.value + Times((runs - 1) as real, within.value);
      if denominator > 0.0 {
        Quotient(between.value - within.value, denominator);
        SignOfQuotient(between.value - within.value, denominator);
        hide Times;
        ZeroTimes(denominator);
      }
    }
  }

  lemma SignOfQuotient(a: real, d: real)
    requires d > 0.0
    ensures a / d > 0.0 <==> a > 0.0
  {
    var q := a / d;
    assert q * d == a;
  }

  lemma ZeroTimes(d: real)
    ensures Times(0.0, d) == 0.0
  {
  }

  lemma Degrees(count: nat, runs: nat)
    ensures (count - 1) + count * (runs - 1) == count * runs - 1
  {
  }

  lemma {:induction false} WithinNonNegative(sessions: seq<Reals>)
    requires forall i | 0 <= i < |sessions| :: sessions[i] != []
    ensures Within(sessions) >= 0.0
  {
    if sessions != [] {
      WithinNonNegative(sessions[1..]);
      DotNonNegative(Centred(sessions[0], Mean(sessions[0])));
    }
  }

  lemma ProportionBounds(b: real, w: real, k: real)
    requires w >= 0.0 && k >= 0.0 && b + Times(k, w) > 0.0
    ensures (b - w) / (b + Times(k, w)) <= 1.0
  {
    assert k * w >= 0.0;
    AtMostOne(b - w, b + Times(k, w));
  }

  lemma AtMostOne(a: real, d: real)
    requires d > 0.0 && a <= d
    ensures a / d <= 1.0
  {
    ScaleOrder(a / d, 1.0, d);
    assert d * (a / d) == a;
  }

  lemma CorrelationBounds(count: nat, runs: nat, grand: real, means: Reals, between: real, within: real)
    requires count > 0 && runs > 0 && count * runs > 0 && within >= 0.0
    ensures var icc := Report(count, runs, grand, means, between, within).icc; icc.Some? ==> 0.0 <= icc.value <= 1.0
  {
    hide Times, FStatistic, Share, PairsReading;
    var b := Report(count, runs, grand, means, between, within);
    if b.icc.Some? {
      NonNegativeQuotient(within, count * (runs - 1));
      ProportionBounds(b.msBetween.value, b.msWithin.value, (runs - 1) as real);
    }
  }

  lemma NonNegativeQuotient(a: real, n: int)
    requires a >= 0.0 && n > 0
    ensures a / n as real >= 0.0
  {
  }

  /** The intraclass correlation is a proportion. */
  lemma CorrelationIsProportion(sessions: seq<Reals>)
    requires Analyse(sessions).Ok?
    ensures var icc := Analyse(sessions).value.icc; icc.Some? ==> 0.0 <= icc.value <= 1.0
  {
    WithinNonNegative(sessions);
    hide SquaresAbout, Within, Mean, Flat, Means, Times, Report;
    var count, runs := |sessions|, |sessions[0]|;
    FlatLength(sessions, runs);
    var grand := Mean(Flat(sessions));
    CorrelationBounds(count, runs, grand, Means(sessions),
      Times(runs as real, SquaresAbout(Means(sessions), grand)), Within(sessions));
  }

  // --------------------------------------------------------------------- the trend

  /** 1, 2, ..., n */
  function Order(n: nat): (xs: Reals)
    ensures |xs| == n
  {
    seq(n, i => (i + 1) as real)
  }

  datatype Trend = Trend(mean: real, fit: Option<Fit>)

  datatype Fit = Fit(slope: real, squaredError: real, lag1: Option<real>)

  function Slope(values: Reals): real
    requires |values| >= 3
  {
    var u := Centred(Order(|values|), Mean(Order(|values|)));
    SpreadPositive(|values|);
    Dot(u, Centred(values, Mean(values))) / Dot(u, u)
  }

  /** What the fitted line leaves of each value. */
  function Residuals(values: Reals): (r: Reals)
    requires |values| >= 3
    ensures |r| == |values|
  {
    Plus(Centred(values, Mean(values)), -Slope(values), Centred(Order(|values|), Mean(Order(|values|))))
  }

  /** None: there is nothing to average. */
  function Fitted(values: Reals): Option<Trend> {
    var n := |values|;
    if n == 0 then None
    else if n < 3 then Some(Trend(Mean(values), None)) else
    var u := Centred(Order(n), Mean(Order(n)));
    SpreadPositive(n);
    var r := Residuals(values);
    var squares := Dot(r, r);
    var lag1 := if squares > 0.0 then Some(Dot(r[..n - 1], r[1..]) / squares) else None;
    Some(Trend(Mean(values), Some(Fit(Slope(values), squares / (n - 2) as real / Dot(u, u), lag1))))
  }

  lemma SpreadPositive(n: nat)
    requires n >= 2
    ensures Dot(Centred(Order(n), Mean(Order(n))), Centred(Order(n), Mean(Order(n)))) > 0.0
  {
    var u := Centred(Order(n), Mean(Order(n)));
    DotNonNegative(u);
    assert u[1] - u[0] == 1.0;
    if u[0] == 0.0 {
      assert u[1] * u[1] == 1.0;
    } else {
      assert u[0] * u[0] > 0.0;
    }
  }

  /** The residuals sum to zero and are orthogonal to the run order. */
  lemma ResidualsAreOrthogonal(values: Reals)
    requires |values| >= 3
    ensures Sum(Residuals(values)) == 0.0 && Dot(Residuals(values), Order(|values|)) == 0.0
    ensures Dot(Residuals(values), Centred(Order(|values|), Mean(Order(|values|)))) == 0.0
  {
    var n, r := |values|, Residuals(values);
    var u, v, ones := Centred(Order(n), Mean(Order(n))), Centred(values, Mean(values)), Ones(n);
    hide Dot, Mean, Centred, Times;
    CentredSum(values);
    CentredSum(Order(n));
    DotPlus(v, -Slope(values), u, ones);
    SpreadPositive(n);
    DotPlus(v, -Slope(values), u, u);
    DotCommutes(u, v);
    Cancel(Dot(u, v), Dot(u, u));
    Vanish(-Slope(values), Sum(u));
    OrderFromCentred(n);
    DotPlus(u, Mean(Order(n)), ones, r);
    DotCommutes(r, u);
    DotCommutes(r, ones);
    DotCommutes(r, Order(n));
    Vanish(Mean(Order(n)), Sum(r));
  }

  lemma Cancel(a: real, b: real)
    requires b > 0.0
    ensures a + Times(-(a / b), b) == 0.0
  {
  }

  lemma OrderFromCentred(n: nat)
    requires n > 0
    ensures Order(n) == Plus(Centred(Order(n), Mean(Order(n))), Mean(Order(n)), Ones(n))
  {
  }

  /** What the line a + b x leaves of the values at x = 1, 2, ..., n. */
  function Errors(values: Reals, a: real, b: real): (e: Reals)
    ensures |e| == |values|
  {
    seq(|values|, i requires 0 <= i < |values| => values[i] - a - b * (i + 1) as real)
  }

  function SquaredError(values: Reals, a: real, b: real): real {
    Dot(Errors(values, a, b), Errors(values, a, b))
  }

  lemma ErrorsAsVectors(values: Reals, a: real, b: real)
    ensures Errors(values, a, b) == Plus(Centred(values, a), -b, Order(|values|))
  {
    var e, p := Errors(values, a, b), Plus(Centred(values, a), -b, Order(|values|));
    forall i | 0 <= i < |values|
      ensures e[i] == p[i]
    {
      assert -b * Order(|values|)[i] == -(b * (i + 1) as real);
    }
  }

  /**
   The fitted line is the least-squares line: any line a + b x has the residual
   squares of the fit, plus a term for its offset and a term for its slope.
   */
  lemma LeastSquares(values: Reals, a: real, b: real)
    requires |values| >= 3
    ensures var n := |values|;
      var u, r := Centred(Order(n), Mean(Order(n))), Residuals(values);
      var offset, turn := Mean(values) - a - b * Mean(Order(n)), Slope(values) - b;
      && SquaredError(values, a, b) == Dot(r, r) + Times(Square(offset), n as real) + Times(Square(turn), Dot(u, u))
      && SquaredError(values, a, b) >= Dot(r, r)
      && (b != Slope(values) ==> SquaredError(values, a, b) > Dot(r, r))
  {
    hide Mean, Dot, Slope, Residuals, Times, Square;
    var n, r := |values|, Residuals(values);
    var u := Centred(Order(n), Mean(Order(n)));
    var offset, turn := Mean(values) - a - b * Mean(Order(n)), Slope(values) - b;
    ErrorsAsVectors(values, a, b);
    LineFromResiduals(values, a, b, offset, turn);
    ResidualsAreOrthogonal(values);
    CentredSum(Order(n));
    SpreadPositive(n);
    Pythagoras(r, turn, u, offset);
    SquareTerms(offset, n as real);
    SquareTerms(turn, Dot(u, u));
  }

  /** The line through the reported mean, at the middle of the run, with the reported slope. */
  function Intercept(values: Reals): real
    requires |values| >= 3
  {
    var trend := Fitted(values).value;
    trend.mean - trend.fit.value.slope * Mean(Order(|values|))
  }

  /**
   What is reported below three values is the mean alone, and nothing without any. From
   three on the reported line has the least squared error of all lines, and strictly less
   than any line of another slope; the reported error and autocorrelation are that line's.
   */
  lemma TrendIsLeastSquares(values: Reals, a: real, b: real)
    ensures Fitted(values).None? <==> values == []
    ensures values != [] ==> Times(Fitted(values).value.mean, |values| as real) == Sum(values)
    ensures values != [] ==> (Fitted(values).value.fit.Some? <==> |values| >= 3)
    ensures |values| >= 3 ==>
      var n, trend := |values|, Fitted(values).value;
      var fit, line := trend.fit.value, Errors(values, Intercept(values), trend.fit.value.slope);
      var least, spread := Dot(line, line), SquaresAbout(Order(n), Mean(Order(n)));
      && SquaredError(values, a, b) >= least
      && (b != fit.slope ==> SquaredError(values, a, b) > least)
      && spread > 0.0 && Times(fit.squaredError, Times((n - 2) as real, spread)) == least
      && (fit.lag1.None? <==> least == 0.0)
      && (fit.lag1.Some? ==> Times(fit.lag1.value, least) == Dot(line[..n - 1], line[1..]))
  {
    if values != [] {
      MeanExactly(values);
    }
    if |values| >= 3 {
      hide Mean, Slope, Times, Square, Residuals, Dot;
      var n, r := |values|, Residuals(values);
      var squares, spread := Dot(r, r), SquaresAbout(Order(n), Mean(Order(n)));
      SpreadPositive(n);
      DotNonNegative(r);
      LeastSquares(values, a, b);
      ReportedLine(values);
      Divided(squares, (n - 2) as real, spread);
      if squares > 0.0 {
        Quotient(Dot(r[..n - 1], r[1..]), squares);
      }
    }
  }

  lemma MeanExactly(s: Reals)
    requires s != []
    ensures Times(Mean(s), |s| as real) == Sum(s)
  {
    Quotient(Sum(s), |s| as real);
  }

  lemma Quotient(a: real, d: real)
    requires d != 0.0
    ensures Times(a / d, d) == a
  {
  }

  lemma Divided(a: real, n: real, d: real)
    requires n > 0.0 && d > 0.0
    ensures Times(a / n / d, Times(n, d)) == a
  {
    assert a / n / d * (n * d) == a / n / d * d * n;
  }

  /** The residuals are what the reported line leaves. */
  lemma ReportedLine(values: Reals)
    requires |values| >= 3
    ensures Errors(values, Intercept(values), Fitted(values).value.fit.value.slope) == Residuals(values)
  {
    hide Mean, Slope, Dot, Residuals;
    ResidualsAt(values);
    var m, k, s := Mean(values), Mean(Order(|values|)), Slope(values);
    var e, r := Errors(values, m - s * k, s), Residuals(values);
    forall i | 0 <= i < |values|
      ensures e[i] == r[i]
    {
      Rearrange(values[i], (i + 1) as real, m, k, s, m - s * k, s);
    }
    assert e == r && Intercept(values) == m - s * k;
  }

  /** Squares of a sum of three orthogonal directions. */
  lemma Pythagoras(r: Reals, turn: real, u: Reals, offset: real)
    requires |r| == |u| && Sum(r) == 0.0 && Sum(u) == 0.0 && Dot(r, u) == 0.0
    ensures var e := Plus(Plus(r, turn, u), offset, Ones(|r|));
      Dot(e, e) == Dot(r, r) + Times(Square(offset), |r| as real) + Times(Square(turn), Dot(u, u))
  {
    SumOfOnes(|r|);
    hide Dot, Plus, Times, Square;
    var ones, line := Ones(|r|), Plus(r, turn, u);
    SquarePlus(line, offset, ones);
    DotPlus(r, turn, u, ones);
    SquarePlus(r, turn, u);
    Vanish(turn, Dot(u, ones));
    Vanish(offset, Dot(line, ones));
    Vanish(turn, Dot(r, u));
  }

  lemma LineFromResiduals(values: Reals, a: real, b: real, offset: real, turn: real)
    requires |values| >= 3
    requires turn == Slope(values) - b && offset == Mean(values) - a - b * Mean(Order(|values|))
    ensures var n := |values|;
      Plus(Centred(values, a), -b, Order(n))
        == Plus(Plus(Residuals(values), turn, Centred(Order(n), Mean(Order(n)))), offset, Ones(n))
  {
    hide Mean, Slope, Dot, Residuals;
    var n, r := |values|, Residuals(values);
    var m, k, s := Mean(values), Mean(Order(n)), Slope(values);
    ResidualsAt(values);
    var left := Plus(Centred(values, a), -b, Order(n));
    var right := Plus(Plus(r, turn, Centred(Order(n), k)), offset, Ones(n));
    forall i | 0 <= i < n
      ensures left[i] == right[i]
    {
      Rearrange(values[i], Order(n)[i], m, k, s, a, b);
    }
    assert left == right;
  }

  lemma ResidualsAt(values: Reals)
    requires |values| >= 3
    ensures var n := |values|;
      forall i | 0 <= i < n ::
        Residuals(values)[i] == values[i] - Mean(values) - Slope(values) * (Order(n)[i] - Mean(Order(n)))
  {
    hide Mean, Slope, Dot;
  }

  lemma Rearrange(y: real, x: real, m: real, k: real, s: real, a: real, b: real)
    ensures y - a - b * x == (y - m - s * (x - k)) + (s - b) * (x - k) + (m - a - b * k)
  {
  }

  lemma {:induction false} LagBound(r: Reals)
    requires r != []
    ensures var lag := 2.0 * Dot(r[..|r| - 1], r[1..]);
      var both := Dot(r, r) + Dot(r, r) - r[0] * r[0];
      -both <= lag <= both
  {
    if |r| > 1 {
      var n, t := |r| - 1, r[1..];
      LagBound(t);
      assert r[..n][1..] == t[..n - 1] && r[..n][0] == r[0];
      Young(r[0], r[1]);
    }
  }

  lemma Young(x: real, y: real)
    ensures -(x * x + y * y) <= 2.0 * (x * y) <= x * x + y * y
  {
    SquareTerms(x + y, 1.0);
    SquareTerms(x - y, 1.0);
  }

  /** The lag-1 autocorrelation of the residuals lies in [-1, 1]. */
  lemma LagIsCorrelation(values: Reals)
    requires |values| >= 3
    ensures var lag1 := Fitted(values).value.fit.value.lag1; lag1.Some? ==> -1.0 <= lag1.value <= 1.0
  {
    hide Dot, Residuals, Slope, Mean;
    var r := Residuals(values);
    LagBound(r);
    assert r[0] * r[0] >= 0.0;
    if Dot(r, r) > 0.0 {
      Bounded(Dot(r[..|r| - 1], r[1..]), Dot(r, r));
    }
  }

  lemma Bounded(a: real, b: real)
    requires b > 0.0 && -b <= a <= b
    ensures -1.0 <= a / b <= 1.0
  {
    AtMostOne(a, b);
    AtMostOne(-a, b);
    assert -a / b == -(a / b);
  }
}
