/**
  The location and dispersion estimators of the ESD test
  (`esd_test_statistics`). The numeric routines of numpy, pandas and scipy
  that the model does not define are gathered in `Routines` and passed in;
  `Sound` states the little the proofs need to know about them.
 */
module EsdStatistics {
  import opened Numeric

  /** Library routines left abstract. */
  datatype Routines = Routines(
    median: seq<real> -> real,        // `np.median` / `pd.Series.median` of some values
    sqrt: real -> real,               // `np.sqrt`
    tQuantile: (real, int) -> real)   // `scipy.stats.t.ppf(p, df)`

  /** A median of a non-empty list lies between its least and greatest value. */
  ghost predicate MedianSound(median: seq<real> -> real)
  {
    forall s: seq<real> :: |s| > 0 ==> Min(s) <= median(s) <= Max(s)
  }

  /** The square root of a non-negative number is its non-negative root. */
  ghost predicate SqrtSound(sqrt: real -> real)
  {
    forall v: real :: v >= 0.0 ==> sqrt(v) >= 0.0 && sqrt(v) * sqrt(v) == v
  }

  ghost predicate Sound(lib: Routines)
  {
    MedianSound(lib.median) && SqrtSound(lib.sqrt)
  }

  /** A location estimate and a dispersion estimate; `None` is NaN. */
  datatype Stats = Stats(location: Option<real>, dispersion: Option<real>)

  /** `np.abs(x - center)`. */
  function AbsDeviations(x: seq<real>, center: real): (r: seq<real>)
    ensures |r| == |x|
    ensures forall j :: 0 <= j < |x| ==> r[j] >= 0.0 && (r[j] == x[j] - center || r[j] == center - x[j])
  {
    seq(|x|, j requires 0 <= j < |x| => Abs(x[j] - center))
  }

  /** The median of the values; NaN for no values. */
  function Median(lib: Routines, x: seq<real>): (r: Option<real>)
    ensures r.Some? <==> |x| > 0
  {
    if |x| == 0 then None else Some(lib.median(x))
  }

  /** `np.median(np.abs(x - np.median(x)))`, the median absolute deviation. */
  function MedianAbsDeviation(lib: Routines, x: seq<real>): (r: Option<real>)
    ensures r.Some? <==> |x| > 0
  {
    if |x| == 0 then None else Some(lib.median(AbsDeviations(x, lib.median(x))))
  }

  function SquaredDeviations(x: seq<real>, center: real): (r: seq<real>)
    ensures |r| == |x|
    ensures forall j :: 0 <= j < |x| ==> r[j] >= 0.0
  {
    seq(|x|, j requires 0 <= j < |x| => Square(x[j] - center))
  }

  function Square(v: real): (r: real)
    ensures r >= 0.0
  {
    v * v
  }

  /**
    `pd.Series(x).var()`: the sample variance with one degree of freedom
    removed (pandas' default), never negative.
   */
  function SampleVariance(x: seq<real>): (v: real)
    requires |x| >= 2
    ensures v >= 0.0
  {
    var sq := SquaredDeviations(x, Mean(x).value);
    SumLowerBound(sq, 0.0);
    QuotientBounds(Sum(sq), (|x| - 1) as real, 0.0, Sum(sq));
    Sum(sq) / ((|x| - 1) as real)
  }

  /** `pd.Series(x).std()`: NaN for fewer than two values. */
  function StdDev(lib: Routines, x: seq<real>): (r: Option<real>)
    ensures r.Some? <==> |x| >= 2
  {
    if |x| < 2 then None else Some(lib.sqrt(SampleVariance(x)))
  }

  /**
    `esd_test_statistics(x, hybrid)`: the median and the median absolute
    deviation when `hybrid`, the mean and the standard deviation otherwise.
    The location is defined for any non-empty input; the dispersion needs
    one value in the robust case and two in the other.
   */
  function TestStatistics(lib: Routines, x: seq<real>, hybrid: bool): (r: Stats)
    ensures r.location.Some? <==> |x| >= 1
    ensures r.dispersion.Some? <==> (if hybrid then |x| >= 1 else |x| >= 2)
  {
    if hybrid then Stats(Median(lib, x), MedianAbsDeviation(lib, x))
    else Stats(Mean(x), StdDev(lib, x))
  }

  /**
    With sound library routines, either estimator pair gives a location
    between the least and the greatest value and a dispersion that is
    never negative.
   */
  lemma TestStatisticsSound(lib: Routines, x: seq<real>, hybrid: bool)
    requires Sound(lib) && |x| >= 1
    ensures var r := TestStatistics(lib, x, hybrid);
      && Min(x) <= r.location.value <= Max(x)
      && (r.dispersion.Some? ==> r.dispersion.value >= 0.0)
  {
    if hybrid {
      var devs := AbsDeviations(x, lib.median(x));
      assert Min(x) <= lib.median(x) <= Max(x);
      assert Min(devs) <= lib.median(devs);
    } else {
      MeanWithinRange(x);
    }
  }

  /**
    Values that are all equal have no spread: with sound routines the
    dispersion is zero, or NaN when the standard deviation has a single
    value to work on.
   */
  lemma ConstantDispersion(lib: Routines, x: seq<real>, c: real, hybrid: bool)
    requires Sound(lib) && |x| >= 1
    requires forall j :: 0 <= j < |x| ==> x[j] == c
    ensures var r := TestStatistics(lib, x, hybrid);
      r.location == Some(c) && (r.dispersion.None? || r.dispersion.value == 0.0)
  {
    if hybrid {
      ConstantMedian(lib.median, x, c);
      var devs := AbsDeviations(x, c);
      ConstantMedian(lib.median, devs, 0.0);
    } else {
      MeanBetween(x, c, c);
      if |x| >= 2 {
        ConstantVariance(x, c);
        SqrtZero(lib.sqrt);
      }
    }
  }

  lemma ConstantMedian(median: seq<real> -> real, x: seq<real>, c: real)
    requires MedianSound(median) && |x| >= 1
    requires forall j :: 0 <= j < |x| ==> x[j] == c
    ensures median(x) == c
  {
    assert Min(x) <= median(x) <= Max(x);
    assert Min(x) == c == Max(x);
  }

  lemma ConstantVariance(x: seq<real>, c: real)
    requires |x| >= 2 && Mean(x) == Some(c)
    requires forall j :: 0 <= j < |x| ==> x[j] == c
    ensures SampleVariance(x) == 0.0
  {
    var sq := SquaredDeviations(x, c);
    assert forall j :: 0 <= j < |sq| ==> sq[j] == 0.0;
    SumLowerBound(sq, 0.0);
    SumUpperBound(sq, 0.0);
    QuotientBounds(Sum(sq), (|x| - 1) as real, 0.0, 0.0);
  }

  lemma SqrtZero(sqrt: real -> real)
    requires SqrtSound(sqrt)
    ensures sqrt(0.0) == 0.0
  {
    var q := sqrt(0.0);
    assert q * q == 0.0;
    ZeroProduct(q, q);
  }

  lemma ZeroProduct(a: real, b: real)
    requires a * b == 0.0
    ensures a == 0.0 || b == 0.0
  {
  }
}
