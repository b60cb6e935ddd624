/**
  The seasonal-median decomposition of `ts_anomaly_detection.py`:
  observed = seasonal + median + residual, where the seasonal component
  repeats the per-phase means and the median component is the single
  median of the whole series.

  The median routine (`pd.Series.median`) is a parameter: the model holds
  for whatever median is plugged in.
 */
module Decomposition {
  import opened Numeric

  /** `x[i::freq]`: x[i], x[i + freq], x[i + 2 * freq], ... while the index is in range. */
  function Phase<T>(x: seq<T>, i: nat, freq: nat): seq<T>
    requires freq >= 1
    decreases |x| - i
  {
    if i >= |x| then [] else [x[i]] + Phase(x, i + freq, freq)
  }

  /** `seasonal_mean(x, freq)`: one skip-missing mean per phase 0..freq-1. */
  function SeasonalMean(x: seq<Sample>, freq: nat): (r: seq<Sample>)
    ensures |r| == freq
  {
    seq(freq, i requires 0 <= i < freq => MeanSkipNa(Phase(x, i, freq)))
  }

  lemma MulAtLeast(d: int, f: int)
    requires d >= 1 && f >= 1
    ensures d * f >= f
  {
    if d > 1 {
      MulAtLeast(d - 1, f);
      assert d * f == (d - 1) * f + f;
    }
  }

  /** Euclidean division is determined by its quotient and remainder. */
  lemma DivModUnique(n: int, f: int, a: int, b: int)
    requires f >= 1 && 0 <= b < f && n == a * f + b
    ensures n / f == a && n % f == b
  {
    var q, r := n / f, n % f;
    assert q * f + r == n;
    if a > q {
      MulAtLeast(a - q, f);
      assert false;
    } else if a < q {
      MulAtLeast(q - a, f);
      assert false;
    }
  }

  /** Removing one divisor lowers the quotient by one. */
  lemma DivStep(a: int, f: int)
    requires f >= 1 && a >= f
    ensures a / f == (a - f) / f + 1
  {
    var q, r := (a - f) / f, (a - f) % f;
    assert a - f == q * f + r;
    StrideStep(q + 1, f);
    DivModUnique(a, f, q + 1, r);
  }

  /** Adding the divisor does not change the remainder. */
  lemma ModShift(j: int, f: int)
    requires f >= 1
    ensures (j + f) % f == j % f
  {
    DivModUnique(j + f, f, j / f + 1, j % f);
  }

  /** `x[i::freq]` holds ceil((|x| - i) / freq) elements. */
  lemma {:induction false} PhaseLength<T>(x: seq<T>, i: nat, freq: nat)
    requires freq >= 1
    ensures |Phase(x, i, freq)| == if i >= |x| then 0 else (|x| - 1 - i) / freq + 1
    decreases |x| - i
  {
    if i < |x| {
      PhaseLength(x, i + freq, freq);
      var a := |x| - 1 - i;
      if a < freq {
        DivModUnique(a, freq, 0, a);
      } else {
        DivStep(a, freq);
      }
    }
  }

  /** Element t of `x[i::freq]` is x[i + t * freq]. */
  lemma {:induction false} PhaseStride<T>(x: seq<T>, i: nat, freq: nat)
    requires freq >= 1
    ensures forall t :: 0 <= t < |Phase(x, i, freq)| ==>
      i + t * freq < |x| && Phase(x, i, freq)[t] == x[i + t * freq]
    decreases |x| - i
  {
    if i < |x| {
      var r, r' := Phase(x, i, freq), Phase(x, i + freq, freq);
      PhaseStride(x, i + freq, freq);
      forall t | 0 <= t < |r|
        ensures i + t * freq < |x| && r[t] == x[i + t * freq]
      {
        if t > 0 {
          assert r[t] == r'[t - 1];
          StrideStep(t, freq);
        }
      }
    }
  }

  lemma StrideStep(m: int, f: int)
    ensures (m - 1) * f + f == m * f
  {
  }

  /** Every index i + m * freq in range is element m of `x[i::freq]`. */
  lemma {:induction false} PhaseHas<T>(x: seq<T>, i: nat, freq: nat, m: nat)
    requires freq >= 1 && i + m * freq < |x|
    ensures m < |Phase(x, i, freq)| && Phase(x, i, freq)[m] == x[i + m * freq]
    decreases m
  {
    if m > 0 {
      StrideStep(m, freq);
      PhaseHas(x, i + freq, freq, m - 1);
      assert Phase(x, i, freq) == [x[i]] + Phase(x, i + freq, freq);
    }
  }

  /** For i < freq, element t of `x[i::freq]` sits at a position j with j mod freq == i. */
  lemma PhaseElement<T>(x: seq<T>, i: nat, freq: nat, t: nat)
    requires i < freq && t < |Phase(x, i, freq)|
    ensures i + t * freq < |x| && (i + t * freq) % freq == i && Phase(x, i, freq)[t] == x[i + t * freq]
  {
    PhaseStride(x, i, freq);
    DivModUnique(i + t * freq, freq, t, i);
  }

  /** Conversely, position j, with j mod freq == i, is element j / freq of `x[i::freq]`. */
  lemma PhasePosition<T>(x: seq<T>, i: nat, freq: nat, j: nat)
    requires i < freq && j < |x| && j % freq == i
    ensures j / freq < |Phase(x, i, freq)| && Phase(x, i, freq)[j / freq] == x[j]
  {
    assert j == i + (j / freq) * freq;
    PhaseHas(x, i, freq, j / freq);
  }

  /** Two present values of phase i that bound its skip-missing mean. */
  lemma PhaseMeanWitnesses(x: seq<Sample>, freq: nat, i: nat) returns (jl: nat, jh: nat)
    requires i < freq && MeanSkipNa(Phase(x, i, freq)).Some?
    ensures jl < |x| && jh < |x| && jl % freq == i && jh % freq == i
    ensures x[jl].Some? && x[jh].Some?
    ensures x[jl].value <= MeanSkipNa(Phase(x, i, freq)).value <= x[jh].value
  {
    var s := Phase(x, i, freq);
    MeanSkipNaSpec(s);
    var lo, hi :| 0 <= lo < |s| && 0 <= hi < |s| && s[lo].Some? && s[hi].Some?
      && s[lo].value <= MeanSkipNa(s).value <= s[hi].value;
    PhaseElement(x, i, freq, lo);
    PhaseElement(x, i, freq, hi);
    jl, jh := i + lo * freq, i + hi * freq;
  }

  /** The skip-missing mean of phase i is defined exactly when the phase holds a present value. */
  lemma PhaseMeanDefined(x: seq<Sample>, freq: nat, i: nat)
    requires i < freq
    ensures MeanSkipNa(Phase(x, i, freq)).Some? <==>
      exists j :: 0 <= j < |x| && j % freq == i && x[j].Some?
  {
    var s := Phase(x, i, freq);
    if MeanSkipNa(s).Some? {
      var jl, jh := PhaseMeanWitnesses(x, freq, i);
      assert 0 <= jl < |x| && jl % freq == i && x[jl].Some?;
    } else {
      forall j | 0 <= j < |x| && j % freq == i
        ensures x[j].None?
      {
        PhasePosition(x, i, freq, j);
        assert s[j / freq] == x[j];
      }
    }
  }

  /**
    The mean of phase i is defined exactly when the phase holds a present
    value (a position j with j mod freq == i), and it then lies between two
    present values of that phase.
   */
  lemma SeasonalMeanAt(x: seq<Sample>, freq: nat, i: nat)
    requires i < freq
    ensures SeasonalMean(x, freq)[i].Some? <==>
      exists j :: 0 <= j < |x| && j % freq == i && x[j].Some?
    ensures SeasonalMean(x, freq)[i].Some? ==>
      exists lo, hi :: 0 <= lo < |x| && 0 <= hi < |x| && lo % freq == i && hi % freq == i
        && x[lo].Some? && x[hi].Some?
        && x[lo].value <= SeasonalMean(x, freq)[i].value <= x[hi].value
  {
    var m := SeasonalMean(x, freq)[i];
    assert m == MeanSkipNa(Phase(x, i, freq));
    PhaseMeanDefined(x, freq, i);
    if m.Some? {
      var jl, jh := PhaseMeanWitnesses(x, freq, i);
      assert 0 <= jl < |x| && 0 <= jh < |x| && jl % freq == i && jh % freq == i
        && x[jl].Some? && x[jh].Some? && x[jl].value <= m.value <= x[jh].value;
    }
  }

  /** `np.tile(p, reps)`: p repeated reps times. */
  function Tile<T>(p: seq<T>, reps: nat): (r: seq<T>)
    ensures |r| == reps * |p|
  {
    if reps == 0 then []
    else
      assert reps * |p| == (reps - 1) * |p| + |p|;
      p + Tile(p, reps - 1)
  }

  /** Position j of a tiling is position j mod |p| of the pattern. */
  lemma {:induction false} TileAt<T>(p: seq<T>, reps: nat)
    requires |p| >= 1
    ensures forall j :: 0 <= j < |Tile(p, reps)| ==> Tile(p, reps)[j] == p[j % |p|]
  {
    if reps > 0 {
      TileAt(p, reps - 1);
      var r, r' := Tile(p, reps), Tile(p, reps - 1);
      assert r == p + r';
      forall j | 0 <= j < |r|
        ensures r[j] == p[j % |p|]
      {
        if j < |p| {
          DivModUnique(j, |p|, 0, j);
        } else {
          assert r[j] == r'[j - |p|];
          ModShift(j - |p|, |p|);
        }
      }
    }
  }

  /** Tiling `nobs / freq + 1` times always covers nobs positions. */
  lemma TileCovers(nobs: nat, freq: nat)
    requires freq >= 1
    ensures nobs <= (nobs / freq + 1) * freq
  {
    assert nobs == (nobs / freq) * freq + nobs % freq;
  }

  /**
    `np.tile(p, nobs // len(p) + 1)[:nobs]`: the pattern repeated until it
    covers nobs positions, position j holding pattern element j mod |p|.
   */
  function TileTo<T>(p: seq<T>, nobs: nat): (r: seq<T>)
    requires |p| >= 1
    ensures |r| == nobs
    ensures forall j :: 0 <= j < nobs ==> r[j] == p[j % |p|]
  {
    var reps := nobs / |p| + 1;
    TileAt(p, reps);
    TileCovers(nobs, |p|);
    Tile(p, reps)[..nobs]
  }

  /** `pd.Series(x).median(skipna=True)`: NaN when no value is present. */
  function MedianSkipNa(x: seq<Sample>, medianOf: seq<real> -> real): (r: Sample)
    ensures r.Some? <==> exists j :: 0 <= j < |x| && x[j].Some?
  {
    var p := Present(x);
    if p == [] then None else Some(medianOf(p))
  }

  /** Element-wise `a - b` of two arrays of the same shape. */
  function Subtract(a: seq<Sample>, b: seq<Sample>): (r: seq<Sample>)
    requires |a| == |b|
    ensures |r| == |a|
    ensures forall j :: 0 <= j < |r| ==> (r[j].Some? <==> a[j].Some? && b[j].Some?)
    ensures forall j :: 0 <= j < |r| ==> r[j].Some? ==> a[j].value == r[j].value + b[j].value
  {
    seq(|a|, j requires 0 <= j < |a| => Sub(a[j], b[j]))
  }

  /** The record `ts_S_Md_decomposition` returns. */
  datatype Components = Components(
    observed: seq<Sample>,
    seasonal: seq<Sample>,
    median: seq<Sample>,
    residual: seq<Sample>)

  /**
    `ts_S_Md_decomposition(x, freq)`. A period of zero makes `nobs // freq`
    raise. A negative period leaves the seasonal component empty, so the
    subtraction raises from two observations on; below that it yields empty
    seasonal and residual components (mis-shaped for a single observation). All of these are reported as `PeriodNotPositive`.
   */
  function Decompose(x: seq<Sample>, freq: int, medianOf: seq<real> -> real): (r: Result<Components>)
    ensures r.Failure? <==> freq <= 0
    ensures r.Failure? ==> r.error == PeriodNotPositive
    ensures r.Success? ==>
      var d := r.value;
      && d.observed == x
      && |d.seasonal| == |x| && |d.median| == |x| && |d.residual| == |x|
      && (forall j :: 0 <= j < |x| ==> d.seasonal[j] == SeasonalMean(x, freq)[j % freq])
      && (forall j :: 0 <= j < |x| ==> d.median[j] == MedianSkipNa(x, medianOf))
      && (forall j :: 0 <= j < |x| ==> d.residual[j] == Sub(Sub(x[j], d.seasonal[j]), d.median[j]))
  {
    if freq <= 0 then Failure(PeriodNotPositive)
    else
      var nobs := |x|;
      var seasonal := TileTo(SeasonalMean(x, freq), nobs);
      var med := seq(nobs, _ => MedianSkipNa(x, medianOf));
      var res := Subtract(Subtract(x, seasonal), med);
      Success(Components(x, seasonal, med, res))
  }

  /** The seasonal component repeats with period freq. */
  lemma SeasonalPeriodic(x: seq<Sample>, freq: int, medianOf: seq<real> -> real, j: nat)
    requires freq >= 1 && j + freq < |x|
    ensures Decompose(x, freq, medianOf).value.seasonal[j]
         == Decompose(x, freq, medianOf).value.seasonal[j + freq]
  {
    ModShift(j, freq);
  }

  /**
    Where observed, seasonal and median are all present the decomposition is
    exactly additive; the residual is missing exactly where one of them is.
   */
  lemma Additive(x: seq<Sample>, freq: int, medianOf: seq<real> -> real, j: nat)
    requires freq >= 1 && j < |x|
    ensures var d := Decompose(x, freq, medianOf).value;
      && (d.residual[j].Some? <==> d.observed[j].Some? && d.seasonal[j].Some? && d.median[j].Some?)
      && (d.residual[j].Some? ==>
            d.observed[j].value == d.seasonal[j].value + d.median[j].value + d.residual[j].value)
  {
  }

  /**
    A series without missing values and a positive period give a residual
    without missing values, whether or not freq exceeds the length: every
    position j falls in phase j mod freq, which holds x[j] itself.
   */
  lemma ResidualComplete(x: seq<Sample>, freq: int, medianOf: seq<real> -> real)
    requires freq >= 1
    requires forall j :: 0 <= j < |x| ==> x[j].Some?
    ensures forall j :: 0 <= j < |x| ==> Decompose(x, freq, medianOf).value.residual[j].Some?
  {
    var d := Decompose(x, freq, medianOf).value;
    forall j | 0 <= j < |x|
      ensures d.residual[j].Some?
    {
      SeasonalMeanAt(x, freq, j % freq);
      assert d.seasonal[j].Some?;
      assert d.median[j].Some?;
    }
  }

  /** In a series that repeats a pattern p, each phase mean is the pattern's value. */
  lemma PeriodicPhaseMean(x: seq<Sample>, p: seq<real>, j: nat)
    requires |p| >= 1 && j < |x|
    requires forall t :: 0 <= t < |x| ==> x[t] == Some(p[t % |p|])
    ensures SeasonalMean(x, |p|)[j % |p|] == x[j]
  {
    var freq, i := |p|, j % |p|;
    SeasonalMeanAt(x, freq, i);
    var m := SeasonalMean(x, freq)[i];
    assert 0 <= j < |x| && j % freq == i && x[j].Some?;
    var lo, hi :| 0 <= lo < |x| && 0 <= hi < |x| && lo % freq == i && hi % freq == i
      && x[lo].Some? && x[hi].Some? && x[lo].value <= m.value <= x[hi].value;
    assert x[lo] == x[hi] == x[j];
  }

  /** At every position of such a series the seasonal part cancels the observation. */
  lemma PeriodicResidualAt(x: seq<Sample>, p: seq<real>, medianOf: seq<real> -> real, j: nat)
    requires |p| >= 1 && j < |x|
    requires forall t :: 0 <= t < |x| ==> x[t] == Some(p[t % |p|])
    ensures Decompose(x, |p|, medianOf).value.residual[j] == Sub(Some(0.0), MedianSkipNa(x, medianOf))
  {
    var d := Decompose(x, |p|, medianOf).value;
    PeriodicPhaseMean(x, p, j);
    assert d.seasonal[j] == x[j];
  }

  /**
    A series that repeats a pattern exactly (period freq = the pattern's
    length) has a residual that is the same at every position: zero minus
    the median of the series.
   */
  lemma PeriodicResidual(x: seq<Sample>, p: seq<real>, medianOf: seq<real> -> real) returns (c: real)
    requires |p| >= 1 && |x| >= 1
    requires forall t :: 0 <= t < |x| ==> x[t] == Some(p[t % |p|])
    ensures MedianSkipNa(x, medianOf) == Some(0.0 - c)
    ensures forall j :: 0 <= j < |x| ==> Decompose(x, |p|, medianOf).value.residual[j] == Some(c)
  {
    var m := MedianSkipNa(x, medianOf);
    assert x[0].Some?;
    c := 0.0 - m.value;
    assert Sub(Some(0.0), m) == Some(c);
    forall j | 0 <= j < |x|
      ensures Decompose(x, |p|, medianOf).value.residual[j] == Some(c)
    {
      PeriodicResidualAt(x, p, medianOf, j);
    }
  }
}
