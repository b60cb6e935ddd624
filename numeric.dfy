/**
  Shared vocabulary of the model: optional values, results, and the
  aggregate statistics pandas computes with `skipna=True`.
  Floating-point numbers are modelled as `real`; a missing value (NaN)
  is `None`.
 */
module Numeric {

  datatype Option<+T> = None | Some(value: T)

  /** The exceptions the detector can raise before it returns. */
  datatype Error =
    | PeriodNotPositive   // `nobs // freq` with freq == 0, or a negative period
    | EmptySeries         // `np.argmax` of an empty residual vector

  datatype Result<+T> = Success(value: T) | Failure(error: Error)

  /** One observation of the series; `None` is a missing value (NaN). */
  type Sample = Option<real>

  function Sum(s: seq<real>): real
  {
    if s == [] then 0.0 else Sum(s[..|s| - 1]) + s[|s| - 1]
  }

  function Min(s: seq<real>): (m: real)
    requires |s| > 0
    ensures m in s
    ensures forall j :: 0 <= j < |s| ==> m <= s[j]
  {
    if |s| == 1 then s[0]
    else
      var m' := Min(s[..|s| - 1]);
      if s[|s| - 1] < m' then s[|s| - 1] else m'
  }

  function Max(s: seq<real>): (m: real)
    requires |s| > 0
    ensures m in s
    ensures forall j :: 0 <= j < |s| ==> s[j] <= m
  {
    if |s| == 1 then s[0]
    else
      var m' := Max(s[..|s| - 1]);
      if s[|s| - 1] > m' then s[|s| - 1] else m'
  }

  /** A lower bound of every element bounds the sum from below. */
  lemma {:induction false} SumLowerBound(s: seq<real>, lo: real)
    requires forall j :: 0 <= j < |s| ==> lo <= s[j]
    ensures (|s| as real) * lo <= Sum(s)
  {
    if s != [] {
      SumLowerBound(s[..|s| - 1], lo);
    }
  }

  /** An upper bound of every element bounds the sum from above. */
  lemma {:induction false} SumUpperBound(s: seq<real>, hi: real)
    requires forall j :: 0 <= j < |s| ==> s[j] <= hi
    ensures Sum(s) <= (|s| as real) * hi
  {
    if s != [] {
      SumUpperBound(s[..|s| - 1], hi);
    }
  }

  /** Arithmetic mean; `None` for an empty sequence (pandas returns NaN). */
  function Mean(s: seq<real>): (r: Option<real>)
    ensures r.Some? <==> |s| > 0
  {
    if |s| == 0 then None else Some(Sum(s) / (|s| as real))
  }

  /** The mean of a non-empty sequence lies between its least and greatest element. */
  lemma MeanWithinRange(s: seq<real>)
    requires |s| > 0
    ensures Min(s) <= Mean(s).value <= Max(s)
  {
    MeanBetween(s, Min(s), Max(s));
  }

  lemma MeanBetween(s: seq<real>, lo: real, hi: real)
    requires |s| > 0
    requires forall j :: 0 <= j < |s| ==> lo <= s[j] <= hi
    ensures lo <= Mean(s).value <= hi
  {
    SumLowerBound(s, lo);
    SumUpperBound(s, hi);
    QuotientBounds(Sum(s), |s| as real, lo, hi);
  }

  lemma QuotientBounds(total: real, n: real, lo: real, hi: real)
    requires n > 0.0 && n * lo <= total <= n * hi
    ensures lo <= total / n <= hi
  {
    assert (total / n) * n == total;
  }

  /**
    The positions below n that `keep` accepts, in increasing order: every
    listed position is accepted, and the list is strictly increasing.
    `KeptComplete` adds that no accepted position is missing; together the
    three pin the result down.
   */
  function Kept(n: nat, keep: nat -> bool): (r: seq<nat>)
    ensures forall t :: 0 <= t < |r| ==> r[t] < n && keep(r[t])
    ensures forall t, u :: 0 <= t < u < |r| ==> r[t] < r[u]
  {
    if n == 0 then []
    else Kept(n - 1, keep) + (if keep(n - 1) then [n - 1] else [])
  }

  /** Every accepted position below n is listed, at some index t. */
  lemma {:induction false} KeptComplete(n: nat, keep: nat -> bool, j: nat) returns (t: nat)
    requires j < n && keep(j)
    ensures t < |Kept(n, keep)| && Kept(n, keep)[t] == j
  {
    var r, r' := Kept(n, keep), Kept(n - 1, keep);
    assert r == r' + (if keep(n - 1) then [n - 1] else []);
    if j < n - 1 {
      t := KeptComplete(n - 1, keep, j);
      assert r[t] == r'[t];
    } else {
      t := |r'|;
    }
  }

  /** When `keep` accepts every position below n, they are all listed, in order. */
  lemma {:induction false} KeptAll(n: nat, keep: nat -> bool)
    requires forall j :: 0 <= j < n ==> keep(j)
    ensures |Kept(n, keep)| == n
    ensures forall t :: 0 <= t < n ==> Kept(n, keep)[t] == t
  {
    if n > 0 {
      KeptAll(n - 1, keep);
      assert Kept(n, keep) == Kept(n - 1, keep) + [n - 1];
    }
  }

  /** Nothing is listed exactly when `keep` accepts no position below n. */
  lemma KeptNone(n: nat, keep: nat -> bool)
    ensures Kept(n, keep) == [] <==> forall j :: 0 <= j < n ==> !keep(j)
  {
    if Kept(n, keep) != [] {
      assert keep(Kept(n, keep)[0]);
    }
    forall j | 0 <= j < n && keep(j)
      ensures Kept(n, keep) != []
    {
      var t := KeptComplete(n, keep, j);
    }
  }

  /** The elements of x at the positions `keep` accepts, in order of position. */
  function Where<T>(x: seq<T>, keep: nat -> bool): seq<T>
  {
    var k := Kept(|x|, keep);
    seq(|k|, t requires 0 <= t < |k| => x[k[t]])
  }

  /** The positions of s that hold a value. */
  function PresentAt(s: seq<Sample>): nat -> bool
  {
    (j: nat) => j < |s| && s[j].Some?
  }

  /**
    The values that are present, in order of position (what `skipna=True`
    keeps): value t is the one at the t-th present position.
   */
  function Present(s: seq<Sample>): (r: seq<real>)
    ensures |r| == |Kept(|s|, PresentAt(s))|
    ensures forall t :: 0 <= t < |r| ==> s[Kept(|s|, PresentAt(s))[t]] == Some(r[t])
    ensures r == [] <==> forall j :: 0 <= j < |s| ==> s[j].None?
  {
    KeptNone(|s|, PresentAt(s));
    assert forall j :: 0 <= j < |s| ==> PresentAt(s)(j) == s[j].Some?;
    var w := Where(s, PresentAt(s));
    seq(|w|, t requires 0 <= t < |w| => w[t].value)
  }

  /** `pd.Series(s).mean(skipna=True)`: NaN exactly when no value is present. */
  function MeanSkipNa(s: seq<Sample>): (r: Sample)
    ensures r.Some? <==> exists j :: 0 <= j < |s| && s[j].Some?
  {
    var p := Present(s);
    Mean(p)
  }

  /** The skip-missing mean lies between two present values of the sequence. */
  lemma MeanSkipNaSpec(s: seq<Sample>)
    ensures MeanSkipNa(s).Some? ==>
      exists lo, hi :: 0 <= lo < |s| && 0 <= hi < |s| && s[lo].Some? && s[hi].Some?
        && s[lo].value <= MeanSkipNa(s).value <= s[hi].value
  {
    var p := Present(s);
    if p != [] {
      var k := Kept(|s|, PresentAt(s));
      var m := Mean(p).value;
      MeanWithinRange(p);
      var a :| 0 <= a < |p| && p[a] == Min(p);
      var b :| 0 <= b < |p| && p[b] == Max(p);
      var lo, hi := k[a], k[b];
      assert s[lo] == Some(p[a]) && s[hi] == Some(p[b]);
      assert 0 <= lo < |s| && 0 <= hi < |s| && s[lo].value <= m <= s[hi].value;
    }
  }

  /** Python's `a - b` on floats: NaN when either side is NaN. */
  function Sub(a: Sample, b: Sample): (r: Sample)
    ensures r.Some? <==> a.Some? && b.Some?
    ensures r.Some? ==> a.value == r.value + b.value
  {
    if a.Some? && b.Some? then Some(a.value - b.value) else None
  }

  function Abs(v: real): (r: real)
    ensures r >= 0.0 && (r == v || r == -v)
  {
    if v < 0.0 then -v else v
  }
}
