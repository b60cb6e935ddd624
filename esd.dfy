/**
  The Generalized Extreme Studentized Deviate loop of `esd_test`.

  One round (`Select`) estimates location and dispersion over the residuals
  still unmasked, picks the unmasked position of greatest normalised
  deviation and computes the critical value. The loop itself is specified by
  `Run`, a function that performs the rounds one after another on an
  immutable state, for any round function that picks unmasked positions;
  the method `Rounds` performs them on a mask array and a growing anomaly
  list and is proved to agree with it. The bookkeeping properties (one more
  position masked per round, anomalies distinct, in range and masked, at
  most k of them, in discovery order) are proved about `Run` and so hold
  whatever library routines are plugged into the statistics.
 */
module Esd {
  import opened Numeric
  import opened Decomposition
  import opened EsdStatistics

  /** `if ub > 0.4999: ub = 0.499`. */
  function ClampUb(ub: real): (r: real)
    ensures r <= 0.4999 && r <= ub
    ensures ub <= 0.4999 ==> r == ub
    ensures r == ub || r == 0.499
  {
    if ub > 0.4999 then 0.499 else ub
  }

  /**
    `k = max(int(np.floor(ub * nobs)), 1)`, the number of rounds. At least
    one; for a clamped ub never more than the series length, and for two or
    more observations never more than half of them.
   */
  function MaxAnomalies(ub: real, nobs: nat): (k: nat)
    ensures k >= 1
    ensures k == 1 || ((k as real) <= ub * (nobs as real) < (k + 1) as real)
    ensures k == 1 ==> ub * (nobs as real) < 2.0
    ensures ub <= 0.4999 && nobs >= 1 ==> k <= nobs
    ensures ub <= 0.4999 && nobs >= 2 ==> 2 * k <= nobs
    ensures ub <= 0.4999 && nobs >= 3 ==> 2 * k < nobs
  {
    var f := (ub * (nobs as real)).Floor;
    FloorBelowHalf(ub, nobs);
    if f > 1 then f else 1
  }

  /** A clamped fraction of nobs, rounded down, is less than half of nobs. */
  lemma FloorBelowHalf(ub: real, nobs: nat)
    ensures ub <= 0.4999 && nobs >= 1 ==> 2 * (ub * (nobs as real)).Floor < nobs
  {
    if ub <= 0.4999 && nobs >= 1 {
      var n := nobs as real;
      var p := ub * n;
      var f := p.Floor;
      ScaleBelow(ub, 0.4999, n);
      assert (f as real) <= p;
      assert 2.0 * (f as real) < n;
      assert ((2 * f) as real) < n;
    }
  }

  lemma ScaleBelow(a: real, b: real, n: real)
    requires a <= b && n >= 0.0
    ensures a * n <= b * n
  {
    assert (b - a) * n >= 0.0;
  }

  /** A caller's ub of 0.9 on 100 observations still gives at most 49 rounds. */
  lemma ClampedRoundsExample()
    ensures MaxAnomalies(ClampUb(0.9), 100) == 49
  {
    assert ClampUb(0.9) * 100.0 == 49.9;
  }

  /** `res.mask.sum()`: the number of masked positions. */
  function CountTrue(mask: seq<bool>): (c: nat)
    ensures c <= |mask|
  {
    if mask == [] then 0
    else CountTrue(mask[..|mask| - 1]) + (if mask[|mask| - 1] then 1 else 0)
  }

  /** The positions of a mask that are not masked. */
  function Open(mask: seq<bool>): nat -> bool
  {
    (j: nat) => j < |mask| && !mask[j]
  }

  /**
    The residuals at unmasked positions, in order: what the estimators see
    of the masked array. Element t is the residual at the t-th unmasked
    position (by `Kept`, every unmasked position is listed once, in
    increasing order, and no masked one); the list is empty exactly when
    every position is masked.
   */
  function Unmasked(res: seq<real>, mask: seq<bool>): (r: seq<real>)
    requires |res| == |mask|
    ensures |r| == |Kept(|res|, Open(mask))|
    ensures forall t :: 0 <= t < |r| ==>
      !mask[Kept(|res|, Open(mask))[t]] && r[t] == res[Kept(|res|, Open(mask))[t]]
    ensures r == [] <==> forall j :: 0 <= j < |mask| ==> mask[j]
  {
    KeptNone(|res|, Open(mask));
    assert forall j :: 0 <= j < |mask| ==> Open(mask)(j) == !mask[j];
    Where(res, Open(mask))
  }

  /** Below n, the unmasked positions and the masked ones add up to n. */
  lemma {:induction false} OpenCount(mask: seq<bool>, n: nat)
    requires n <= |mask|
    ensures |Kept(n, Open(mask))| + CountTrue(mask[..n]) == n
  {
    if n > 0 {
      OpenCount(mask, n - 1);
      assert mask[..n][..n - 1] == mask[..n - 1];
      assert Kept(n, Open(mask)) == Kept(n - 1, Open(mask)) + (if Open(mask)(n - 1) then [n - 1] else []);
    }
  }

  /** The estimators see exactly the positions the mask does not count. */
  lemma UnmaskedLength(res: seq<real>, mask: seq<bool>)
    requires |res| == |mask|
    ensures |Unmasked(res, mask)| == |mask| - CountTrue(mask)
  {
    OpenCount(mask, |mask|);
    assert mask[..|mask|] == mask;
  }

  /** Masking one more unmasked position raises the count by one. */
  lemma {:induction false} MaskOne(mask: seq<bool>, idx: nat)
    requires idx < |mask| && !mask[idx]
    ensures CountTrue(mask[idx := true]) == CountTrue(mask) + 1
  {
    var last := |mask| - 1;
    var m := mask[idx := true];
    assert m[..last] == if idx < last then mask[..last][idx := true] else mask[..last];
    if idx < last {
      MaskOne(mask[..last], idx);
    }
  }

  /** The normalised deviation of one value: |v - location| / dispersion. */
  function Score(v: real, location: real, dispersion: real): real
    requires dispersion != 0.0
  {
    Abs(v - location) / dispersion
  }

  /**
    The score is the distance from the location in units of the
    dispersion: scaled back it is that distance, and for a positive
    dispersion it is never negative.
   */
  lemma ScoreMeaning(v: real, location: real, dispersion: real)
    requires dispersion != 0.0
    ensures Score(v, location, dispersion) * dispersion == Abs(v - location)
    ensures dispersion > 0.0 ==> Score(v, location, dispersion) >= 0.0
  {
  }

  /**
    `np.abs(res - location) / dispersion`, for every position: each entry,
    scaled back by the dispersion, is that residual's distance from the
    location, and none is negative for a positive dispersion.
   */
  function Deviations(res: seq<real>, location: real, dispersion: real): (r: seq<real>)
    requires dispersion != 0.0
    ensures |r| == |res|
    ensures forall j :: 0 <= j < |res| ==> r[j] == Score(res[j], location, dispersion)
    ensures forall j :: 0 <= j < |res| ==> r[j] * dispersion == Abs(res[j] - location)
    ensures dispersion > 0.0 ==> forall j :: 0 <= j < |res| ==> r[j] >= 0.0
  {
    assert forall j :: 0 <= j < |res| ==>
      && Score(res[j], location, dispersion) * dispersion == Abs(res[j] - location)
      && (dispersion > 0.0 ==> Score(res[j], location, dispersion) >= 0.0)
    by {
      forall j | 0 <= j < |res| {
        ScoreMeaning(res[j], location, dispersion);
      }
    }
    seq(|res|, j requires 0 <= j < |res| => Score(res[j], location, dispersion))
  }

  /**
    `np.argmax` of a masked array, restricted to the first len positions:
    the first unmasked position holding the greatest value, or None when
    every position is masked.
   */
  function ArgMaxUnmasked(dev: seq<real>, mask: seq<bool>, len: nat): (r: Option<nat>)
    requires |dev| == |mask| && len <= |dev|
    ensures r.None? <==> forall j :: 0 <= j < len ==> mask[j]
    ensures r.Some? ==>
      && r.value < len && !mask[r.value]
      && (forall j :: 0 <= j < len && !mask[j] ==> dev[j] <= dev[r.value])
      && (forall j :: 0 <= j < r.value && !mask[j] ==> dev[j] < dev[r.value])
    decreases len
  {
    if len == 0 then None
    else
      var best := ArgMaxUnmasked(dev, mask, len - 1);
      if mask[len - 1] then best
      else if best.Some? && dev[len - 1] <= dev[best.value] then best
      else Some(len - 1)
  }

  /**
    The critical value of round i when n observations are still under test:
    (n - i) * t / sqrt((n - i - 1 + t^2) * (n - i - 1)) with
    t = t.ppf(alpha, n - i - 1). `None` stands for the NaN that scipy
    returns for non-positive degrees of freedom, and for a zero denominator.
   */
  function CriticalValue(lib: Routines, alpha: real, n: int, i: int): (r: Option<real>)
    ensures r.Some? ==> n - i - 1 > 0
  {
    var df := n - i - 1;
    if df <= 0 then None
    else
      var q := lib.tQuantile(alpha, df);
      var denominator := lib.sqrt((df as real + q * q) * (df as real));
      if denominator == 0.0 then None else Some((n - i) as real * q / denominator)
  }

  /** With a sound square root the critical value exists whenever df > 0. */
  lemma CriticalDefined(lib: Routines, alpha: real, n: int, i: int)
    requires SqrtSound(lib.sqrt) && n - i - 1 > 0
    ensures CriticalValue(lib, alpha, n, i).Some?
  {
    var df := n - i - 1;
    var q := lib.tQuantile(alpha, df);
    var v := (df as real + q * q) * (df as real);
    assert q * q >= 0.0;
    assert v > 0.0;
    assert lib.sqrt(v) * lib.sqrt(v) == v;
  }

  /** Everything a run of the loop reads. */
  datatype Context = Context(lib: Routines, residual: seq<real>, alpha: real, hybrid: bool)

  /** What one round finds: the most extreme index, its statistic, the threshold. */
  datatype Selection = Selection(index: nat, statistic: real, critical: Option<real>)

  /** The loop's variables after some rounds: the mask, `anomalies`, and the round count. */
  datatype EsdState = EsdState(mask: seq<bool>, anomalies: seq<nat>, rounds: nat)

  /** `esd_test_statistics` over the residuals still unmasked. */
  function Estimate(ctx: Context, mask: seq<bool>): (r: Stats)
    requires |mask| == |ctx.residual|
    ensures r.location.Some? <==> exists j :: 0 <= j < |mask| && !mask[j]
    ensures r.dispersion.Some? <==> |mask| - CountTrue(mask) >= (if ctx.hybrid then 1 else 2)
  {
    UnmaskedLength(ctx.residual, mask);
    TestStatistics(ctx.lib, Unmasked(ctx.residual, mask), ctx.hybrid)
  }

  /** No usable dispersion: NaN (too few values) or zero. */
  predicate Degenerate(st: Stats)
  {
    st.location.None? || st.dispersion.None? || st.dispersion.value == 0.0
  }

  /**
    `idx = np.argmax(tmp)` with `tmp = np.abs(res - location) / dispersion`, over the
    unmasked positions and the deviation found there.
   */
  function MostExtreme(res: seq<real>, mask: seq<bool>, location: real, dispersion: real): (r: (nat, real))
    requires |res| == |mask| && dispersion != 0.0
    requires exists j :: 0 <= j < |mask| && !mask[j]
    ensures r.0 < |mask| && !mask[r.0]
    ensures r.1 == Score(res[r.0], location, dispersion)
    ensures forall j :: 0 <= j < |mask| && !mask[j] ==> Score(res[j], location, dispersion) <= r.1
    ensures forall j :: 0 <= j < r.0 && !mask[j] ==> Score(res[j], location, dispersion) < r.1
  {
    var dev := Deviations(res, location, dispersion);
    var idx := ArgMaxUnmasked(dev, mask, |dev|).value;
    (idx, dev[idx])
  }

  /**
    The body of the `for i` loop up to `critical_value = ...`: estimate location and dispersion over the
    unmasked residuals, pick the unmasked index of greatest normalised
    deviation and compute the critical value for n = nobs - (masked count).
    `None` when the statistics are degenerate (no dispersion or a zero one),
    where the model stops the loop.
   */
  function Select(ctx: Context, i: nat, mask: seq<bool>): (r: Option<Selection>)
    requires |mask| == |ctx.residual|
    ensures r.None? <==> Degenerate(Estimate(ctx, mask))
    ensures r.Some? ==>
      var st := Estimate(ctx, mask);
      var loc, disp := st.location.value, st.dispersion.value;
      && r.value.index < |mask| && !mask[r.value.index]
      && r.value.statistic == Score(ctx.residual[r.value.index], loc, disp)
      && (forall j :: 0 <= j < |mask| && !mask[j] ==>
            Score(ctx.residual[j], loc, disp) <= r.value.statistic)
      && (forall j :: 0 <= j < r.value.index && !mask[j] ==>
            Score(ctx.residual[j], loc, disp) < r.value.statistic)
  {
    var st := Estimate(ctx, mask);
    if Degenerate(st) then None
    else
      var pick := MostExtreme(ctx.residual, mask, st.location.value, st.dispersion.value);
      var n := |mask| - CountTrue(mask);
      Some(Selection(pick.0, pick.1, CriticalValue(ctx.lib, ctx.alpha, n, i)))
  }

  /** `test_statistic > critical_value`; a NaN threshold never is exceeded. */
  predicate Exceeds(sel: Selection): (b: bool)
    ensures sel.critical.None? ==> !b
    ensures sel.critical.Some? ==> (b <==> sel.statistic > sel.critical.value)
  {
    sel.critical.Some? && sel.statistic > sel.critical.value
  }

  /** `if test_statistic > critical_value: anomalies.append(idx)`, then `res.mask[idx] = True` either way. */
  function Advance(s: EsdState, sel: Selection): (r: EsdState)
    requires sel.index < |s.mask|
    ensures |r.mask| == |s.mask| && r.mask[sel.index]
    ensures forall j :: 0 <= j < |s.mask| && j != sel.index ==> r.mask[j] == s.mask[j]
    ensures r.anomalies == s.anomalies + (if Exceeds(sel) then [sel.index] else [])
    ensures r.rounds == s.rounds + 1
  {
    EsdState(s.mask[sel.index := true],
             if Exceeds(sel) then s.anomalies + [sel.index] else s.anomalies,
             s.rounds + 1)
  }

  /**
    A round function for a series of n observations: defined on every mask
    of length n and, when it selects, selecting a position not yet masked.
   */
  ghost predicate Picks(round: (nat, seq<bool>) --> Option<Selection>, n: nat)
  {
    forall i: nat, m: seq<bool> | |m| == n ::
      && round.requires(i, m)
      && (round(i, m).Some? ==> round(i, m).value.index < n && !m[round(i, m).value.index])
  }

  /**
    Rounds s.rounds + 1 .. k of the loop, each one performed by `round`,
    stopping early when a round selects nothing.
   */
  function Run(round: (nat, seq<bool>) --> Option<Selection>, n: nat, k: nat, s: EsdState): (r: EsdState)
    requires Picks(round, n) && |s.mask| == n
    ensures |r.mask| == n
    decreases k - s.rounds
  {
    if s.rounds >= k then s
    else
      match round(s.rounds + 1, s.mask)
      case None => s
      case Some(sel) => Run(round, n, k, Advance(s, sel))
  }

  /** The rounds of `esd_test` on the residuals of ctx. */
  function Round(ctx: Context): (r: (nat, seq<bool>) --> Option<Selection>)
    ensures Picks(r, |ctx.residual|)
  {
    (i: nat, m: seq<bool>) requires |m| == |ctx.residual| => Select(ctx, i, m)
  }

  /** Nothing masked, nothing found. */
  function Start(n: nat): EsdState
  {
    EsdState(seq(n, _ => false), [], 0)
  }

  ghost predicate Distinct(s: seq<nat>)
  {
    forall a, b :: 0 <= a < b < |s| ==> s[a] != s[b]
  }

  /**
    The invariant of the loop: as many positions masked as rounds done,
    and the anomalies distinct, in range and masked, at most one per round.
   */
  ghost predicate Consistent(n: nat, s: EsdState)
  {
    && |s.mask| == n
    && CountTrue(s.mask) == s.rounds
    && |s.anomalies| <= s.rounds
    && Distinct(s.anomalies)
    && (forall a :: 0 <= a < |s.anomalies| ==> s.anomalies[a] < n && s.mask[s.anomalies[a]])
  }

  lemma {:induction false} StartConsistent(n: nat)
    ensures Consistent(n, Start(n))
  {
    var m := Start(n).mask;
    if n > 0 {
      StartConsistent(n - 1);
      assert m[..n - 1] == Start(n - 1).mask;
    }
  }

  /**
    One round that selects an unmasked position of a consistent state: the
    position was not reported before, the state stays consistent, and the
    position is reported exactly when its statistic exceeds the critical
    value.
   */
  lemma AdvanceConsistent(n: nat, s: EsdState, sel: Selection)
    requires Consistent(n, s) && sel.index < n && !s.mask[sel.index]
    ensures sel.index !in s.anomalies
    ensures Consistent(n, Advance(s, sel))
    ensures sel.index in Advance(s, sel).anomalies <==> Exceeds(sel)
  {
    var next := Advance(s, sel);
    MaskOne(s.mask, sel.index);
    forall a | 0 <= a < |next.anomalies|
      ensures next.anomalies[a] < n && next.mask[next.anomalies[a]]
    {
      if a < |s.anomalies| {
        assert next.anomalies[a] == s.anomalies[a];
      }
    }
  }

  /**
    In a consistent state, round `rounds + 1` sees nobs - rounds residuals
    and compares against the critical value for that many observations.
   */
  lemma RoundCritical(ctx: Context, s: EsdState)
    requires Consistent(|ctx.residual|, s)
    requires Select(ctx, s.rounds + 1, s.mask).Some?
    ensures |Unmasked(ctx.residual, s.mask)| == |ctx.residual| - s.rounds
    ensures Select(ctx, s.rounds + 1, s.mask).value.critical
         == CriticalValue(ctx.lib, ctx.alpha, |ctx.residual| - s.rounds, s.rounds + 1)
  {
    UnmaskedLength(ctx.residual, s.mask);
  }

  /**
    Round i sees n = nobs - (i - 1) values and so n - i - 1 = nobs - 2i
    degrees of freedom. While fewer than k rounds are done and 2k < nobs
    (which the clamp of ub guarantees from three observations on), these
    are positive, so with a sound square root every round has a critical
    value.
   */
  lemma CriticalInEveryRound(ctx: Context, k: nat, s: EsdState)
    requires SqrtSound(ctx.lib.sqrt)
    requires Consistent(|ctx.residual|, s) && s.rounds < k && 2 * k < |ctx.residual|
    requires Select(ctx, s.rounds + 1, s.mask).Some?
    ensures Select(ctx, s.rounds + 1, s.mask).value.critical.Some?
  {
    RoundCritical(ctx, s);
    CriticalDefined(ctx.lib, ctx.alpha, |ctx.residual| - s.rounds, s.rounds + 1);
  }

  /**
    `inv` survives every round: masking a position not yet masked, whether
    or not it is reported.
   */
  ghost predicate KeptByRounds(n: nat, inv: EsdState -> bool)
  {
    forall t: EsdState, sel: Selection | |t.mask| == n && sel.index < n && !t.mask[sel.index] ::
      inv(t) ==> inv(Advance(t, sel))
  }

  /** A property every round keeps holds at the end of any run. */
  lemma {:induction false} RunKeeps(round: (nat, seq<bool>) --> Option<Selection>, n: nat, k: nat, s: EsdState,
                                    inv: EsdState -> bool)
    requires Picks(round, n) && |s.mask| == n
    requires KeptByRounds(n, inv) && inv(s)
    ensures inv(Run(round, n, k, s))
    decreases k - s.rounds
  {
    var o := round(s.rounds + 1, s.mask);
    if s.rounds < k && o.Some? {
      RunKeeps(round, n, k, Advance(s, o.value), inv);
      RunUnfold(round, n, k, s);
    } else {
      assert Run(round, n, k, s) == s;
    }
  }

  /** A run from a consistent state ends in a consistent state. */
  lemma RunConsistent(round: (nat, seq<bool>) --> Option<Selection>, n: nat, k: nat, s: EsdState)
    requires Picks(round, n) && Consistent(n, s)
    ensures Consistent(n, Run(round, n, k, s))
  {
    var inv := (t: EsdState) => Consistent(n, t);
    forall t: EsdState, sel: Selection | |t.mask| == n && sel.index < n && !t.mask[sel.index] && inv(t)
      ensures inv(Advance(t, sel))
    {
      AdvanceConsistent(n, t, sel);
    }
    RunKeeps(round, n, k, s, inv);
  }

  /**
    A run performs at least the rounds already done and at most k; it only
    adds to the mask and to the end of the anomaly list, so the anomalies
    come out in the order they were found.
   */
  lemma {:induction false} RunExtends(round: (nat, seq<bool>) --> Option<Selection>, n: nat, k: nat, s: EsdState)
    requires Picks(round, n) && |s.mask| == n && s.rounds <= k
    ensures s.rounds <= Run(round, n, k, s).rounds <= k
    ensures s.anomalies <= Run(round, n, k, s).anomalies
    ensures forall j :: 0 <= j < n && s.mask[j] ==> Run(round, n, k, s).mask[j]
    decreases k - s.rounds
  {
    var o := round(s.rounds + 1, s.mask);
    if s.rounds < k && o.Some? {
      var next := Advance(s, o.value);
      RunExtends(round, n, k, next);
      RunUnfold(round, n, k, s);
      assert s.anomalies <= next.anomalies;
    } else {
      assert Run(round, n, k, s) == s;
    }
  }

  /** The loop is over: k rounds done, or the next round selects nothing. */
  ghost predicate Stopped(round: (nat, seq<bool>) --> Option<Selection>, n: nat, k: nat, r: EsdState)
    requires Picks(round, n) && |r.mask| == n
  {
    r.rounds >= k || round(r.rounds + 1, r.mask).None?
  }

  /** A run stops before its k rounds only when a round selects nothing. */
  lemma {:induction false} RunStopsEarly(round: (nat, seq<bool>) --> Option<Selection>, n: nat, k: nat, s: EsdState)
    requires Picks(round, n) && |s.mask| == n
    ensures Stopped(round, n, k, Run(round, n, k, s))
    decreases k - s.rounds
  {
    var o := round(s.rounds + 1, s.mask);
    if s.rounds < k && o.Some? {
      RunStopsEarly(round, n, k, Advance(s, o.value));
      RunUnfold(round, n, k, s);
    } else {
      assert Run(round, n, k, s) == s;
    }
  }

  /** A run that has stopped performs no further round. */
  lemma RunHalts(round: (nat, seq<bool>) --> Option<Selection>, n: nat, k: nat, s: EsdState)
    requires Picks(round, n) && |s.mask| == n && Stopped(round, n, k, s)
    ensures Run(round, n, k, s) == s
  {
  }

  /** A round that selects continues the run from the advanced state. */
  lemma RunUnfold(round: (nat, seq<bool>) --> Option<Selection>, n: nat, k: nat, s: EsdState)
    requires Picks(round, n) && |s.mask| == n && s.rounds < k && round(s.rounds + 1, s.mask).Some?
    ensures Run(round, n, k, s) == Run(round, n, k, Advance(s, round(s.rounds + 1, s.mask).value))
  {
  }

  /**
    A run of `esd_test`'s rounds ends before its k rounds only where the
    statistics over the remaining residuals are degenerate.
   */
  lemma StopsOnlyWhenDegenerate(ctx: Context, k: nat)
    ensures var r := Run(Round(ctx), |ctx.residual|, k, Start(|ctx.residual|));
      r.rounds < k ==> Degenerate(Estimate(ctx, r.mask))
  {
    RunStopsEarly(Round(ctx), |ctx.residual|, k, Start(|ctx.residual|));
  }

  /** The series as samples, none missing. */
  function Lift(x: seq<real>): (r: seq<Sample>)
    ensures |r| == |x| && forall j :: 0 <= j < |x| ==> r[j] == Some(x[j])
  {
    seq(|x|, j requires 0 <= j < |x| => Some(x[j]))
  }

  function Values(s: seq<Sample>): (r: seq<real>)
    requires forall j :: 0 <= j < |s| ==> s[j].Some?
    ensures |r| == |s| && forall j :: 0 <= j < |s| ==> s[j] == Some(r[j])
  {
    seq(|s|, j requires 0 <= j < |s| => s[j].value)
  }

  /**
    `res_tmp`, the residual of the decomposition of a series without
    missing values, as plain numbers: none of them is missing.
   */
  function Residuals(lib: Routines, x: seq<real>, freq: int): (r: seq<real>)
    requires freq >= 1
    ensures |r| == |x|
    ensures forall j :: 0 <= j < |x| ==> Decompose(Lift(x), freq, lib.median).value.residual[j] == Some(r[j])
  {
    ResidualComplete(Lift(x), freq, lib.median);
    Values(Decompose(Lift(x), freq, lib.median).value.residual)
  }

  /**
    `esd_test(x, freq, alpha=0.95, ub=0.499, hybrid=True)` as a function: the final loop
    state, whose `anomalies` the source returns.
   */
  function Detect(lib: Routines, x: seq<real>, freq: int,
                  alpha: real := 0.95, ub: real := 0.499, hybrid: bool := true)
    : (r: Result<EsdState>)
    ensures r.Failure? <==> freq <= 0 || |x| == 0
    ensures freq <= 0 ==> r == Failure(PeriodNotPositive)
    ensures freq > 0 && |x| == 0 ==> r == Failure(EmptySeries)
    ensures r.Success? ==> |r.value.mask| == |x|
  {
    match Decompose(Lift(x), freq, lib.median)
    case Failure(e) => Failure(e)
    case Success(_) =>
      if |x| == 0 then Failure(EmptySeries)
      else
        var ctx := Context(lib, Residuals(lib, x, freq), alpha, hybrid);
        Success(Run(Round(ctx), |x|, MaxAnomalies(ClampUb(ub), |x|), Start(|x|)))
  }

  /**
    A successful detection performs at most k rounds, masking one index per
    round, and returns distinct in-range indices, each of them masked, at
    most k of them.
   */
  lemma DetectSound(lib: Routines, x: seq<real>, freq: int, alpha: real, ub: real, hybrid: bool)
    ensures var r := Detect(lib, x, freq, alpha, ub, hybrid);
      r.Success? ==>
        && Consistent(|x|, r.value)
        && r.value.rounds <= MaxAnomalies(ClampUb(ub), |x|) <= |x|
        && |r.value.anomalies| <= MaxAnomalies(ClampUb(ub), |x|)
  {
    if freq > 0 && |x| > 0 {
      var ctx := Context(lib, Residuals(lib, x, freq), alpha, hybrid);
      StartConsistent(|x|);
      RunConsistent(Round(ctx), |x|, MaxAnomalies(ClampUb(ub), |x|), Start(|x|));
      RunExtends(Round(ctx), |x|, MaxAnomalies(ClampUb(ub), |x|), Start(|x|));
    }
  }

  /** With nothing masked the estimators see every residual. */
  lemma UnmaskedNone(res: seq<real>, mask: seq<bool>)
    requires |res| == |mask| && forall j :: 0 <= j < |mask| ==> !mask[j]
    ensures Unmasked(res, mask) == res
  {
    assert forall j :: 0 <= j < |res| ==> Open(mask)(j);
    KeptAll(|res|, Open(mask));
  }

  /** Before any round the statistics are those of every residual. */
  lemma StartEstimate(ctx: Context)
    ensures Estimate(ctx, Start(|ctx.residual|).mask) == TestStatistics(ctx.lib, ctx.residual, ctx.hybrid)
  {
    UnmaskedNone(ctx.residual, Start(|ctx.residual|).mask);
  }

  /**
    Residuals that are all equal give a degenerate estimate in the first
    round, so a run stops there with nothing masked and nothing flagged.
   */
  lemma ConstantStops(ctx: Context, c: real, k: nat)
    requires Sound(ctx.lib) && |ctx.residual| >= 1
    requires forall j :: 0 <= j < |ctx.residual| ==> ctx.residual[j] == c
    ensures Run(Round(ctx), |ctx.residual|, k, Start(|ctx.residual|)) == Start(|ctx.residual|)
  {
    var s := Start(|ctx.residual|);
    ConstantDegenerate(ctx, c);
    assert Select(ctx, 1, s.mask).None?;
    assert Round(ctx)(1, s.mask).None?;
    RunHalts(Round(ctx), |ctx.residual|, k, s);
  }

  /** All residuals equal: the statistics of the first round are degenerate. */
  lemma ConstantDegenerate(ctx: Context, c: real)
    requires Sound(ctx.lib) && |ctx.residual| >= 1
    requires forall j :: 0 <= j < |ctx.residual| ==> ctx.residual[j] == c
    ensures Degenerate(Estimate(ctx, Start(|ctx.residual|).mask))
  {
    StartEstimate(ctx);
    ConstantDispersion(ctx.lib, ctx.residual, c, ctx.hybrid);
  }

  /** The context `Detect` runs its rounds on: the residuals of the decomposition. */
  lemma DetectRuns(lib: Routines, x: seq<real>, freq: int, alpha: real, ub: real, hybrid: bool)
    returns (ctx: Context)
    requires freq >= 1 && |x| >= 1
    ensures ctx.lib == lib && ctx.alpha == alpha && ctx.hybrid == hybrid && |ctx.residual| == |x|
    ensures forall j :: 0 <= j < |x| ==>
      Decompose(Lift(x), freq, lib.median).value.residual[j] == Some(ctx.residual[j])
    ensures Detect(lib, x, freq, alpha, ub, hybrid)
      == Success(Run(Round(ctx), |x|, MaxAnomalies(ClampUb(ub), |x|), Start(|x|)))
  {
    ctx := Context(lib, Residuals(lib, x, freq), alpha, hybrid);
  }

  /** A series whose decomposition leaves one residual value everywhere has no anomalies. */
  lemma ConstantResidualNoAnomalies(lib: Routines, x: seq<real>, freq: int, alpha: real, ub: real, hybrid: bool, c: real)
    requires Sound(lib) && freq >= 1 && |x| >= 1
    requires forall j :: 0 <= j < |x| ==> Decompose(Lift(x), freq, lib.median).value.residual[j] == Some(c)
    ensures Detect(lib, x, freq, alpha, ub, hybrid) == Success(Start(|x|))
  {
    var ctx := DetectRuns(lib, x, freq, alpha, ub, hybrid);
    var d := Decompose(Lift(x), freq, lib.median).value;
    forall j | 0 <= j < |x|
      ensures ctx.residual[j] == c
    {
      assert Some(ctx.residual[j]) == d.residual[j] == Some(c);
    }
    ConstantStops(ctx, c, MaxAnomalies(ClampUb(ub), |x|));
  }

  /** The residuals of a series repeating a pattern are all one value c. */
  lemma PeriodicResidualValue(medianOf: seq<real> -> real, x: seq<real>, p: seq<real>) returns (c: real)
    requires |p| >= 1 && |x| >= 1
    requires forall t :: 0 <= t < |x| ==> x[t] == p[t % |p|]
    ensures forall j :: 0 <= j < |x| ==> Decompose(Lift(x), |p|, medianOf).value.residual[j] == Some(c)
  {
    assert forall t :: 0 <= t < |x| ==> Lift(x)[t] == Some(p[t % |p|]);
    c := PeriodicResidual(Lift(x), p, medianOf);
  }

  /**
    A series that repeats a pattern exactly, analysed with the pattern's
    length as the period, has no anomalies: its residuals are all equal,
    so the first round already finds a zero or undefined dispersion and
    the loop stops with nothing flagged.
   */
  lemma PeriodicHasNoAnomalies(lib: Routines, x: seq<real>, p: seq<real>, alpha: real, ub: real, hybrid: bool)
    requires Sound(lib) && |p| >= 1 && |x| >= 1
    requires forall t :: 0 <= t < |x| ==> x[t] == p[t % |p|]
    ensures Detect(lib, x, |p|, alpha, ub, hybrid) == Success(Start(|x|))
  {
    var c := PeriodicResidualValue(lib.median, x, p);
    ConstantResidualNoAnomalies(lib, x, |p|, alpha, ub, hybrid, c);
  }

  function AnomaliesOf(r: Result<EsdState>): Result<seq<nat>>
  {
    match r
    case Failure(e) => Failure(e)
    case Success(s) => Success(s.anomalies)
  }

  /**
    The `for i in range(1, k+1)` loop: the rounds on a mask array updated in place and an anomaly
    list that grows at its end, round i computed by `round`; the result is
    the anomaly list of `Run`.
   */
  method Rounds(round: (nat, seq<bool>) --> Option<Selection>, n: nat, k: nat) returns (anomalies: seq<nat>)
    requires Picks(round, n)
    ensures anomalies == Run(round, n, k, Start(n)).anomalies
  {
    var mask := new bool[n](_ => false);
    anomalies := [];
    var i := 1;
    assert mask[..] == Start(n).mask;
    while i <= k
      invariant 1 <= i <= k + 1
      invariant mask.Length == n
      invariant Run(round, n, k, Start(n)) == Run(round, n, k, EsdState(mask[..], anomalies, i - 1))
    {
      var state := EsdState(mask[..], anomalies, i - 1);
      var sel := round(i, mask[..]);
      if sel.None? {
        assert Run(round, n, k, state) == state;
        return;
      }
      RunUnfold(round, n, k, state);
      var idx := sel.value.index;
      if Exceeds(sel.value) {
        anomalies := anomalies + [idx];
      }
      mask[idx] := true;
      i := i + 1;
      assert EsdState(mask[..], anomalies, i - 1) == Advance(state, sel.value);
    }
    assert Run(round, n, k, EsdState(mask[..], anomalies, i - 1)) == EsdState(mask[..], anomalies, i - 1);
  }

  /** `esd_test(x, freq, alpha=0.95, ub=0.499, hybrid=True)`, with the same defaults. */
  method EsdTest(lib: Routines, x: seq<real>, freq: int,
                 alpha: real := 0.95, ub: real := 0.499, hybrid: bool := true)
    returns (r: Result<seq<nat>>)
    ensures r == AnomaliesOf(Detect(lib, x, freq, alpha, ub, hybrid))
  {
    var nobs := |x|;
    var k := MaxAnomalies(ClampUb(ub), nobs);
    var decomposition := Decompose(Lift(x), freq, lib.median);
    if decomposition.Failure? {
      return Failure(decomposition.error);
    }
    if nobs == 0 {
      return Failure(EmptySeries);
    }
    var ctx := Context(lib, Residuals(lib, x, freq), alpha, hybrid);
    assert Detect(lib, x, freq, alpha, ub, hybrid) == Success(Run(Round(ctx), nobs, k, Start(nobs)));
    var anomalies := Rounds(Round(ctx), nobs, k);
    return Success(anomalies);
  }
}
