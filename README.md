# S-H-ESD anomaly detection in Dafny

A model of `ts_anomaly_detection.py`, a seasonal-hybrid Extreme Studentized
Deviate (S-H-ESD) detector of anomalies in a time series. It has two parts.

The first part is the **seasonal-median decomposition** (`seasonal_mean`,
`ts_S_Md_decomposition`), in `decomposition.dfy`:
- the series is cut into `freq` phases (`x[i::freq]`), each averaged with missing values skipped;
- the phase means are tiled back to the length of the series;
- the whole-series median is broadcast;
- the residual is the series minus both.

The second part is the **generalised ESD test** (`esd_test_statistics`,
`esd_test`, with its defaults `alpha=0.95`, `ub=0.499`, `hybrid=True` as
default parameter values of `Esd.Detect` and `Esd.EsdTest`), in
`esd_statistics.dfy` and `esd.dfy`:
- the upper bound `ub` is clamped and the number of rounds `k` is derived from it;
- each of the `k` rounds estimates a location and a dispersion over the residuals still unmasked;
- it takes the unmasked residual with the greatest normalised deviation;
- it reports that residual's index when the deviation exceeds the round's critical value;
- it masks that index either way.

`numeric.dfy` holds the shared vocabulary: optional values (a missing value,
NaN, is `None`), results with the two error cases, and sums and means.

Numbers are `real`. The median, the square root and the Student-t quantile
(`scipy.stats.t.ppf`) are parameters, gathered in `EsdStatistics.Routines`.
`EsdStatistics.Sound` states the two facts the proofs use about them:
- a median lies between the least and the greatest value;
- a square root of a non-negative number is its non-negative root.

The loop of `esd_test` is modelled in two forms:
- the function `Esd.Run`, which performs the rounds on an immutable state;
- the method `Esd.Rounds`, which updates a `bool` mask array in place and appends to an anomaly list.

`Rounds` is proved to return exactly the anomaly list of `Run`. Both take the
round as a function argument, and `Esd.Round` instantiates it with the
source's round, `Esd.Select`. The loop's bookkeeping is proved about `Run`
for every round function that picks an unmasked position:
- one more position is masked per round;
- the reported indices are distinct, in range and masked;
- they come in discovery order;
- there are at most `k` of them.

These facts hold whatever routines are plugged into the statistics.

End to end, `Esd.PeriodicHasNoAnomalies` shows that a series which repeats a
pattern exactly yields no anomalies when it is analysed with the pattern's
length as its period. The steps are:
- every phase mean is the pattern's value, so every residual is the same number;
- the dispersion of equal values is zero (or undefined for a single value without `hybrid`);
- the first round therefore selects nothing.

In the source, in exact arithmetic, the same situation gives a dispersion of
zero, or NaN for a single observation without `hybrid` (`pd.Series.std` of
one value). numpy masks every quotient of the masked array `res` that is not
finite: each division by zero, and each division by NaN. So `np.argmax` sees
a fully masked array and returns position 0. The statistic
found there is masked, its comparison with the critical value is false, and
nothing is appended. Each round then masks position 0 again, and the
returned list is empty there too. (With floating-point means the spread of
equal values need not come out exactly zero.)

## Model

| member | source | states |
|---|---|---|
| Numeric.Mean | ts_anomaly_detection.py:67 | the mean is defined (not NaN) exactly for a non-empty sequence |
| Numeric.MeanWithinRange | ts_anomaly_detection.py:67 | the mean of a non-empty sequence lies between its least and its greatest element |
| Numeric.Kept | ts_anomaly_detection.py:13 | the positions below n that a test accepts: each one accepted and below n, listed in strictly increasing order |
| Numeric.KeptComplete | ts_anomaly_detection.py:13 | every accepted position below n is listed (with `Kept`, the list is exactly the accepted positions in order) |
| Numeric.KeptAll | ts_anomaly_detection.py:90 | when every position is accepted (`mask=False`), the list is 0, 1, ..., n - 1 |
| Numeric.KeptNone | ts_anomaly_detection.py:13 | the list is empty exactly when no position below n is accepted |
| Numeric.Present | ts_anomaly_detection.py:13 | the values `skipna=True` keeps: value t is the value of the t-th present sample, so every present value is kept once and in order, and no missing one; none exactly when every sample is missing |
| Numeric.MeanSkipNa | ts_anomaly_detection.py:13 | `.mean(skipna=True)` is defined (not NaN) exactly when some value is present |
| Numeric.MeanSkipNaSpec | ts_anomaly_detection.py:13 | a defined skip-missing mean lies between two present values |
| Numeric.Sub | ts_anomaly_detection.py:37 | a difference is missing exactly when an operand is missing; otherwise adding back the subtrahend gives the minuend |
| Decomposition.PhaseLength | ts_anomaly_detection.py:13 | `x[i::freq]` has ceil((nobs - i) / freq) elements, none when i >= nobs |
| Decomposition.PhaseStride | ts_anomaly_detection.py:13 | element t of `x[i::freq]` is x[i + t * freq], an index in range |
| Decomposition.PhaseHas | ts_anomaly_detection.py:13 | every in-range index i + m * freq is element m of `x[i::freq]` |
| Decomposition.PhaseElement | ts_anomaly_detection.py:13 | for i < freq, element t of `x[i::freq]` is x[j] for a j in range with j mod freq == i |
| Decomposition.PhasePosition | ts_anomaly_detection.py:13 | conversely, every position j with j mod freq == i is element j / freq of `x[i::freq]` |
| Decomposition.PhaseMeanWitnesses | ts_anomaly_detection.py:13 | a defined mean of phase i lies between two present values at positions j with j mod freq == i |
| Decomposition.PhaseMeanDefined | ts_anomaly_detection.py:13 | the mean of `x[i::freq]` is defined exactly when some position j with j mod freq == i holds a value |
| Decomposition.SeasonalMean | ts_anomaly_detection.py:13 | `seasonal_mean` returns exactly `freq` values |
| Decomposition.SeasonalMeanAt | ts_anomaly_detection.py:13 | the mean of phase i is defined exactly when some position j with j mod freq == i holds a value, and then lies between two present values of that phase |
| Decomposition.Tile | ts_anomaly_detection.py:31 | `np.tile(p, r)` has r times the length of p |
| Decomposition.TileAt | ts_anomaly_detection.py:31 | position j of a tiling holds pattern element j mod the pattern length |
| Decomposition.TileCovers | ts_anomaly_detection.py:31 | `nobs // freq + 1` repetitions always cover nobs positions |
| Decomposition.TileTo | ts_anomaly_detection.py:31 | tile-then-truncate has length nobs, and position j holds pattern element j mod the pattern length |
| Decomposition.MedianSkipNa | ts_anomaly_detection.py:34 | the skip-missing median is defined exactly when some value is present |
| Decomposition.Subtract | ts_anomaly_detection.py:37 | element-wise difference keeps the length; position j is missing exactly when an operand is, and otherwise adding back the subtrahend gives the minuend |
| Decomposition.Decompose | ts_anomaly_detection.py:16-39 | fails exactly for freq <= 0; otherwise observed is the input, all four components have length nobs, seasonal[j] is phase mean j mod freq, every median entry is the whole-series median, and residual[j] = x[j] - seasonal[j] - median[j] |
| Decomposition.SeasonalPeriodic | ts_anomaly_detection.py:31 | seasonal[j] == seasonal[j + freq] whenever j + freq < nobs |
| Decomposition.Additive | ts_anomaly_detection.py:37-39 | the residual is present exactly where observed, seasonal and median all are, and then observed == seasonal + median + residual exactly |
| Decomposition.ResidualComplete | ts_anomaly_detection.py:30-37 | a series without missing values and a positive period give a residual without missing values, even when freq exceeds nobs |
| Decomposition.PeriodicPhaseMean | ts_anomaly_detection.py:13 | in a series that repeats a pattern with no values missing, the mean of phase j mod freq is the observation at j |
| Decomposition.PeriodicResidualAt | ts_anomaly_detection.py:29-37 | for such a series the residual at every position is zero minus the whole-series median |
| Decomposition.PeriodicResidual | ts_anomaly_detection.py:29-37 | such a series has a defined median and one residual value c (minus that median) at every position |
| EsdStatistics.AbsDeviations | ts_anomaly_detection.py:65 | `np.abs(x - center)` keeps the length, and each entry is non-negative and equal to x[j] - center or center - x[j] |
| EsdStatistics.Median | ts_anomaly_detection.py:64 | the median is defined exactly for a non-empty input |
| EsdStatistics.MedianAbsDeviation | ts_anomaly_detection.py:65 | the median absolute deviation is defined exactly for a non-empty input |
| EsdStatistics.SquaredDeviations | ts_anomaly_detection.py:68 | squared deviations keep the length and are non-negative |
| EsdStatistics.SampleVariance | ts_anomaly_detection.py:68 | the sample variance (n - 1 in the denominator, from two values on) is never negative |
| EsdStatistics.StdDev | ts_anomaly_detection.py:68 | the standard deviation is defined exactly from two values on |
| EsdStatistics.TestStatistics | ts_anomaly_detection.py:59-70 | the location is defined exactly for a non-empty input; the dispersion is defined from one value with `hybrid` (median, MAD) and from two without it (mean, standard deviation) |
| EsdStatistics.TestStatisticsSound | ts_anomaly_detection.py:63-70 | with sound routines, either estimator pair gives a location between the least and the greatest value and a dispersion that is never negative |
| EsdStatistics.ConstantMedian | ts_anomaly_detection.py:64-65 | a sound median of equal values is that value |
| EsdStatistics.ConstantVariance | ts_anomaly_detection.py:68 | the sample variance of equal values is zero |
| EsdStatistics.ConstantDispersion | ts_anomaly_detection.py:59-70 | for equal values c, either estimator pair gives location c and a dispersion that is zero or undefined (one value, no `hybrid`) |
| Esd.ClampUb | ts_anomaly_detection.py:84-85 | the clamped ub never exceeds 0.4999 or the given ub; it is the given ub exactly when that is at most 0.4999, and 0.499 otherwise |
| Esd.MaxAnomalies | ts_anomaly_detection.py:86 | k = max(floor(ub * nobs), 1): k >= 1; k is 1 exactly when ub * nobs < 2, and otherwise k <= ub * nobs < k + 1; for a clamped ub, k <= nobs from one observation on, 2k <= nobs from two on, and 2k < nobs from three on |
| Esd.FloorBelowHalf | ts_anomaly_detection.py:84-86 | a clamped fraction of nobs, rounded down, is less than half of nobs |
| Esd.ClampedRoundsExample | ts_anomaly_detection.py:84-86 | a caller's ub of 0.9 on 100 observations gives 49 rounds |
| Esd.CountTrue | ts_anomaly_detection.py:97 | the number of masked positions never exceeds the length of the mask |
| Esd.Unmasked | ts_anomaly_detection.py:93 | the estimators see, in order, the residual at each unmasked position (value t is the residual at the t-th unmasked position, which is not masked) and none at a masked one; no values exactly when every position is masked |
| Esd.OpenCount | ts_anomaly_detection.py:97 | below n, the unmasked positions and the masked count add up to n |
| Esd.UnmaskedLength | ts_anomaly_detection.py:93-97 | the estimators see exactly nobs minus the masked count values |
| Esd.Estimate | ts_anomaly_detection.py:93 | the location is defined exactly when some position is unmasked; the dispersion exactly when at least one (`hybrid`) or two (otherwise) are |
| Esd.MaskOne | ts_anomaly_detection.py:101 | masking an unmasked position raises the masked count by one |
| Esd.ScoreMeaning | ts_anomaly_detection.py:94 | a normalised deviation times the dispersion is the distance from the location, and is never negative for a positive dispersion |
| Esd.Deviations | ts_anomaly_detection.py:94 | one normalised deviation per position; each, times the dispersion, is that residual's distance from the location, and none is negative for a positive dispersion |
| Esd.ArgMaxUnmasked | ts_anomaly_detection.py:95 | none exactly when every position is masked; otherwise an unmasked position whose deviation is at least that of every unmasked position and greater than that of every earlier unmasked position |
| Esd.MostExtreme | ts_anomaly_detection.py:94-96 | the chosen position is unmasked, its statistic is its normalised deviation, and no unmasked position has a greater one; it is the first position that has the greatest |
| Esd.CriticalValue | ts_anomaly_detection.py:98 | a critical value exists only for positive degrees of freedom n - i - 1 |
| Esd.CriticalDefined | ts_anomaly_detection.py:98 | with a sound square root, positive degrees of freedom always give a critical value |
| Esd.Select | ts_anomaly_detection.py:93-98 | a round selects nothing exactly when its statistics are degenerate; otherwise it picks an unmasked position whose statistic is its normalised deviation, maximal among the unmasked positions and strictly greater than that of every earlier unmasked position (the first maximum, as `np.argmax`) |
| Esd.Exceeds | ts_anomaly_detection.py:99 | a missing (NaN) critical value is never exceeded; otherwise the statistic must be strictly greater |
| Esd.Advance | ts_anomaly_detection.py:99-101 | one round's effect: the selected position becomes masked and no other changes, the index is appended exactly when it exceeds, and the round count goes up by one |
| Esd.Run | ts_anomaly_detection.py:92-101 | the rounds keep the length of the mask |
| Esd.Round | ts_anomaly_detection.py:93-98 | the source's round is defined on every mask of the series' length and only picks unmasked positions |
| Esd.StartConsistent | ts_anomaly_detection.py:90-91 | the initial state (nothing masked, no anomalies) satisfies the loop invariant |
| Esd.AdvanceConsistent | ts_anomaly_detection.py:99-101 | a round's index was not reported before, the invariant is kept, and the index is appended exactly when its statistic strictly exceeds the critical value |
| Esd.RoundCritical | ts_anomaly_detection.py:97-98 | the round after r rounds sees nobs - r values and uses the critical value for n = nobs - r, i = r + 1 |
| Esd.CriticalInEveryRound | ts_anomaly_detection.py:84-98 | while fewer than k rounds are done and 2k < nobs, every round has a critical value (its degrees of freedom nobs - 2i are positive) |
| Esd.RunKeeps | ts_anomaly_detection.py:92-101 | a property every round keeps holds at the end of any run |
| Esd.RunConsistent | ts_anomaly_detection.py:92-103 | a run from a consistent state ends consistent: masked count == rounds done, anomalies distinct, in range, masked and no more than the rounds |
| Esd.RunExtends | ts_anomaly_detection.py:92-103 | a run does between the rounds already done and k rounds, only adds to the mask, and only appends to the anomaly list (discovery order) |
| Esd.RunStopsEarly | ts_anomaly_detection.py:92 | a run ends after k rounds or where the next round selects nothing |
| Esd.RunHalts | ts_anomaly_detection.py:92 | a run that has done k rounds, or whose next round selects nothing, changes nothing |
| Esd.RunUnfold | ts_anomaly_detection.py:92-101 | a round that selects continues the run from the advanced state |
| Esd.StopsOnlyWhenDegenerate | ts_anomaly_detection.py:92-98 | the rounds of `esd_test` end early only where the statistics over the remaining residuals are degenerate |
| Esd.Residuals | ts_anomaly_detection.py:87 | a series without missing values and a positive period give nobs residuals, none missing, equal to the decomposition's |
| Esd.Detect | ts_anomaly_detection.py:73-103 | `esd_test` fails exactly for a non-positive period (`PeriodNotPositive`) or an empty series (`EmptySeries`); otherwise its final mask covers the series |
| Esd.DetectSound | ts_anomaly_detection.py:73-103 | a successful detection ends consistent after at most k <= nobs rounds, with at most k distinct, in-range, masked anomalies |
| Esd.UnmaskedNone | ts_anomaly_detection.py:90-93 | with nothing masked the estimators see every residual, in order |
| Esd.StartEstimate | ts_anomaly_detection.py:90-93 | before any round the statistics are those of every residual |
| Esd.ConstantDegenerate | ts_anomaly_detection.py:90-93 | equal residuals make the statistics of the first round degenerate |
| Esd.ConstantStops | ts_anomaly_detection.py:88-98 | residuals that are all equal make the first round degenerate, so the run ends with nothing masked and no anomalies |
| Esd.DetectRuns | ts_anomaly_detection.py:82-88 | for a positive period and a non-empty series, the detector runs its rounds on the decomposition's residuals, with k from `ub` and nobs |
| Esd.ConstantResidualNoAnomalies | ts_anomaly_detection.py:84-103 | a series whose decomposition leaves one residual value everywhere yields no anomalies |
| Esd.PeriodicResidualValue | ts_anomaly_detection.py:29-37 | the residuals of a series repeating a pattern, with the pattern's length as period, are all one value |
| Esd.PeriodicHasNoAnomalies | ts_anomaly_detection.py:73-103 | a series that repeats a pattern exactly, analysed with the pattern's length as period, yields no anomalies |
| Esd.Rounds | ts_anomaly_detection.py:89-103 | the loop on a mask array and a growing list returns the anomaly list of `Run` |
| Esd.EsdTest | ts_anomaly_detection.py:73-103 | `esd_test` returns the anomalies of `Detect`, or its error |

## Left out

- `ts_decomposition_plot` (display through matplotlib) is not modelled: it has no logic to prove.
- Floating point: numbers are exact reals, so rounding, overflow and infinities are not modelled. NaN is an explicit `None`.
- `scipy.stats.t.ppf`, the median and the square root are abstract parameters. The statistical validity of the test for a given `alpha` is not modelled.
- Esd.Unmasked: the estimators see only the unmasked residuals. The source hands a masked array to `np.median` in the robust branch (line 65), and whether that honours the mask is a library question that the model does not follow.
- Esd.Select: when the location or dispersion is NaN or the dispersion is zero, the model ends the loop. In the source no index is reported in such a round either: numpy masks each quotient by zero, `np.argmax` of a fully masked array is 0, and a masked or NaN statistic never compares greater. But the source then masks that position (possibly one already masked) and goes on with the remaining rounds, which may see a non-zero dispersion. Those later rounds are not modelled.
- Esd.CriticalValue: a zero denominator gives no critical value (the comparison is false), as does non-positive degrees of freedom, for which `t.ppf` returns NaN. An invalid `alpha` is outside the model: `t.ppf` returns NaN for `alpha` outside (0, 1) and an infinity at 0 or 1, which makes every critical value NaN so that the source never reports an index, whereas the model's `tQuantile` is real-valued and its critical value is finite for positive degrees of freedom.
- Decomposition.Decompose: every non-positive period is reported as the error `PeriodNotPositive`. In the source a zero period raises ZeroDivisionError in `nobs // freq` (line 31). A negative period leaves `range(freq)` empty, so the tiled seasonal component is empty. With two or more observations the subtraction at line 37 then raises a broadcasting ValueError; with none or one it raises nothing and returns an empty seasonal and residual component (lines 13, 31, 37), on which `esd_test` fails at `np.argmax` of an empty array.
- Esd.Detect: the input series of `esd_test` has no missing values. Missing values are modelled only in the decomposition. An empty series is reported as the error `EmptySeries`, where numpy's arg-max of an empty array raises.
- Esd.Rounds: the round is a function argument. The arithmetic of a round is then out of sight of the loop proof, and `EsdTest` passes the source's round, `Esd.Round`.
