# Mixture-model bookkeeping of DeepGPD / hurdle rainfall models, in Dafny

This project models the part of `src/util.py` that turns a network's raw outputs into the
parameters of a rainfall mixture and then scores samples under that mixture. The mixture has
three components:

- a point mass at zero, with probability `z`;
- a lognormal for moderate values, truncated at the excess threshold;
- a generalized Pareto (GPD) tail for the excess over the threshold, given a non-zero sample with
  probability `e`.

The model covers these source functions:

- the parameter constraints: `prob_constraint`, `pos_constraint`, `upper_thresh_constraint`,
  `gp_upper_thresh_constraint`, `lognormal_constraint`, `gp_constraint2` and `all_constraints`;
- the per-cell log-likelihood `loglik` and its helpers `loglik_zero`, `loglik_above_thresh`,
  `is_zero`, `is_above_thresh`, `nan_transfer` and `nan_to_num`;
- the GPD log-density `gpd` and the CDFs `threshed_lognorm_cdf`, `gpd_cdf` and `all_cdf`;
- the mixture mean `all_mean` with `gp_mean`;
- the label and metric helpers `compute_class_labels`, `no_nans`, `accuracy`, `brier_score` and
  `torch_nanmean`;
- the output splitter `to_stats`.

A tensor cell is a `Num`. It is NaN, -inf, +inf or a finite real, and its arithmetic follows
IEEE 754:

- NaN absorbs everything;
- inf - inf, 0 * inf and 0 / 0 give NaN;
- every comparison with NaN is false.

Tensors are `seq<Num>`. Where the source writes into a tensor through a mask they are
`array<Num>` (module `Masked`: `a[mask] = c`, `a[mask] += b[mask]`, `a[mask] /= d`).

The transcendental functions exp, log, erf and pow are fields of a value `Elementary`. Their
values are never fixed. The lemmas that need them ask only for the range facts of the real
functions that they use (`Primitives.Sound` and its parts). torch's softplus and sigmoid are
built from them, as torch defines them.

The modules follow the source's structure:

- `Constraints` (constraints.dfy);
- `Lognormal` (lognormal.dfy): `lognorm_cdf`, `lognormal`, `threshed_lognorm`, `norm_cdf`,
  `trunc_lognorm_mean`;
- `GeneralizedPareto` (gpd.dfy): `gpd`, `gpd_cdf`, `gp_mean`;
- `MixtureCdf` (cdf.dfy);
- `MixtureMean` (mean.dfy);
- `MixtureLoglik` (loglik.dfy);
- `Metrics` (labels.dfy);
- `StatsSplit` (stats.dfy).

Three modules are shared infrastructure: `NumValues` (num.dfy), `Primitives` (primitives.dfy)
and `RealArith` (arith.dfy).

Four behaviours of the code are modelled as written. They differ from what the documentation
suggests:

- **Tie at the threshold.** The excess gate of `is_above_thresh` uses `>=` (src/util.py:575).
  The excess mask of `loglik` (src/util.py:628) and the labels (src/util.py:686) use `>`.
  - A positive sample equal to its threshold is therefore charged `log e` by the gate, but gets
    its density from the moderate lognormal.
  - It is labelled 1, not 2.
  - `MixtureLoglik.LoglikAtThreshold` and `Metrics.LabelAtThreshold` state this.
- **NaN in the CDF.** `all_cdf` leaves NaN samples at 0 rather than NaN: none of its masks
  selects them (src/util.py:509-512). `MixtureCdf.AllCdfCellOffSupport` states this.
- **GPD CDF at xi == 0.** `all_cdf` adds its excess term through `gpd_cdf` as written
  (src/util.py:524-528), which is 0 at xi == 0. The model's `all_cdf` does the same, so it is flat
  above the threshold at xi == 0 (see "## Findings"). At +inf it is NaN at xi == 0, since
  `gpd_cdf` computes 0 * inf; for xi > 0 it is 1 there (`MixtureCdf.AllCdfCellAtInfinity`), and
  for xi < 0 it is 1 at the end of the support (`MixtureCdf.AllCdfCellAtSupportEnd`).
  `MixtureCdf.AllCdfCellCorrected` is the variant with the exponential limit.
- **Excess beyond the support.** Where sigma + xi (s - thresh) < 0, `gpd` takes the log of a
  negative number and gives NaN. `nan_to_num` turns that NaN into 0, so the total is the finite
  log(1 - z) + log e (`MixtureLoglik.LoglikBeyondSupport`).

## Model

| member | source | states |
|---|---|---|
| Constraints.ProbConstraint | src/util.py:140-144 | sigmoid(k)(1 - 2 eps) + eps lies strictly inside (0.01, 0.99) |
| Constraints.PosConstraint | src/util.py:147-161 | succeeds exactly for the modes exp, abs and square, with a result >= 0.01 (> 0.01 for exp); any other mode is a ValueError with the source's message |
| Constraints.PosConstraintAtZero | src/util.py:147-161 | at k = 0 the three modes give 1.01, 0.01 and 0.01, and an unknown mode fails |
| Constraints.PosExp | src/util.py:147-161 | the default mode exp never fails and gives a value above 0.01 |
| Constraints.UpperThreshConstraint | src/util.py:164-183 | thresh - softplus(thresh - out, beta) stays strictly below thresh, with or without the positivity step |
| Constraints.UpperThreshLinearRegion | src/util.py:164-183 | where beta (thresh - x) > 20, torch's softplus is linear and the constraint returns x itself |
| Constraints.UpperThreshPositive | src/util.py:164-183 | with the positivity step and beta = 1, a threshold of at least 21 (30 and 40 are used) keeps the result positive |
| Constraints.UpperThreshNear | src/util.py:164-183 | without the positivity step the result stays within 1 / beta of min(x, thresh) |
| Constraints.LognormalConstraint | src/util.py:186-198 | mu passes unchanged and the variance lands strictly inside (0, 30) |
| Constraints.ClampWeight | src/util.py:270-271 | the double `threshold` clamps x / thresh to [0, 1]: 0 below 0, the value itself in [0, 1], 1 above 1 |
| Constraints.GpBlend | src/util.py:270-273 | the blend returns a negative x unchanged, returns the bounded value when x >= thresh, and stays below thresh |
| Constraints.GpUpperThreshConstraint | src/util.py:246-273 | a negative shape passes unchanged, a shape >= thresh gets the softplus-bounded value, and the output is below thresh |
| Constraints.GpUpperThreshNonNegative | src/util.py:246-273 | with beta thresh >= 1 (5 * 0.9 in gp_constraint2) a non-negative shape stays non-negative |
| Constraints.GpBlendNonNegative | src/util.py:270-273 | the blend keeps a non-negative x non-negative when the bounded value is above min(x, thresh) - b for some b <= thresh |
| Constraints.RawShapeSupport | src/util.py:233-239 | the raw shape (pos(k1) - 1) sigma / (maxis + eps) exceeds -sigma / (maxis + eps), so sigma + xi maxis > 0 |
| Constraints.NonNegativeShapeCovers | src/util.py:239-242 | a non-negative shape puts no upper limit on the support |
| Constraints.GpScale | src/util.py:234-238 | the scale is inside (0, 40) from the softplus bound, or the reciprocal of the initial density in the continuous mode |
| Constraints.GpConstraint2 | src/util.py:219-243 | the continuous mode without an initial density fails its assert; otherwise xi < 0.9, and sigma is inside (0, 40) or 1 / initial_density |
| Constraints.GpConstraint2Support | src/util.py:219-243 | for a positive sigma and maxis >= 0 the clamped shape still satisfies sigma + xi maxis > 0: the GPD assigns density up to maxis |
| Constraints.RowConstraints | src/util.py:293-309 | outside the continuous mode every constrained parameter of a row is in range, and mu is the raw mu |
| Constraints.AllConstraints | src/util.py:276-309 | a ValueError for any moderate density other than lognormal; in the continuous mode an AssertionError without thresholds and a TypeError with them; otherwise every row's parameters are in range |
| Primitives.Sigmoid | src/util.py:144 | torch.sigmoid lies strictly inside (0, 1) |
| Primitives.SoftplusBounds | src/util.py:183 | torch's softplus (linear above beta x = 20) is positive and within 1 / beta of max(x, 0) |
| NumValues.AddZero | src/util.py:604-605 | adding a tensor into zeros_like leaves every value as it is, NaN and the infinities included, whichever side the zero is on |
| NumValues.NaNAbsorbs | src/util.py:545-546 | a NaN operand makes +, -, * and / NaN (so `+= np.nan` marks a cell); finite operands give finite results (for / when the divisor is non-zero), and a finite value added to a non-NaN one is not NaN |
| Lognormal.LognormCdfRange | src/util.py:409-420 | lognorm_cdf is NaN at NaN and below zero, 0 at zero, 1 at +inf and in [0, 1] at every positive value |
| Lognormal.LognormCdfMonotone | src/util.py:409-420 | lognorm_cdf does not decrease on the positive reals |
| Lognormal.LognormCdf | src/util.py:409-420 | lognorm_cdf of one cell: 0.5 + 0.5 erf((log v - mu) / sqrt(2 var)); its range and monotonicity are LognormCdfRange and LognormCdfMonotone |
| Lognormal.ZeroShift | src/util.py:434 | a zero sample becomes the placeholder 10 and every other value is kept |
| Lognormal.LognormalDensityAt | src/util.py:436-438 | at a positive sample and a positive variance the log-density is the finite real formula with the constant 2 * 3.14159274 |
| Lognormal.LognormalDensityOffSupport | src/util.py:436-438 | the log-density is -inf at +inf and NaN at NaN and at negative samples |
| Lognormal.LognormalDensity | src/util.py:436-438 | the lognormal log-density of one cell, -log v - 0.5 log var - 0.5 log(2 * 3.14159274) - (log v - mu)^2 / (2 var), where 2 * 3.14159274 = 6.28318548 uses the float32 value of pi; LognormalDensityAt and LognormalDensityOffSupport state its values |
| Lognormal.LognormalLogDensity | src/util.py:423-438 | shifts the zero samples in place and returns the log-density of every shifted sample |
| Lognormal.ThreshedLognorm | src/util.py:441-453 | the in-place zero shift plus, per cell, the log-density minus log(cdf(thresh) + 1e-6) |
| Lognormal.ThreshedLognormValues | src/util.py:441-453 | with a positive or infinite threshold the truncated log-density is finite at every non-negative sample, zero included |
| Lognormal.ThreshedLognormCell | src/util.py:441-453 | one cell of threshed_lognorm: the log-density at the zero-shifted sample minus log(cdf(thresh) + 1e-6); ThreshedLognormValues states where it is finite |
| Lognormal.LogNormaliserValue | src/util.py:453 | where the CDF at the threshold is c >= 0 the normalisation is log(c + 1e-6) |
| Lognormal.NormCdfStandard | src/util.py:76-84 | norm_cdf with mean 0 and standard deviation 1 equals the standard normal CDF at every value, the infinities and NaN included |
| Lognormal.NormCdf | src/util.py:76-84 | norm_cdf of one cell: 0.5 (1 + erf((x - mean) / (sd sqrt 2))); NormCdfStandard relates it to the standard normal CDF |
| Lognormal.PhiRange | src/util.py:76-84 | the standard normal CDF lies in [0, 1] |
| Lognormal.PhiMonotone | src/util.py:76-84 | the standard normal CDF does not decrease |
| Lognormal.TruncLognormMeanUnbounded | src/util.py:57-73 | with the upper bound +inf the truncated mean is exp(mu + var / 2) / (1 + 1e-6) |
| Lognormal.TruncLognormMeanBounded | src/util.py:57-73 | for any positive upper bound the truncated mean is finite and non-negative |
| Lognormal.TruncLognormMean | src/util.py:57-73 | trunc_lognorm_mean of one cell: exp(mu + var / 2) Phi(beta - sd) / (1e-6 + Phi(beta)); TruncLognormMeanUnbounded and TruncLognormMeanBounded state its values |
| GeneralizedPareto.Gpd | src/util.py:349-388 | every output cell is the per-cell GPD log-density: NaN where the excess or xi is NaN, otherwise the branch chosen by xi == 0 |
| GeneralizedPareto.WriteExponential | src/util.py:378-384 | the xi == 0 branch is written into the zero-filled output only at the positions where xi == 0; every other cell is kept |
| GeneralizedPareto.WritePareto | src/util.py:370-385 | the xi != 0 branch is written into the output only at the positions where xi != 0; every other cell is kept |
| GeneralizedPareto.GpdExponential | src/util.py:378-380 | at xi == 0 the log-density of x is -(log sigma + x / sigma) |
| GeneralizedPareto.GpdPareto | src/util.py:370-373 | at xi = c != 0, inside the support, the log-density is -(log sigma + (1 + 1/c) log(1 + c x / sigma)) |
| GeneralizedPareto.GpdNaNExactly | src/util.py:361-386 | with a positive scale and excesses inside the support, the output is NaN exactly where the excess or xi is NaN, and finite elsewhere |
| GeneralizedPareto.GpdCell | src/util.py:349-388 | one cell of gpd: NaN where the excess or xi is NaN, otherwise the branch chosen by xi == 0; GpdExponential, GpdPareto, GpdNaNExactly and GpdBeyondSupport state its values |
| GeneralizedPareto.GpdBeyondSupport | src/util.py:370-373 | beyond the support (sigma + xi x < 0) the log of 1 + xi x / sigma is the log of a negative number, so the log-density is NaN, not -inf |
| GeneralizedPareto.GpdCdfAsWrittenZeroShape | src/util.py:487-491 | as written, gpd_cdf at xi == 0 is 0 at every finite value |
| GeneralizedPareto.GpdCdfZeroShapeDiffers | src/util.py:487-491 | above the threshold at xi == 0 the written CDF is 0, while the exponential limit (GpdCdf) is positive |
| GeneralizedPareto.GpdCdfAsWritten | src/util.py:487-491 | gpd_cdf exactly as written, 1 - (1 + xi (v - thresh) / sigma) ** (-1 / xi), with -1 / 0 = -inf at xi == 0; GpdCdfAsWrittenZeroShape, GpdCdfAsWrittenRange and GpdCdfAsWrittenMonotone state its values |
| GeneralizedPareto.GpdCdfAsWrittenRange | src/util.py:487-491 | above the threshold, inside the support, the written CDF lies in [0, 1), and it is 0 exactly when xi == 0 |
| GeneralizedPareto.GpdCdfAsWrittenMonotone | src/util.py:487-491 | above the threshold, inside the support, the written CDF does not decrease in the value, for every sign of xi |
| GeneralizedPareto.GpdCdfAsWrittenAtInfinity | src/util.py:487-491 | for xi > 0 the written CDF is 1 at +inf: the base is +inf and the exponent -1 / xi negative |
| GeneralizedPareto.GpdCdfAsWrittenZeroShapeAtInfinity | src/util.py:487-491 | at xi == 0 the written CDF is NaN at +inf, since 0 * inf is NaN |
| GeneralizedPareto.GpdCdfAtInfinity | src/util.py:487-491 | the corrected GPD CDF is 1 at +inf for every xi >= 0, xi == 0 included |
| GeneralizedPareto.ExponentialCdfAtInfinity | src/util.py:487-491 | the exponential limit 1 - exp(-(v - thresh) / sigma) is 1 where the scaled excess is +inf |
| GeneralizedPareto.GpdCdfAsWrittenAtSupportEnd | src/util.py:487-491 | for xi < 0 the written CDF is 1 at the end of the support, where sigma + xi (v - thresh) == 0, i.e. v == thresh - sigma / xi |
| GeneralizedPareto.GpdCdf | src/util.py:487-491 | the corrected GPD CDF: the written formula off xi == 0 and the exponential limit 1 - exp(-(v - thresh) / sigma) at xi == 0; GpdCdfRange and GpdCdfExponentialAt state its values |
| GeneralizedPareto.GpdCdfRange | src/util.py:487-491 | above the threshold, inside the support, the CDF lies strictly between 0 and 1 on both branches |
| GeneralizedPareto.GpdCdfParetoAt | src/util.py:491 | off xi == 0, inside the support, the CDF is 1 - (1 + c (v - thresh) / sigma) ** (-1 / c) |
| GeneralizedPareto.GpdCdfExponentialAt | src/util.py:487-491 | at xi == 0 the corrected CDF is 1 - exp(-(v - thresh) / sigma) |
| GeneralizedPareto.GpMeanAbove | src/util.py:49-54 | for sigma > 0 and xi < 1 the GP mean is thresh + sigma / (1 - xi), strictly above a finite threshold; an infinite threshold stays infinite |
| GeneralizedPareto.GpMean | src/util.py:49-54 | gp_mean of one cell: thresh + sigma / (1 - xi); GpMeanAbove states its value and bound |
| MixtureCdf.ThreshedLognormCdf | src/util.py:456-484 | each cell is cdf / (upper_cdf - lower_cdf), then overwritten in order: 0 below the lower bound, 1 above the upper bound, 0 where the mass is 0; absent bounds are -99999999 / 0 and 99999999 / 1 |
| MixtureCdf.Truncate | src/util.py:479-483 | the division and the three ordered overwrites, cell by cell |
| MixtureCdf.CrossedBoundsUpperWins | src/util.py:481-483 | a value both below the lower and above the upper bound ends at 1, unless the mass is 0, which writes 0 last |
| MixtureCdf.UpperTruncatedRange | src/util.py:456-484 | with only an upper bound, positive or +inf, every positive value gets a probability in [0, 1], and 1 above the bound when the bound's CDF is non-zero |
| MixtureCdf.TruncatedCdf | src/util.py:456-484 | one cell of threshed_lognorm_cdf: the quotient, then the three ordered overwrites; UpperTruncatedRange and CrossedBoundsUpperWins state its values |
| MixtureCdf.AllCdf | src/util.py:494-529 | a ValueError for any moderate density but lognormal; otherwise each cell is z (if s >= 0) + (1-z)(1-e) moderate CDF (if s > 0) + (1-z) e gpd_cdf as written (if s > effective threshold) |
| MixtureCdf.MixtureCdfSum | src/util.py:509-528 | the three additions over their index sets, in order, onto zeros |
| MixtureCdf.MixtureWeightsRange | src/util.py:512-528 | the zero, moderate and excess weights sum to 1, so z + (1-z)(1-e) m + (1-z) e x is at most 1 for m, x in [0, 1] |
| MixtureCdf.MixtureCdfTermsRange | src/util.py:509-528 | the additions give a probability whenever every term added is one |
| MixtureCdf.AllCdfCell | src/util.py:494-529 | one cell of all_cdf, with the excess term taken from gpd_cdf as written; the lemmas below state its range, its values and its monotonicity |
| MixtureCdf.ExcessCdfCell | src/util.py:524-528 | the excess term of all_cdf: gpd_cdf as written above the effective threshold, measured from the actual threshold, and 0 elsewhere |
| MixtureCdf.AllCdfCellOffSupport | src/util.py:509-512 | a NaN sample and a negative sample stay at 0; a zero sample gets z |
| MixtureCdf.AllCdfCellRangeBelow | src/util.py:494-529 | with a positive threshold, every finite sample up to the threshold gets a CDF in [0, 1] |
| MixtureCdf.AllCdfCellRangeAbove | src/util.py:494-529 | with a positive threshold, every sample above it and inside the GPD's support gets a CDF in [0, 1], with gpd_cdf as written |
| MixtureCdf.AllCdfCellHurdleRange | src/util.py:494-529 | with the effective threshold +inf (the hurdle baseline) no GPD term is added and every finite sample gets a CDF in [0, 1] |
| MixtureCdf.AllCdfCellExcess | src/util.py:494-529 | above the threshold the moderate component is saturated, so the CDF is z + (1-z)(1-e) + (1-z) e x with x = gpd_cdf as written in [0, 1), x = 0 exactly when xi == 0; the CDF is below 1 and at least z + (1-z)(1-e), strictly above it when xi != 0 |
| MixtureCdf.AllCdfCellFlatAtZeroShape | src/util.py:524-528 | at xi == 0 any two samples above the threshold get the same CDF, z + (1-z)(1-e): the excess component never contributes |
| MixtureCdf.AllCdfCellMonotone | src/util.py:494-529 | s1 <= s2 gives cdf(s1) <= cdf(s2), for any samples with s2 inside the GPD's support, across zero and across the threshold |
| MixtureCdf.AllCdfCellCorrected | src/util.py:494-529 | one cell of all_cdf with the corrected GPD CDF (the exponential limit at xi == 0) |
| MixtureCdf.AboveUpperBound | src/util.py:481-483 | with no lower bound and a non-zero CDF at the upper bound, every value above the upper bound ends at 1 |
| MixtureCdf.ModerateAboveThreshold | src/util.py:514-521 | the moderate term of all_cdf is 1 at every sample above a positive threshold, +inf included, when the lognormal CDF at the threshold is non-zero |
| MixtureCdf.MixtureAtOne | src/util.py:512-528 | the three weights z, (1-z)(1-e) and (1-z) e sum to 1, so the mixture of two CDFs at 1 is 1 |
| MixtureCdf.AllCdfCellAtInfinity | src/util.py:494-529 | at +inf, above a positive threshold: for xi > 0 all_cdf is 1; for xi == 0 it is NaN, because gpd_cdf as written computes 0 * inf |
| MixtureCdf.AllCdfCellCorrectedAtInfinity | src/util.py:524-528 | with the corrected GPD CDF all_cdf is 1 at +inf for every xi >= 0, xi == 0 included |
| MixtureCdf.AllCdfCellAtSupportEnd | src/util.py:494-529 | for xi < 0, at the end of the GPD's support a - sigma / xi (where sigma + xi (s - a) == 0), which lies above the threshold a, all_cdf is 1 |
| MixtureCdf.AllCdfCellCorrectedExcess | src/util.py:524-528 | with the corrected GPD CDF, a sample above the threshold and inside the support gets a CDF strictly between z + (1-z)(1-e) and 1 for every shape, xi == 0 included |
| MixtureMean.AllMean | src/util.py:113-137 | a ValueError for any moderate density but lognormal; otherwise each cell is trunc_lognorm_mean (1-z)(1-e) plus the GP term, which is left out when every threshold is +inf |
| MixtureMean.MeanCell | src/util.py:113-137 | one cell of all_mean: trunc_lognorm_mean (1-z)(1-e) plus, when the GP term is in use, gp_mean (1-z) e; AllMeanHurdle and AllMeanWithExcess state its values |
| MixtureMean.AllMeanHurdle | src/util.py:113-137 | with every threshold +inf the GP term is absent: the mean is exp(mu + var / 2) / (1 + 1e-6) (1-z)(1-e), while adding the GP term would give +inf |
| MixtureMean.AllMeanWithExcess | src/util.py:113-137 | with the GP term in use and a finite positive threshold a, the mean is m (1-z)(1-e) + (a + sigma / (1 - xi))(1-z) e, with m >= 0 the truncated lognormal mean |
| MixtureMean.AllMeanMixedInfinite | src/util.py:130-134 | a batch that mixes finite and infinite thresholds uses the GP term everywhere, so a cell at threshold +inf gets the mean +inf |
| MixtureMean.ExcessTermAtInfinity | src/util.py:133-134 | at threshold +inf the GP term is +inf with a positive excess probability, and NaN (+inf times 0) with excess probability 0 |
| MixtureMean.MeanTermsInfinite | src/util.py:133-137 | an infinite GP mean makes the cell +inf when its weight is positive and NaN when the weight is 0 |
| MixtureLoglik.LoglikZero | src/util.py:532-547 | the zero term is is_zero * log z and the non-zero term is is_zero(flip) * log(1 - z), each made NaN at the NaN samples |
| MixtureLoglik.AddNaNAtNaN | src/util.py:544-546 | `out[nan_inds] += np.nan` on a copy: NaN is added exactly at the NaN samples and every other cell keeps its value |
| MixtureLoglik.NanTransfer | src/util.py:600-607 | a fresh tensor holding the values, with NaN added where the reference is NaN |
| MixtureLoglik.NanTransferMeaning | src/util.py:600-607 | a cell is NaN exactly where the reference or the value is NaN, and otherwise keeps the value |
| MixtureLoglik.NanToNum | src/util.py:592-597 | every NaN cell, in place, becomes the fill value and every other cell is kept |
| MixtureLoglik.NanToNumMeaning | src/util.py:592-597 | with a non-NaN fill no NaN is left, every other value is kept, and applying it twice equals applying it once |
| MixtureLoglik.GatesPartition | src/util.py:563-589 | on non-NaN samples the two is_zero masks are complements, the two is_above_thresh masks split the positive samples, and the moderate and excess masks split them too |
| MixtureLoglik.GatesDisagreeAtThreshold | src/util.py:575 | at a positive sample equal to its threshold the gate admits the cell (>=) while the excess mask of loglik (>) does not, so the excess is 0 / 0 |
| MixtureLoglik.IsZero | src/util.py:578-590 | one cell of is_zero: holds at zero only, and with flip at every sample that is neither zero nor NaN; GatesPartition relates the two |
| MixtureLoglik.IsAboveThresh | src/util.py:563-576 | one cell of is_above_thresh: holds for a positive sample at or above its threshold (>=), and with flip for a positive sample below it; GatesPartition relates the two |
| MixtureLoglik.ExcessTerm | src/util.py:627-632 | the excesses hold s - thresh above the threshold and 0 / 0 elsewhere, and gpd evaluates them |
| MixtureLoglik.ExcessLoglikOffMask | src/util.py:627-632 | off the excess mask the GPD term is NaN |
| MixtureLoglik.MainTerm | src/util.py:634-645 | the moderate samples are evaluated by threshed_lognorm and every other cell is overwritten with 0 / 0 |
| MixtureLoglik.MainOnMask | src/util.py:634-645 | on a moderate sample the moderate term is its threshed lognormal density |
| MixtureLoglik.SumTerms | src/util.py:647-661 | each term goes through nan_transfer and nan_to_num, the six are summed in the source's order, and NaN is added back at the NaN samples |
| MixtureLoglik.Loglik | src/util.py:610-662 | a ValueError exactly when the moderate density is not lognormal; otherwise every cell is the per-cell mixture log-likelihood |
| MixtureLoglik.LoglikNaNSample | src/util.py:622-661 | a NaN sample gives a NaN total whatever the parameters |
| MixtureLoglik.HurdleAtZero | src/util.py:532-547 | a zero sample gets log z from the zero term and 0 from the non-zero term |
| MixtureLoglik.HurdleOffZero | src/util.py:532-547 | a non-zero sample gets 0 from the zero term and log(1 - z) from the non-zero term |
| MixtureLoglik.GateClosed | src/util.py:550-576 | a sample that is not positive gets 0 from both gate terms |
| MixtureLoglik.GateBelow | src/util.py:550-576 | a positive sample below its threshold gets log(1 - e) and 0 from the gate terms |
| MixtureLoglik.GateAbove | src/util.py:550-576 | a positive sample at or above its threshold gets 0 and log e from the gate terms |
| MixtureLoglik.LoglikZeroSample | src/util.py:610-662 | a zero sample has total log z |
| MixtureLoglik.LoglikNegativeSample | src/util.py:610-662 | a negative sample counts as non-zero but passes no gate: total log(1 - z) |
| MixtureLoglik.LoglikModerate | src/util.py:610-662 | a positive sample below its threshold, with threshed lognormal log-density m, has total log(1 - z) + log(1 - e) + m |
| MixtureLoglik.LoglikModerateValue | src/util.py:610-662 | with sound CDF primitives and a positive variance, a positive sample below its threshold has a finite threshed lognormal log-density m and total log(1 - z) + log(1 - e) + m |
| MixtureLoglik.LoglikExcess | src/util.py:610-662 | a sample x above a finite threshold a, inside the GPD's support, has total log(1 - z) + log e + g, with g the finite GPD log-density of x - a |
| MixtureLoglik.LoglikAtThreshold | src/util.py:610-662 | a positive sample equal to its threshold has total log(1 - z) + log e + m: the gate's log e with the moderate density m |
| MixtureLoglik.LoglikAtThresholdValue | src/util.py:610-662 | with sound CDF primitives and a positive variance, a positive sample equal to its threshold has a finite threshed lognormal log-density m and total log(1 - z) + log e + m |
| MixtureLoglik.LoglikCell | src/util.py:610-662 | one cell of loglik: the six terms, each through nan_transfer and nan_to_num, summed, with NaN added back at a NaN sample; the Loglik* lemmas state its values |
| MixtureLoglik.LoglikBeyondSupport | src/util.py:627-661 | an excess beyond the GPD's support makes the GPD term NaN, which nan_to_num turns into 0: the total is the finite log(1 - z) + log e |
| MixtureLoglik.LoglikNaNExactly | src/util.py:610-662 | for z and e in (0, 1) and any threshold, shape, scale, mean and variance, the total is NaN exactly where the sample is NaN |
| Metrics.ComputeClassLabels | src/util.py:674-688 | y's NaN cells become 0 in place; a label is NaN for a NaN sample, else 2 above the threshold, else 0 at zero, else 1 |
| Metrics.ClassLabel | src/util.py:674-688 | one label: NaN for a NaN sample, else 2 above the threshold, else 0 at zero, else 1; ClassLabelMatchesMasks relates it to loglik's masks |
| Metrics.ClassLabelMatchesMasks | src/util.py:674-688 | the label is NaN, 0, 2 or 1 exactly where loglik's NaN, zero, excess or remaining (moderate or negative) masks hold |
| Metrics.LabelAtThreshold | src/util.py:686 | a positive sample equal to its threshold is labelled 1, although the excess gate of loglik admits it |
| Metrics.NoNans | src/util.py:691-696 | the mask holds exactly where neither value is NaN |
| Metrics.AccuracyRange | src/util.py:708-714 | accuracy is NaN exactly when no cell has two non-NaN values, and otherwise a fraction in [0, 1] |
| Metrics.AccuracyOfSelf | src/util.py:708-714 | a tensor compared with itself has accuracy 1 as soon as one cell is not NaN |
| Metrics.AccuracySymmetric | src/util.py:708-714 | accuracy does not depend on the order of its arguments |
| Metrics.Accuracy | src/util.py:708-714 | accuracy: the share of equal pairs among the cells where neither value is NaN, NaN when there is none; AccuracyRange, AccuracyOfSelf and AccuracySymmetric state its values |
| Metrics.TorchNanMean | src/util.py:401-406 | the loop over the cells computes the mean of the non-NaN cells, NaN when there is none |
| Metrics.NanMean | src/util.py:401-406 | the mean of the non-NaN cells, NaN when there is none; the NanMean* lemmas state its values |
| Metrics.NanMeanBounds | src/util.py:401-406 | when every non-NaN cell is finite and in [lo, hi] and one exists, the mean is in [lo, hi] |
| Metrics.NanSumBounds | src/util.py:401-406 | finite cells in [lo, hi] sum to between count * lo and count * hi, ignoring the NaN cells |
| Metrics.NanMeanAllNaN | src/util.py:401-406 | the mean of all-NaN cells is NaN |
| Metrics.NanMeanIgnoresNaN | src/util.py:401-406 | appending a NaN cell does not change the mean |
| Metrics.NanMeanNonNegative | src/util.py:742-746 | the NaN-ignoring mean of NaN, +inf and non-negative cells is NaN, +inf or non-negative |
| Metrics.BrierScoreNonNegative | src/util.py:742-746 | the Brier score is never negative: NaN, +inf or a finite value >= 0 |
| Metrics.BrierScoreOfSelf | src/util.py:742-746 | a tensor scored against itself has Brier score 0 as soon as one cell is finite |
| Metrics.BrierScore | src/util.py:742-746 | the NaN-ignoring mean of the squared differences; BrierScoreNonNegative and BrierScoreOfSelf state its values |
| StatsSplit.PySlice | src/util.py:756-759 | Python slicing clamps its bounds to the row: the length and elements of row[lo:hi] |
| StatsSplit.ToStats | src/util.py:749-759 | three groups with use_evt, two without |
| StatsSplit.ToStatsReassembles | src/util.py:749-759 | the groups put back together give the first six (or four) columns of each row, and each group is two wide on rows of six columns or more |

## Left out

- `src/train.py` is not part of this model. It is argument parsing, data loading, normalisation
  and the training loop.
- `NumpyDataset`, `get_device` and `set_default_tensor_type` are left out. They are torch runtime
  and precision state.
- `to_tensor`, `to_np`, `to_item` and `split_var` are left out. They convert between library
  types.
  - Through `to_np`, `compute_class_labels` writes into the caller's array.
  - `Metrics.ComputeClassLabels` models this write in place on `y`.
- `f1`, `auc` and `true_gpd` are left out. They wrap sklearn and scipy.
- `pearsonr` is left out. It shadows the scipy import and calls itself without end.
- `lognorm_mean` and `torch_rmse` are left out. No core function calls them.
- Floating-point effects are not modelled: rounding, overflow, float saturation of sigmoid and
  softplus, and signed zeros. Cells are exact reals extended with NaN and the infinities.
  - The strict bounds proved for the constraints hold for the reals. In floats, sigmoid can
    reach exactly 0 or 1.
- The actual values of exp, log, erf and pow are not modelled. Every lemma states only what the
  range facts it names imply.
- Gradients, autograd and devices are not modelled. This covers the "dummy tensor" copies and
  the devices passed to `zeros_like`.
- The continuous-EVT path of `all_constraints` is modelled only as the errors it raises. It
  calls `lognormal(..., reduction=None)`, which `lognormal` does not accept.
  - Without thresholds the assert fails first.
- Tensors are one-dimensional sequences of cells, plus rows of columns for `to_stats`.
  - Broadcasting is not modelled.
  - The batch dimension of `gpd_stats` and `moderate_stats` is not modelled. Each statistic is
    its own sequence.
- `torch_nanmean` and `np.nanmean` (used by `brier_score`) are one definition, `Metrics.NanMean`.
  The order of summation does not matter over exact reals.
- Constraints.GpConstraint2: requires a non-zero initial density in the continuous mode and
  `maxis + 1e-6 != 0`. The divisions by zero there, which give an infinity in torch, are not
  modelled.
- Constraints.AllConstraints: requires `maxis + 1e-6 != 0` for every row, for the same reason.
- MixtureLoglik.LoglikModerate: takes the threshed lognormal log-density `m` as a hypothesis
  rather than deriving it. `MixtureLoglik.LoglikModerateValue` derives it: it calls
  `Lognormal.ThreshedLognormValues` for a finite `m`, then this lemma.
- MixtureLoglik.LoglikAtThreshold: takes `m` as a hypothesis, in the same way;
  `MixtureLoglik.LoglikAtThresholdValue` derives it.
- MixtureCdf.AllCdfCellRangeBelow: the CDF range is shown separately below and above the
  threshold, and for the hurdle baseline. It is stated for an effective threshold equal to the
  actual one, as in DeepGPD. There is no single lemma over every sample and threshold pair.
- MixtureCdf.AllCdfCellRangeAbove: stated for an effective threshold equal to the actual one,
  as above.
- MixtureCdf.AllCdfCellMonotone: stated for an effective threshold equal to the actual one, and
  for a larger sample inside the GPD's support. Beyond the support `gpd_cdf` raises a negative
  base to a power, which the model does not fix. It also assumes that pow with a fixed negative
  exponent does not increase (`Primitives.PowMonotone`).
- MixtureCdf.AllCdfCellAtInfinity: stated for an effective threshold equal to the actual one
  and a non-zero lognormal CDF at it. For xi < 0, +inf lies beyond the GPD's support, where
  `gpd_cdf` gives an infinity or NaN; `MixtureCdf.AllCdfCellAtSupportEnd` states the value 1
  where the support ends instead.

## Findings

| source | as written | input that shows it | evidently intended | confidence | as-written member | corrected member |
|---|---|---|---|---|---|---|
| src/util.py:491 | `1 - (1 + xi * (vals - thresh) / sigma) ** (-1 / xi)`: at xi == 0 the exponent is -1 / 0 = -inf and the base is 1, so the CDF is 1 - 1 = 0 everywhere | xi = 0, sigma = 1, thresh = 0, vals = 1: gives 0 instead of 1 - e^-1 | the xi -> 0 limit, the exponential CDF 1 - exp(-(v - thresh) / sigma), as `gpd` itself does for xi == 0 (src/util.py:378) | not executed; the IEEE reading of 1 ** -inf = 1 is certain, how often xi is exactly 0 is not known | GeneralizedPareto.GpdCdfZeroShapeDiffers | GeneralizedPareto.GpdCdfRange |
| src/util.py:524-528 | `all_cdf` adds `(1 - z) e gpd_cdf(...)` above the threshold with `gpd_cdf` as written, so at xi == 0 the excess component adds nothing and the CDF is flat above the threshold; at +inf the cell is NaN instead of 1, since gpd_cdf computes 0 * inf (`MixtureCdf.AllCdfCellAtInfinity`) | s = 2, effective = actual threshold = 1, xi = 0, sigma = 1, z = e = 0.5, with the lognormal mass below the threshold non-zero: gives 0.75 for every s > 1 instead of 0.75 + 0.25 (1 - e^-1) | the excess component grows with s towards 1, as it does for xi != 0, and the cell is 1 at +inf (`MixtureCdf.AllCdfCellCorrectedAtInfinity`) | not executed; follows from the gpd_cdf row | MixtureCdf.AllCdfCellFlatAtZeroShape | MixtureCdf.AllCdfCellCorrectedExcess |
