/** The mixture mean (src/util.py: all_mean with gp_mean and trunc_lognorm_mean): the truncated
    lognormal mean and the GP mean, each weighted by its gate probabilities, where the GP term is
    dropped for the whole batch once every threshold is infinite. */
module MixtureMean {
  import opened NumValues
  import opened Primitives
  import opened RealArith
  import opened Outcomes
  import opened Lognormal
  import opened GeneralizedPareto
  import opened MixtureCdf

  const OnlyLognormalMean: string := "only lognormal function is supported for mean calculations"

  /** torch.all(torch.isinf(threshes)): every threshold of the batch is +inf or -inf. */
  predicate AllInfinite(threshes: seq<Num>) {
    forall i :: 0 <= i < |threshes| ==> IsInf(threshes[i])
  }

  /** all_mean at one cell from the truncated lognormal mean m and the GP mean g there:
      0 + m (1 - z)(1 - e) + g (1 - z) e, where the excess term is the scalar 0 when the batch
      does not use it. */
  function MeanTerms(m: Num, g: Num, z: real, e: real, useExcess: bool): Num {
    var excess := if useExcess then Mul(g, Fin(ExcessWeight(z, e))) else Fin(0.0);
    Add(Add(Fin(0.0), Mul(m, Fin(ModerateWeight(z, e)))), excess)
  }

  /** all_mean at one cell: trunc_lognorm_mean and gp_mean at the cell's threshold, weighted. */
  function MeanCell(t: Elementary, xi: real, sigma: real, mu: real, variance: real, z: real, e: real,
                    thresh: Num, useExcess: bool): Num {
    MeanTerms(TruncLognormMean(t, mu, variance, thresh), GpMean(Fin(xi), Fin(sigma), thresh), z, e, useExcess)
  }

  /** all_mean: a ValueError for any moderate density but the lognormal; otherwise every cell's
      mean, with the excess term used unless every threshold of the batch is infinite. */
  function AllMean(t: Elementary, xi: seq<real>, sigma: seq<real>, mu: seq<real>, variance: seq<real>,
                   z: seq<real>, e: seq<real>, threshes: seq<Num>, moderateFunc: string): (r: Result<seq<Num>>)
    requires |xi| == |threshes| && |sigma| == |threshes| && |mu| == |threshes| && |variance| == |threshes|
    requires |z| == |threshes| && |e| == |threshes|
    ensures r.Err? <==> moderateFunc != "lognormal"
    ensures r.Err? ==> r.error == ValueError(OnlyLognormalMean)
    ensures r.Ok? ==> |r.value| == |threshes|
    ensures r.Ok? ==> forall i :: 0 <= i < |threshes| ==>
              r.value[i] == MeanCell(t, xi[i], sigma[i], mu[i], variance[i], z[i], e[i], threshes[i],
                                     !AllInfinite(threshes))
  {
    if moderateFunc != "lognormal" then Err(ValueError(OnlyLognormalMean))
    else
      var useExcess := !AllInfinite(threshes);
      Ok(seq(|threshes|, i requires 0 <= i < |threshes| =>
               MeanCell(t, xi[i], sigma[i], mu[i], variance[i], z[i], e[i], threshes[i], useExcess)))
  }

  /** The mean of a cell whose threshold a is positive and finite, with the GP term in use:
      m (1 - z)(1 - e) + (a + sigma / (1 - xi)) (1 - z) e for the truncated lognormal mean m. */
  function BoundedCellMean(m: real, a: real, xi: real, sigma: real, z: real, e: real): real
    requires xi < 1.0
  {
    m * ModerateWeight(z, e) + (a + sigma / (1.0 - xi)) * ExcessWeight(z, e)
  }

  /** Both gate weights of valid probabilities are positive. */
  lemma {:induction false} WeightsPositive(z: real, e: real)
    requires 0.0 < z < 1.0 && 0.0 < e < 1.0
    ensures ModerateWeight(z, e) > 0.0 && ExcessWeight(z, e) > 0.0
  {
    var nz, ne := 1.0 - z, 1.0 - e;
    MulPositive(nz, ne);
    MulPositive(nz, e);
    assert ModerateWeight(z, e) == nz * ne && ExcessWeight(z, e) == nz * e;
  }

  /** With finite means m and g the cell's mean is m (1 - z)(1 - e) + g (1 - z) e, or
      m (1 - z)(1 - e) alone when the excess term is not used. */
  lemma {:induction false} MeanTermsFinite(m: real, g: Num, z: real, e: real, useExcess: bool)
    requires useExcess ==> g.Fin?
    ensures MeanTerms(Fin(m), g, z, e, useExcess)
            == Fin(m * ModerateWeight(z, e) + (if useExcess then g.r * ExcessWeight(z, e) else 0.0))
  {
  }

  /** An infinite GP mean with a positive weight makes the cell's mean +inf when the excess term
      is used; with weight 0 it makes the term, and the cell, NaN. */
  lemma {:induction false} MeanTermsInfinite(m: real, z: real, e: real)
    requires ModerateWeight(z, e) >= 0.0 && ExcessWeight(z, e) >= 0.0
    ensures ExcessWeight(z, e) > 0.0 ==> MeanTerms(Fin(m), PosInf, z, e, true) == PosInf
    ensures ExcessWeight(z, e) == 0.0 ==> MeanTerms(Fin(m), PosInf, z, e, true).NaN?
  {
  }

  /** At an infinite threshold the GP mean is +inf, so the excess term is never 0: +inf when
      its weight is positive and NaN (+inf times 0) when the excess probability is 0. This is
      why all_mean skips the term instead of weighting it. */
  lemma {:induction false} ExcessTermAtInfinity(m: real, xi: real, sigma: real, z: real, e: real)
    requires sigma > 0.0 && xi < 1.0 && 0.0 < z < 1.0 && 0.0 <= e < 1.0
    ensures GpMean(Fin(xi), Fin(sigma), PosInf) == PosInf
    ensures e > 0.0 ==> MeanTerms(Fin(m), PosInf, z, e, true) == PosInf
    ensures e == 0.0 ==> MeanTerms(Fin(m), PosInf, z, e, true).NaN?
  {
    GpMeanAbove(xi, sigma, PosInf);
    var nz, ne := 1.0 - z, 1.0 - e;
    MulPositive(nz, ne);
    if e > 0.0 {
      MulPositive(nz, e);
    }
    assert ModerateWeight(z, e) == nz * ne && ExcessWeight(z, e) == nz * e;
    MeanTermsInfinite(m, z, e);
  }

  /** AllMean's value at one cell. */
  lemma {:induction false} AllMeanAt(t: Elementary, xi: seq<real>, sigma: seq<real>, mu: seq<real>,
                                     variance: seq<real>, z: seq<real>, e: seq<real>, threshes: seq<Num>, i: nat)
    requires |xi| == |threshes| && |sigma| == |threshes| && |mu| == |threshes| && |variance| == |threshes|
    requires |z| == |threshes| && |e| == |threshes|
    requires i < |threshes|
    ensures AllMean(t, xi, sigma, mu, variance, z, e, threshes, "lognormal").Ok?
    ensures AllMean(t, xi, sigma, mu, variance, z, e, threshes, "lognormal").value[i]
            == MeanCell(t, xi[i], sigma[i], mu[i], variance[i], z[i], e[i], threshes[i], !AllInfinite(threshes))
  {
  }

  /** A cell at threshold +inf: the plain lognormal mean exp(mu + var / 2) / (1 + eps) weighted by
      (1 - z)(1 - e) without the GP term, and +inf with it. */
  lemma {:induction false} MeanCellUnbounded(t: Elementary, xi: real, sigma: real, mu: real, variance: real,
                                             z: real, e: real)
    requires SignFacts(t) && variance > 0.0 && sigma > 0.0 && xi < 1.0 && 0.0 < z < 1.0 && 0.0 < e < 1.0
    ensures MeanCell(t, xi, sigma, mu, variance, z, e, PosInf, false)
            == Fin(t.exp(mu + variance / 2.0) * (1.0 / (1.0 + CdfEps)) * ModerateWeight(z, e))
    ensures MeanCell(t, xi, sigma, mu, variance, z, e, PosInf, true) == PosInf
  {
    TruncLognormMeanUnbounded(t, mu, variance);
    var m := t.exp(mu + variance / 2.0) * (1.0 / (1.0 + CdfEps));
    MeanTermsFinite(m, PosInf, z, e, false);
    ExcessTermAtInfinity(m, xi, sigma, z, e);
  }

  /** A cell at a positive finite threshold a with the GP term in use:
      m (1 - z)(1 - e) + (a + sigma / (1 - xi)) (1 - z) e, where m >= 0 is the truncated
      lognormal mean below a. */
  lemma {:induction false} MeanCellBounded(t: Elementary, xi: real, sigma: real, mu: real, variance: real,
                                           z: real, e: real, thresh: Num) returns (m: real)
    requires SignFacts(t) && variance > 0.0 && sigma > 0.0 && xi < 1.0 && thresh.Fin? && thresh.r > 0.0
    ensures TruncLognormMean(t, mu, variance, thresh) == Fin(m) && m >= 0.0
    ensures MeanCell(t, xi, sigma, mu, variance, z, e, thresh, true)
            == Fin(BoundedCellMean(m, thresh.r, xi, sigma, z, e))
  {
    TruncLognormMeanBounded(t, mu, variance, thresh.r);
    m := TruncLognormMean(t, mu, variance, thresh).r;
    var g := thresh.r + sigma / (1.0 - xi);
    assert GpMean(Fin(xi), Fin(sigma), thresh) == Fin(g) by {
      GpMeanAbove(xi, sigma, thresh);
    }
    assert MeanTerms(Fin(m), Fin(g), z, e, true) == Fin(BoundedCellMean(m, thresh.r, xi, sigma, z, e)) by {
      MeanTermsFinite(m, Fin(g), z, e, true);
    }
  }

  /** The hurdle model: with every threshold +inf the GP term is left out, and each cell's mean
      is the plain lognormal mean exp(mu + var / 2) (scaled by 1 / (1 + eps)) times
      (1 - z)(1 - e). Weighting the GP term instead would have made the cell +inf. */
  lemma {:induction false} AllMeanHurdle(t: Elementary, xi: seq<real>, sigma: seq<real>, mu: seq<real>,
                                         variance: seq<real>, z: seq<real>, e: seq<real>, threshes: seq<Num>, i: nat)
    requires SignFacts(t)
    requires |xi| == |threshes| && |sigma| == |threshes| && |mu| == |threshes| && |variance| == |threshes|
    requires |z| == |threshes| && |e| == |threshes|
    requires forall j :: 0 <= j < |threshes| ==> threshes[j] == PosInf
    requires i < |threshes| && variance[i] > 0.0 && sigma[i] > 0.0 && xi[i] < 1.0
    requires 0.0 < z[i] < 1.0 && 0.0 < e[i] < 1.0
    ensures AllMean(t, xi, sigma, mu, variance, z, e, threshes, "lognormal").Ok?
    ensures AllMean(t, xi, sigma, mu, variance, z, e, threshes, "lognormal").value[i]
            == Fin(t.exp(mu[i] + variance[i] / 2.0) * (1.0 / (1.0 + CdfEps)) * ModerateWeight(z[i], e[i]))
    ensures MeanCell(t, xi[i], sigma[i], mu[i], variance[i], z[i], e[i], PosInf, true) == PosInf
  {
    assert AllInfinite(threshes) && threshes[i] == PosInf;
    AllMeanAt(t, xi, sigma, mu, variance, z, e, threshes, i);
    MeanCellUnbounded(t, xi[i], sigma[i], mu[i], variance[i], z[i], e[i]);
    assert AllMean(t, xi, sigma, mu, variance, z, e, threshes, "lognormal").value[i]
        == MeanCell(t, xi[i], sigma[i], mu[i], variance[i], z[i], e[i], PosInf, false);
  }

  /** With the GP term in use, a cell with a positive finite threshold a has the finite mean
      m (1 - z)(1 - e) + (a + sigma / (1 - xi)) (1 - z) e, where m >= 0 is the truncated
      lognormal mean below a. */
  lemma {:induction false} AllMeanWithExcess(t: Elementary, xi: seq<real>, sigma: seq<real>, mu: seq<real>,
                                             variance: seq<real>, z: seq<real>, e: seq<real>, threshes: seq<Num>,
                                             i: nat) returns (m: real)
    requires SignFacts(t)
    requires |xi| == |threshes| && |sigma| == |threshes| && |mu| == |threshes| && |variance| == |threshes|
    requires |z| == |threshes| && |e| == |threshes|
    requires !AllInfinite(threshes)
    requires i < |threshes| && threshes[i].Fin? && threshes[i].r > 0.0
    requires variance[i] > 0.0 && sigma[i] > 0.0 && xi[i] < 1.0
    ensures TruncLognormMean(t, mu[i], variance[i], threshes[i]) == Fin(m) && m >= 0.0
    ensures AllMean(t, xi, sigma, mu, variance, z, e, threshes, "lognormal").Ok?
    ensures AllMean(t, xi, sigma, mu, variance, z, e, threshes, "lognormal").value[i]
            == Fin(BoundedCellMean(m, threshes[i].r, xi[i], sigma[i], z[i], e[i]))
  {
    AllMeanAt(t, xi, sigma, mu, variance, z, e, threshes, i);
    m := MeanCellBounded(t, xi[i], sigma[i], mu[i], variance[i], z[i], e[i], threshes[i]);
  }

  /** A batch that mixes infinite and finite thresholds uses the GP term everywhere, so a cell
      whose threshold is +inf gets the mean +inf. */
  lemma {:induction false} AllMeanMixedInfinite(t: Elementary, xi: seq<real>, sigma: seq<real>, mu: seq<real>,
                                                variance: seq<real>, z: seq<real>, e: seq<real>, threshes: seq<Num>,
                                                i: nat)
    requires SignFacts(t)
    requires |xi| == |threshes| && |sigma| == |threshes| && |mu| == |threshes| && |variance| == |threshes|
    requires |z| == |threshes| && |e| == |threshes|
    requires !AllInfinite(threshes)
    requires i < |threshes| && threshes[i] == PosInf
    requires variance[i] > 0.0 && sigma[i] > 0.0 && xi[i] < 1.0
    requires 0.0 < z[i] < 1.0 && 0.0 < e[i] < 1.0
    ensures AllMean(t, xi, sigma, mu, variance, z, e, threshes, "lognormal").Ok?
    ensures AllMean(t, xi, sigma, mu, variance, z, e, threshes, "lognormal").value[i] == PosInf
  {
    AllMeanAt(t, xi, sigma, mu, variance, z, e, threshes, i);
    MeanCellUnbounded(t, xi[i], sigma[i], mu[i], variance[i], z[i], e[i]);
  }
}
