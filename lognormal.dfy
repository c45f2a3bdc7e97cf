/** The lognormal pieces of the mixture (src/util.py, lognorm_cdf, lognormal, threshed_lognorm,
    trunc_lognorm_mean and norm_cdf), cell by cell over extended values. */
module Lognormal {
  import opened NumValues
  import opened Primitives
  import opened RealArith

  /** The float constants of the source: math.sqrt(2), 2 * 3.14159274, and the eps of
      threshed_lognorm and trunc_lognorm_mean. */
  const Sqrt2: real := 1.4142135623730951
  const TwoPi: real := 6.28318548
  const CdfEps: real := 0.000001
  /** The placeholder lognormal adds to samples equal to zero. */
  const ZeroPlaceholder: real := 10.0

  /** var ** 0.5 * sqrt(2), the scale of the erf argument. */
  function ErfScale(t: Elementary, variance: real): Num {
    Mul(Pow(t, Fin(variance), Fin(0.5)), Fin(Sqrt2))
  }

  /** lognorm_cdf: 0.5 + 0.5 erf((log v - mu) / (sqrt(var) sqrt(2))). */
  function LognormCdf(t: Elementary, v: Num, mu: real, variance: real): Num {
    Add(Fin(0.5), Mul(Fin(0.5), Erf(t, Div(Sub(Log(t, v), Fin(mu)), ErfScale(t, variance)))))
  }

  /** For a positive variance the scale is a positive finite value. */
  lemma {:induction false} ErfScalePositive(t: Elementary, variance: real)
    requires CdfFacts(t) && variance > 0.0
    ensures ErfScale(t, variance).Fin? && ErfScale(t, variance).r > 0.0
  {
    var p := t.pow(variance)(0.5);
    assert p > 0.0;
    MulPositive(p, Sqrt2);
  }

  /** 0.5 + 0.5 e lies in [0, 1] for e in [-1, 1]. */
  lemma HalfAffine(e: real)
    requires -1.0 <= e <= 1.0
    ensures 0.0 <= 0.5 + 0.5 * e <= 1.0
  {
  }

  /** The lognormal CDF is NaN below zero and at NaN, 0 at zero, 1 at +inf and a value in
      [0, 1] at every positive sample. */
  lemma {:induction false} LognormCdfRange(t: Elementary, v: Num, mu: real, variance: real)
    requires CdfFacts(t) && variance > 0.0
    ensures v.NaN? || v.NegInf? || (v.Fin? && v.r < 0.0) ==> LognormCdf(t, v, mu, variance).NaN?
    ensures v == Fin(0.0) ==> LognormCdf(t, v, mu, variance) == Fin(0.0)
    ensures v.PosInf? ==> LognormCdf(t, v, mu, variance) == Fin(1.0)
    ensures v.Fin? && v.r > 0.0 ==>
              LognormCdf(t, v, mu, variance).Fin? && 0.0 <= LognormCdf(t, v, mu, variance).r <= 1.0
  {
    ErfScalePositive(t, variance);
    if v.Fin? && v.r > 0.0 {
      var e := t.erf((t.log(v.r) - mu) / ErfScale(t, variance).r);
      HalfAffine(e);
    }
  }

  /** At a positive sample the CDF is the real formula. */
  lemma {:induction false} LognormCdfAt(t: Elementary, a: real, mu: real, variance: real)
    requires CdfFacts(t) && variance > 0.0 && a > 0.0
    ensures ErfScale(t, variance).Fin? && ErfScale(t, variance).r > 0.0
    ensures LognormCdf(t, Fin(a), mu, variance)
            == Fin(0.5 + 0.5 * t.erf((t.log(a) - mu) / ErfScale(t, variance).r))
  {
    ErfScalePositive(t, variance);
    var s := ErfScale(t, variance).r;
    var l := t.log(a);
    var q := (l - mu) / s;
    var e := t.erf(q);
    assert Div(Sub(Log(t, Fin(a)), Fin(mu)), Fin(s)) == Fin(q) by {
      assert Log(t, Fin(a)) == Fin(l);
      assert Sub(Fin(l), Fin(mu)) == Fin(l - mu);
    }
    LognormCdfForm(t, Fin(a), mu, variance, s, Fin(q));
    assert Mul(Fin(0.5), Fin(e)) == Fin(0.5 * e);
  }

  /** lognorm_cdf with the scale and the erf argument given as values. */
  lemma {:induction false} LognormCdfForm(t: Elementary, v: Num, mu: real, variance: real, s: real, z: Num)
    requires ErfScale(t, variance) == Fin(s)
    requires Div(Sub(Log(t, v), Fin(mu)), Fin(s)) == z
    ensures LognormCdf(t, v, mu, variance) == Add(Fin(0.5), Mul(Fin(0.5), Erf(t, z)))
  {
  }

  /** The lognormal CDF does not decrease on the positive reals. */
  lemma {:induction false} LognormCdfMonotone(t: Elementary, a: real, b: real, mu: real, variance: real)
    requires CdfFacts(t) && variance > 0.0 && 0.0 < a <= b
    ensures LognormCdf(t, Fin(a), mu, variance).Fin? && LognormCdf(t, Fin(b), mu, variance).Fin?
    ensures LognormCdf(t, Fin(a), mu, variance).r <= LognormCdf(t, Fin(b), mu, variance).r
  {
    LognormCdfAt(t, a, mu, variance);
    LognormCdfAt(t, b, mu, variance);
    var s := ErfScale(t, variance).r;
    var la, lb := t.log(a), t.log(b);
    assert la <= lb by {
      if a < b {
        assert t.log(a) < t.log(b);
      }
    }
    var da, db := la - mu, lb - mu;
    DivMonotone(da, db, s);
    var qa, qb := da / s, db / s;
    var ea, eb := t.erf(qa), t.erf(qb);
    assert ea <= eb;
    assert LognormCdf(t, Fin(a), mu, variance) == Fin(0.5 + 0.5 * ea);
    assert LognormCdf(t, Fin(b), mu, variance) == Fin(0.5 + 0.5 * eb);
  }

  /** The replacement lognormal makes before evaluating: a sample equal to zero gets the
      placeholder added, every other value is kept. */
  function ZeroShift(v: Num): (r: Num)
    ensures Eq(v, Fin(0.0)) ==> r == Fin(ZeroPlaceholder)
    ensures !Eq(v, Fin(0.0)) ==> r == v
  {
    if Eq(v, Fin(0.0)) then Add(v, Fin(ZeroPlaceholder)) else v
  }

  /** (log v - mu) ** 2, the square written as a product. */
  function SquaredLogDeviation(t: Elementary, v: Num, mu: real): Num {
    Mul(Sub(Log(t, v), Fin(mu)), Sub(Log(t, v), Fin(mu)))
  }

  /** The log-density lognormal computes at one (already shifted) sample:
      -log v - 0.5 log var - 0.5 log(2 pi) - (log v - mu) ** 2 / (2 var). */
  function LognormalDensity(t: Elementary, v: Num, mu: real, variance: real): Num {
    var first := Sub(Sub(Neg(Log(t, v)), Mul(Fin(0.5), Log(t, Fin(variance)))),
                     Mul(Fin(0.5), Log(t, Fin(TwoPi))));
    var second := Neg(Div(SquaredLogDeviation(t, v, mu), Fin(2.0 * variance)));
    Add(first, second)
  }

  /** At a positive sample and a positive variance the log-density is the finite real formula. */
  lemma {:induction false} LognormalDensityAt(t: Elementary, a: real, mu: real, variance: real)
    requires a > 0.0 && variance > 0.0
    ensures LognormalDensity(t, Fin(a), mu, variance)
            == Fin(-t.log(a) - 0.5 * t.log(variance) - 0.5 * t.log(TwoPi)
                   - (t.log(a) - mu) * (t.log(a) - mu) / (2.0 * variance))
  {
    var la, lv, lp := t.log(a), t.log(variance), t.log(TwoPi);
    var d := la - mu;
    var sq := d * d;
    var tv := 2.0 * variance;
    assert Log(t, Fin(a)) == Fin(la);
    assert Sub(Log(t, Fin(a)), Fin(mu)) == Fin(d);
    assert SquaredLogDeviation(t, Fin(a), mu) == Fin(sq);
    assert Div(Fin(sq), Fin(tv)) == Fin(sq / tv);
    assert Mul(Fin(0.5), Log(t, Fin(variance))) == Fin(0.5 * lv);
    assert Mul(Fin(0.5), Log(t, Fin(TwoPi))) == Fin(0.5 * lp);
  }

  /** The log-density is -inf at +inf and NaN at NaN and at negative samples. */
  lemma {:induction false} LognormalDensityOffSupport(t: Elementary, v: Num, mu: real, variance: real)
    requires variance > 0.0
    ensures v.PosInf? ==> LognormalDensity(t, v, mu, variance) == NegInf
    ensures v.NaN? || v.NegInf? || (v.Fin? && v.r < 0.0) ==> LognormalDensity(t, v, mu, variance).NaN?
  {
    if v.PosInf? {
      assert SquaredLogDeviation(t, v, mu) == PosInf;
    } else if !v.Fin? || v.r < 0.0 {
      assert Log(t, v).NaN?;
    }
  }

  /** lognormal: adds the placeholder to the zero samples in place, then returns the log-density
      of every (shifted) sample. */
  method LognormalLogDensity(t: Elementary, samples: array<Num>, mu: seq<real>, variance: seq<real>)
    returns (out: seq<Num>)
    requires samples.Length == |mu| == |variance|
    modifies samples
    ensures forall i :: 0 <= i < samples.Length ==> samples[i] == ZeroShift(old(samples[i]))
    ensures |out| == samples.Length
    ensures forall i :: 0 <= i < |out| ==> out[i] == LognormalDensity(t, samples[i], mu[i], variance[i])
  {
    var n := samples.Length;
    var k := 0;
    while k < n
      invariant 0 <= k <= n
      invariant forall i :: 0 <= i < k ==> samples[i] == ZeroShift(old(samples[i]))
      invariant forall i :: k <= i < n ==> samples[i] == old(samples[i])
    {
      if Eq(samples[k], Fin(0.0)) {
        samples[k] := Add(samples[k], Fin(ZeroPlaceholder));
      }
      k := k + 1;
    }
    out := [];
    k := 0;
    while k < n
      invariant 0 <= k <= n
      invariant |out| == k
      invariant forall i :: 0 <= i < k ==> out[i] == LognormalDensity(t, samples[i], mu[i], variance[i])
    {
      out := out + [LognormalDensity(t, samples[k], mu[k], variance[k])];
      k := k + 1;
    }
  }

  /** threshed_lognorm at one cell: the log-density at the shifted sample minus
      log(cdf(thresh) + eps), the normalisation to the mass below the threshold. */
  function ThreshedLognormCell(t: Elementary, v: Num, thresh: Num, mu: real, variance: real): Num {
    Sub(LognormalDensity(t, ZeroShift(v), mu, variance), LogNormaliser(t, thresh, mu, variance))
  }

  /** log(cdf(thresh) + eps), the log of the mass below the threshold. */
  function LogNormaliser(t: Elementary, thresh: Num, mu: real, variance: real): Num {
    Log(t, Add(LognormCdf(t, thresh, mu, variance), Fin(CdfEps)))
  }

  /** At a positive sample, with a threshold at which the CDF lies in [0, 1], the truncated
      log-density is finite. */
  lemma {:induction false} ThreshedLognormFinite(t: Elementary, a: real, thresh: Num, mu: real, variance: real, c: real)
    requires a > 0.0 && variance > 0.0
    requires LognormCdf(t, thresh, mu, variance) == Fin(c) && 0.0 <= c
    ensures ThreshedLognormCell(t, Fin(a), thresh, mu, variance).Fin?
  {
    assert ZeroShift(Fin(a)) == Fin(a);
    var x := LognormalDensityValue(t, a, mu, variance);
    var y := LogNormaliserValue(t, thresh, mu, variance, c);
    assert Sub(Fin(x), Fin(y)) == Fin(x - y);
  }

  /** At a positive sample and a positive variance the log-density is a finite value. */
  lemma {:induction false} LognormalDensityValue(t: Elementary, a: real, mu: real, variance: real) returns (x: real)
    requires a > 0.0 && variance > 0.0
    ensures LognormalDensity(t, Fin(a), mu, variance) == Fin(x)
  {
    LognormalDensityAt(t, a, mu, variance);
    x := LognormalDensity(t, Fin(a), mu, variance).r;
  }

  /** Where the CDF at the threshold is a value c >= 0 the log normalisation is log(c + eps). */
  lemma {:induction false} LogNormaliserValue(t: Elementary, thresh: Num, mu: real, variance: real, c: real) returns (y: real)
    requires LognormCdf(t, thresh, mu, variance) == Fin(c) && 0.0 <= c
    ensures LogNormaliser(t, thresh, mu, variance) == Fin(y)
    ensures y == t.log(c + CdfEps)
  {
    var d := c + CdfEps;
    assert Add(Fin(c), Fin(CdfEps)) == Fin(d);
    y := t.log(d);
  }

  /** In the hurdle setting (a threshold that is positive or +inf) the truncated log-density is
      finite at every non-negative sample: the zero samples are moved to the placeholder. */
  lemma {:induction false} ThreshedLognormValues(t: Elementary, v: Num, thresh: Num, mu: real, variance: real)
    requires CdfFacts(t) && variance > 0.0
    requires v.Fin? && v.r >= 0.0 && ((thresh.Fin? && thresh.r > 0.0) || thresh.PosInf?)
    ensures ThreshedLognormCell(t, v, thresh, mu, variance).Fin?
  {
    var c := CdfAtThreshold(t, thresh, mu, variance);
    var w := if v.r == 0.0 then ZeroPlaceholder else v.r;
    assert ZeroShift(v) == Fin(w);
    ThreshedLognormFinite(t, w, thresh, mu, variance, c);
  }

  /** At a positive or infinite threshold the CDF is a value c in [0, 1]. */
  lemma {:induction false} CdfAtThreshold(t: Elementary, thresh: Num, mu: real, variance: real) returns (c: real)
    requires CdfFacts(t) && variance > 0.0
    requires (thresh.Fin? && thresh.r > 0.0) || thresh.PosInf?
    ensures LognormCdf(t, thresh, mu, variance) == Fin(c) && 0.0 <= c <= 1.0
  {
    LognormCdfRange(t, thresh, mu, variance);
    c := LognormCdf(t, thresh, mu, variance).r;
  }

  /** threshed_lognorm: calls lognormal (which shifts the zero samples in place) and subtracts
      the log normalisation of every cell. */
  method ThreshedLognorm(t: Elementary, samples: array<Num>, threshes: seq<Num>, mu: seq<real>, variance: seq<real>)
    returns (out: seq<Num>)
    requires samples.Length == |threshes| == |mu| == |variance|
    modifies samples
    ensures forall i :: 0 <= i < samples.Length ==> samples[i] == ZeroShift(old(samples[i]))
    ensures |out| == samples.Length
    ensures forall i :: 0 <= i < |out| ==>
              out[i] == ThreshedLognormCell(t, old(samples[i]), threshes[i], mu[i], variance[i])
  {
    var density := LognormalLogDensity(t, samples, mu, variance);
    out := [];
    var k := 0;
    while k < samples.Length
      invariant 0 <= k <= samples.Length
      invariant |out| == k
      invariant forall i :: 0 <= i < k ==>
                  out[i] == ThreshedLognormCell(t, old(samples[i]), threshes[i], mu[i], variance[i])
    {
      var norm := LogNormaliser(t, threshes[k], mu[k], variance[k]);
      assert density[k] == LognormalDensity(t, ZeroShift(old(samples[k])), mu[k], variance[k]);
      out := out + [Sub(density[k], norm)];
      k := k + 1;
    }
  }

  /** norm_cdf as the source composes it: 0.5 (1 + erf((v - mean) * (1 / sd) / sqrt 2)). */
  function NormCdf(t: Elementary, v: Num, mean: Num, sd: Num): Num {
    Mul(Fin(0.5), Add(Fin(1.0), Erf(t, Div(Mul(Sub(v, mean), Div(Fin(1.0), sd)), Fin(Sqrt2)))))
  }

  /** The standard normal CDF Phi over extended values: 0 at -inf, 1 at +inf, NaN at NaN. */
  function Phi(t: Elementary, v: Num): Num {
    match v
    case NaN => NaN
    case NegInf => Fin(0.0)
    case PosInf => Fin(1.0)
    case Fin(x) => Fin(0.5 * (1.0 + t.erf(x / Sqrt2)))
  }

  /** norm_cdf with mean 0 and standard deviation 1, as trunc_lognorm_mean calls it, is Phi
      at every value, the infinities and NaN included. */
  lemma {:induction false} NormCdfStandard(t: Elementary, v: Num)
    ensures NormCdf(t, v, Fin(0.0), Fin(1.0)) == Phi(t, v)
  {
    match v
    case Fin(x) => NormCdfStandardFinite(t, x);
    case PosInf => NormCdfStandardInfinite(t, true);
    case NegInf => NormCdfStandardInfinite(t, false);
    case NaN =>
  }

  /** The finite case of NormCdfStandard. */
  lemma {:induction false} NormCdfStandardFinite(t: Elementary, x: real)
    ensures NormCdf(t, Fin(x), Fin(0.0), Fin(1.0)) == Phi(t, Fin(x))
  {
    NormCdfUnitScale(t, x, 0.0);
    assert (x - 0.0) / Sqrt2 == x / Sqrt2;
  }

  /** With standard deviation 1, norm_cdf at a finite value is 0.5 (1 + erf((x - m) / sqrt 2)). */
  lemma {:induction false} NormCdfUnitScale(t: Elementary, x: real, m: real)
    ensures NormCdf(t, Fin(x), Fin(m), Fin(1.0)) == Fin(0.5 * (1.0 + t.erf((x - m) / Sqrt2)))
  {
    var q := (x - m) / Sqrt2;
    var e := t.erf(q);
    assert Div(Mul(Sub(Fin(x), Fin(m)), Div(Fin(1.0), Fin(1.0))), Fin(Sqrt2)) == Fin(q);
    assert Add(Fin(1.0), Erf(t, Fin(q))) == Fin(1.0 + e);
  }

  /** The infinite cases of NormCdfStandard. */
  lemma {:induction false} NormCdfStandardInfinite(t: Elementary, positive: bool)
    ensures var v := if positive then PosInf else NegInf;
            NormCdf(t, v, Fin(0.0), Fin(1.0)) == Phi(t, v)
  {
    if positive {
      NormCdfAtInfinity(t, PosInf, Fin(0.0));
    } else {
      NormCdfAtInfinity(t, NegInf, Fin(0.0));
    }
  }

  /** norm_cdf at an infinity, for a finite mean and unit deviation, is erf's limit there. */
  lemma {:induction false} NormCdfAtInfinity(t: Elementary, v: Num, mean: Num)
    requires v.PosInf? || v.NegInf?
    requires mean.Fin?
    ensures NormCdf(t, v, mean, Fin(1.0)) == Phi(t, v)
  {
    var z := Div(Mul(Sub(v, mean), Div(Fin(1.0), Fin(1.0))), Fin(Sqrt2));
    assert z == v;
  }

  /** Phi lies in [0, 1] at every finite value. */
  lemma {:induction false} PhiRange(t: Elementary, x: real)
    requires SignFacts(t)
    ensures Phi(t, Fin(x)).Fin? && 0.0 <= Phi(t, Fin(x)).r <= 1.0
  {
    var e := t.erf(x / Sqrt2);
    HalfAffine(e);
    assert 0.5 * (1.0 + e) == 0.5 + 0.5 * e;
  }

  /** Phi does not decrease. */
  lemma {:induction false} PhiMonotone(t: Elementary, x: real, y: real)
    requires Sound(t) && x <= y
    ensures Phi(t, Fin(x)).r <= Phi(t, Fin(y)).r
  {
    var qx, qy := x / Sqrt2, y / Sqrt2;
    DivMonotone(x, y, Sqrt2);
    assert t.erf(qx) <= t.erf(qy);
  }

  /** trunc_lognorm_mean: exp(mu + var / 2) Phi(beta - sd) / (eps + Phi(beta)) with
      sd = var ** 0.5 and beta = (log upper - mu) / sd. The source evaluates Phi as
      norm_cdf(., 0, 1), which NormCdfStandard shows is Phi everywhere. */
  function TruncLognormMean(t: Elementary, mu: real, variance: real, upper: Num): Num {
    var sd := Pow(t, Fin(variance), Fin(0.5));
    var beta := Div(Sub(Log(t, upper), Fin(mu)), sd);
    var scaling := Div(Phi(t, Sub(beta, sd)), Add(Fin(CdfEps), Phi(t, beta)));
    Mul(Exp(t, Fin(mu + variance / 2.0)), scaling)
  }

  /** The truncated mean with sd and beta given as values. */
  lemma {:induction false} TruncLognormMeanForm(t: Elementary, mu: real, variance: real, upper: Num, sd: real, beta: Num)
    requires Pow(t, Fin(variance), Fin(0.5)) == Fin(sd)
    requires beta == Div(Sub(Log(t, upper), Fin(mu)), Fin(sd))
    ensures TruncLognormMean(t, mu, variance, upper)
            == Mul(Exp(t, Fin(mu + variance / 2.0)),
                   Div(Phi(t, Sub(beta, Fin(sd))), Add(Fin(CdfEps), Phi(t, beta))))
  {
  }

  /** n / (eps + d) is finite and non-negative for finite n, d >= 0. */
  lemma {:induction false} NonNegativeRatio(n: Num, d: Num)
    requires n.Fin? && 0.0 <= n.r && d.Fin? && 0.0 <= d.r
    ensures Div(n, Add(Fin(CdfEps), d)).Fin?
    ensures Div(n, Add(Fin(CdfEps), d)).r >= 0.0
  {
    var den := CdfEps + d.r;
    NonNegativeQuotient(n.r, den);
  }

  /** With no upper bound (+inf) the scaling factor is 1 / (1 + eps): the mean is the plain
      lognormal mean exp(mu + var / 2) up to eps. */
  lemma {:induction false} TruncLognormMeanUnbounded(t: Elementary, mu: real, variance: real)
    requires SignFacts(t) && variance > 0.0
    ensures TruncLognormMean(t, mu, variance, PosInf)
            == Fin(t.exp(mu + variance / 2.0) * (1.0 / (1.0 + CdfEps)))
  {
    var sd := Pow(t, Fin(variance), Fin(0.5)).r;
    assert sd > 0.0 by {
      if variance != 1.0 {
        assert t.pow(variance)(0.5) > 0.0;
      }
    }
    TruncLognormMeanForm(t, mu, variance, PosInf, sd, PosInf);
  }

  /** For any positive upper bound the truncated mean is finite and non-negative. */
  lemma {:induction false} TruncLognormMeanBounded(t: Elementary, mu: real, variance: real, a: real)
    requires SignFacts(t) && variance > 0.0 && a > 0.0
    ensures TruncLognormMean(t, mu, variance, Fin(a)).Fin?
    ensures TruncLognormMean(t, mu, variance, Fin(a)).r >= 0.0
  {
    var sd := Pow(t, Fin(variance), Fin(0.5)).r;
    assert sd > 0.0 by {
      if variance != 1.0 {
        assert t.pow(variance)(0.5) > 0.0;
      }
    }
    var beta := Div(Sub(Log(t, Fin(a)), Fin(mu)), Fin(sd));
    assert beta.Fin?;
    var b := beta.r;
    var c := b - sd;
    assert Sub(beta, Fin(sd)) == Fin(c);
    PhiRange(t, b);
    PhiRange(t, c);
    TruncLognormMeanForm(t, mu, variance, Fin(a), sd, beta);
    NonNegativeRatio(Phi(t, Fin(c)), Phi(t, beta));
    var f := Div(Phi(t, Fin(c)), Add(Fin(CdfEps), Phi(t, beta)));
    var y := mu + variance / 2.0;
    var ex, r := t.exp(y), f.r;
    assert ex > 0.0;
    MulNonNegative(ex, r);
  }
}
