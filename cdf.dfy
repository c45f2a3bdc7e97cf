/** The mixture CDF (src/util.py: threshed_lognorm_cdf, all_cdf): the truncated lognormal CDF
    built by ordered overwrites, and the mixture that adds the zero, moderate and excess terms
    over their index sets. */
module MixtureCdf {
  import opened NumValues
  import opened Primitives
  import opened RealArith
  import opened Outcomes
  import opened Masked
  import opened Lognormal
  import opened GeneralizedPareto

  /** The bounds threshed_lognorm_cdf substitutes when none is given, with their CDF values. */
  const DefaultUpper: real := 99999999.0
  const DefaultLower: real := -99999999.0

  /** A truncation bound with the lognormal CDF at it. */
  datatype Bound = Bound(at: Num, cdf: Num)

  /** The upper bound: 99999999 with CDF 1 when absent, else the given value and its CDF. */
  function UpperBound(t: Elementary, upper: Option<Num>, mu: real, variance: real): Bound {
    if upper.None? then Bound(Fin(DefaultUpper), Fin(1.0))
    else Bound(upper.value, LognormCdf(t, upper.value, mu, variance))
  }

  /** The lower bound: -99999999 with CDF 0 when absent, else the given value and its CDF. */
  function LowerBound(t: Elementary, lower: Option<Num>, mu: real, variance: real): Bound {
    if lower.None? then Bound(Fin(DefaultLower), Fin(0.0))
    else Bound(lower.value, LognormCdf(t, lower.value, mu, variance))
  }

  /** The one cell of a bound argument that is either absent or a tensor. */
  function BoundAt(b: Option<seq<Num>>, i: nat): Option<Num>
    requires b.Some? ==> i < |b.value|
  {
    if b.None? then None else Some(b.value[i])
  }

  /** threshed_lognorm_cdf at one cell, in the order its writes take effect: a zero
      denominator wins over everything, then a value above the upper bound, then one below
      the lower bound, and only then cdf(v) / (cdf(upper) - cdf(lower)). */
  function TruncatedCdf(v: Num, cdf: Num, lo: Bound, up: Bound): Num {
    var denom := Sub(up.cdf, lo.cdf);
    if Eq(denom, Fin(0.0)) then Fin(0.0)
    else if Gt(v, up.at) then Fin(1.0)
    else if Lt(v, lo.at) then Fin(0.0)
    else Div(cdf, denom)
  }

  /** threshed_lognorm_cdf at one cell: TruncatedCdf over the lognormal CDF and the bounds. */
  function ThreshedLognormCdfCell(t: Elementary, v: Num, mu: real, variance: real,
                                  lower: Option<Num>, upper: Option<Num>): Num {
    TruncatedCdf(v, LognormCdf(t, v, mu, variance),
                 LowerBound(t, lower, mu, variance), UpperBound(t, upper, mu, variance))
  }

  /** threshed_lognorm_cdf: divides the CDF by the mass between the bounds, then overwrites
      with 0 below the lower bound, with 1 above the upper bound and with 0 where the mass is 0. */
  method ThreshedLognormCdf(t: Elementary, vals: seq<Num>, mu: seq<real>, variance: seq<real>,
                            lower: Option<seq<Num>>, upper: Option<seq<Num>>) returns (out: seq<Num>)
    requires |mu| == |vals| && |variance| == |vals|
    requires lower.Some? ==> |lower.value| == |vals|
    requires upper.Some? ==> |upper.value| == |vals|
    ensures |out| == |vals|
    ensures forall i :: 0 <= i < |vals| ==>
              out[i] == ThreshedLognormCdfCell(t, vals[i], mu[i], variance[i], BoundAt(lower, i), BoundAt(upper, i))
  {
    var n := |vals|;
    var lo := seq(n, i requires 0 <= i < n => LowerBound(t, BoundAt(lower, i), mu[i], variance[i]));
    var up := seq(n, i requires 0 <= i < n => UpperBound(t, BoundAt(upper, i), mu[i], variance[i]));
    var cdf := seq(n, i requires 0 <= i < n => LognormCdf(t, vals[i], mu[i], variance[i]));
    out := Truncate(vals, cdf, lo, up);
  }

  /** The overwrites of threshed_lognorm_cdf, given the CDF at every value and the bounds. */
  method Truncate(vals: seq<Num>, cdf: seq<Num>, lo: seq<Bound>, up: seq<Bound>) returns (out: seq<Num>)
    requires |cdf| == |vals| && |lo| == |vals| && |up| == |vals|
    ensures |out| == |vals|
    ensures forall i :: 0 <= i < |vals| ==> out[i] == TruncatedCdf(vals[i], cdf[i], lo[i], up[i])
  {
    var n := |vals|;
    var denom := seq(n, i requires 0 <= i < n => Sub(up[i].cdf, lo[i].cdf));
    var a := new Num[n](i requires 0 <= i < n => Div(cdf[i], denom[i]));
    Fill(a, seq(n, i requires 0 <= i < n => Lt(vals[i], lo[i].at)), Fin(0.0));
    Fill(a, seq(n, i requires 0 <= i < n => Gt(vals[i], up[i].at)), Fin(1.0));
    Fill(a, seq(n, i requires 0 <= i < n => Eq(denom[i], Fin(0.0))), Fin(0.0));
    out := a[..];
  }

  /** Where the value is both below the lower bound and above the upper bound (crossed
      bounds), the later write wins: the result is 1 unless the mass between them is 0. */
  lemma {:induction false} CrossedBoundsUpperWins(v: Num, cdf: Num, lo: Bound, up: Bound)
    requires Lt(v, lo.at) && Gt(v, up.at)
    ensures TruncatedCdf(v, cdf, lo, up) == (if Eq(Sub(up.cdf, lo.cdf), Fin(0.0)) then Fin(0.0) else Fin(1.0))
  {
  }

  /** With only an upper bound u > 0 (or +inf), every positive value gets a probability:
      1 above u, cdf(v) / cdf(u) up to u, and 0 when cdf(u) is 0. */
  lemma {:induction false} UpperTruncatedRange(t: Elementary, a: real, mu: real, variance: real, u: Num)
    returns (r: real)
    requires CdfFacts(t) && variance > 0.0 && a > 0.0
    requires (u.Fin? && u.r > 0.0) || u.PosInf?
    ensures ThreshedLognormCdfCell(t, Fin(a), mu, variance, None, Some(u)) == Fin(r)
    ensures 0.0 <= r <= 1.0
    ensures Gt(Fin(a), u) && LognormCdf(t, u, mu, variance) != Fin(0.0) ==> r == 1.0
  {
    var ca, cu := CdfPair(t, a, mu, variance, u);
    r := UpperTruncatedFromValues(t, a, mu, variance, u, ca, cu);
  }

  /** The lognormal CDF at a positive value and at a positive or infinite bound: values in
      [0, 1], the first no larger than the second up to the bound. */
  lemma {:induction false} CdfPair(t: Elementary, a: real, mu: real, variance: real, u: Num) returns (ca: real, cu: real)
    requires CdfFacts(t) && variance > 0.0 && a > 0.0
    requires (u.Fin? && u.r > 0.0) || u.PosInf?
    ensures LognormCdf(t, Fin(a), mu, variance) == Fin(ca) && 0.0 <= ca <= 1.0
    ensures LognormCdf(t, u, mu, variance) == Fin(cu) && 0.0 <= cu <= 1.0
    ensures !Gt(Fin(a), u) ==> ca <= cu
  {
    cu := CdfAtBound(t, mu, variance, u);
    ca := CdfAtBound(t, mu, variance, Fin(a));
    if u.Fin? && a <= u.r {
      LognormCdfMonotone(t, a, u.r, mu, variance);
    }
  }

  /** The lognormal CDF at a positive or infinite bound is a value in [0, 1]. */
  lemma {:induction false} CdfAtBound(t: Elementary, mu: real, variance: real, u: Num) returns (cu: real)
    requires CdfFacts(t) && variance > 0.0
    requires (u.Fin? && u.r > 0.0) || u.PosInf?
    ensures LognormCdf(t, u, mu, variance) == Fin(cu) && 0.0 <= cu <= 1.0
    ensures u.PosInf? ==> cu == 1.0
  {
    LognormCdfRange(t, u, mu, variance);
    cu := LognormCdf(t, u, mu, variance).r;
  }

  /** UpperTruncatedRange once the two CDF values are known. */
  lemma {:induction false} UpperTruncatedFromValues(t: Elementary, a: real, mu: real, variance: real, u: Num,
                                                    ca: real, cu: real) returns (r: real)
    requires a > 0.0 && ((u.Fin? && u.r > 0.0) || u.PosInf?)
    requires LognormCdf(t, Fin(a), mu, variance) == Fin(ca) && 0.0 <= ca
    requires LognormCdf(t, u, mu, variance) == Fin(cu) && 0.0 <= cu <= 1.0
    requires !Gt(Fin(a), u) ==> ca <= cu
    ensures ThreshedLognormCdfCell(t, Fin(a), mu, variance, None, Some(u)) == Fin(r)
    ensures 0.0 <= r <= 1.0
    ensures Gt(Fin(a), u) && cu != 0.0 ==> r == 1.0
  {
    UpperTruncatedForm(t, a, mu, variance, u, ca, cu);
    r := TruncatedCdfRange(a, ca, cu, u);
  }

  /** The truncated CDF with only an upper bound, once the two CDF values are known. */
  lemma {:induction false} UpperTruncatedForm(t: Elementary, a: real, mu: real, variance: real, u: Num, ca: real, cu: real)
    requires LognormCdf(t, Fin(a), mu, variance) == Fin(ca) && LognormCdf(t, u, mu, variance) == Fin(cu)
    ensures ThreshedLognormCdfCell(t, Fin(a), mu, variance, None, Some(u))
            == TruncatedCdf(Fin(a), Fin(ca), Bound(Fin(DefaultLower), Fin(0.0)), Bound(u, Fin(cu)))
  {
  }

  /** The bookkeeping behind UpperTruncatedRange, for any CDF values ca at the value and cu at
      the bound with ca <= cu up to the bound. */
  lemma {:induction false} TruncatedCdfRange(a: real, ca: real, cu: real, u: Num) returns (r: real)
    requires (u.Fin? && u.r > 0.0) || u.PosInf?
    requires a > 0.0 && 0.0 <= ca && 0.0 <= cu <= 1.0
    requires cu != 0.0 && !Gt(Fin(a), u) ==> ca <= cu
    ensures TruncatedCdf(Fin(a), Fin(ca), Bound(Fin(DefaultLower), Fin(0.0)), Bound(u, Fin(cu))) == Fin(r)
    ensures 0.0 <= r <= 1.0
    ensures Gt(Fin(a), u) && cu != 0.0 ==> r == 1.0
    ensures !Gt(Fin(a), u) && cu != 0.0 ==> Div(Fin(ca), Fin(cu)) == Fin(r)
  {
    TruncatedCdfFiniteMass(Fin(a), Fin(ca), Fin(DefaultLower), 0.0, u, cu);
    if cu == 0.0 || Gt(Fin(a), u) {
      r := if cu == 0.0 then 0.0 else 1.0;
    } else {
      QuotientBounds01(ca, cu);
      r := Div(Fin(ca), Fin(cu)).r;
    }
  }

  /** With finite CDF values at both bounds the mass between them is their difference. */
  lemma TruncatedCdfFiniteMass(v: Num, cdf: Num, la: Num, lc: real, ua: Num, uc: real)
    ensures TruncatedCdf(v, cdf, Bound(la, Fin(lc)), Bound(ua, Fin(uc))) ==
            if uc - lc == 0.0 then Fin(0.0)
            else if Gt(v, ua) then Fin(1.0)
            else if Lt(v, la) then Fin(0.0)
            else Div(cdf, Fin(uc - lc))
  {
    assert Sub(Fin(uc), Fin(lc)) == Fin(uc - lc);
  }

  /** n / d is a value in [0, 1] for 0 <= n <= d and d != 0. */
  lemma QuotientBounds01(n: real, d: real)
    requires 0.0 <= n <= d && d != 0.0
    ensures Div(Fin(n), Fin(d)).Fin? && 0.0 <= Div(Fin(n), Fin(d)).r <= 1.0
  {
    DivideByPositive(n, d);
  }

  /** The mixture weight of the moderate component, (1 - z)(1 - e). */
  function ModerateWeight(z: real, e: real): real { (1.0 - z) * (1.0 - e) }

  /** The mixture weight of the excess component, (1 - z) e. */
  function ExcessWeight(z: real, e: real): real { (1.0 - z) * e }

  /** all_cdf at one cell given the truncated lognormal CDF m and the GPD CDF x there: z where
      the sample is >= 0, plus (1 - z)(1 - e) m where it is > 0, plus (1 - z) e x where it is
      above the effective threshold; 0 everywhere else, at NaN samples too. */
  function MixtureCdfTerms(s: Num, eff: Num, z: real, e: real, m: Num, x: Num): Num {
    var zero := if Ge(s, Fin(0.0)) then Add(Fin(0.0), Fin(z)) else Fin(0.0);
    var moderate := if Gt(s, Fin(0.0)) then Add(zero, Mul(Fin(ModerateWeight(z, e)), m)) else zero;
    if Gt(s, eff) then Add(moderate, Mul(Fin(ExcessWeight(z, e)), x)) else moderate
  }

  /** all_cdf at one cell: the moderate term is threshed_lognorm_cdf with the effective
      threshold as upper bound, the excess term gpd_cdf as written from the actual threshold,
      which is 0 at xi == 0 (GpdCdfAsWrittenZeroShape). */
  function AllCdfCell(t: Elementary, s: Num, z: real, e: real, xi: real, sigma: real, mu: real, variance: real,
                      eff: Num, act: Num): Num {
    MixtureCdfTerms(s, eff, z, e, ThreshedLognormCdfCell(t, s, mu, variance, None, Some(eff)),
                    ExcessCdfCell(t, s, xi, sigma, eff, act))
  }

  /** The excess term's CDF at one cell: gpd_cdf as written above the effective threshold; the
      value elsewhere is 0, which the excess term never adds. */
  function ExcessCdfCell(t: Elementary, s: Num, xi: real, sigma: real, eff: Num, act: Num): Num {
    if Gt(s, eff) then GpdCdfAsWritten(t, s, Fin(xi), Fin(sigma), act) else Fin(0.0)
  }

  /** all_cdf at one cell with the excess term taken from the GPD CDF with its exponential
      limit at xi == 0, as the generalized Pareto distribution defines it. */
  function AllCdfCellCorrected(t: Elementary, s: Num, z: real, e: real, xi: real, sigma: real, mu: real,
                               variance: real, eff: Num, act: Num): Num {
    MixtureCdfTerms(s, eff, z, e, ThreshedLognormCdfCell(t, s, mu, variance, None, Some(eff)),
                    GpdCdf(t, s, Fin(xi), Fin(sigma), act))
  }

  const OnlyLognormalCdf: string := "only lognormal function is supported for non-excess values"

  /** all_cdf: any moderate density other than 'lognormal' raises ValueError; otherwise the
      three terms are added over their index sets by MixtureCdfSum. (The source adds the zero
      term before raising, into a local tensor, which makes no difference to the outcome.) */
  method AllCdf(t: Elementary, samples: seq<Num>, xi: seq<real>, sigma: seq<real>, mu: seq<real>,
                variance: seq<real>, z: seq<real>, e: seq<real>, eff: seq<Num>, act: seq<Num>,
                moderateFunc: string) returns (r: Result<seq<Num>>)
    requires |xi| == |samples| && |sigma| == |samples| && |mu| == |samples| && |variance| == |samples|
    requires |z| == |samples| && |e| == |samples| && |eff| == |samples| && |act| == |samples|
    ensures r.Err? <==> moderateFunc != "lognormal"
    ensures r.Err? ==> r.error == ValueError(OnlyLognormalCdf)
    ensures r.Ok? ==> |r.value| == |samples|
    ensures r.Ok? ==> forall i :: 0 <= i < |samples| ==>
              r.value[i] == AllCdfCell(t, samples[i], z[i], e[i], xi[i], sigma[i], mu[i], variance[i], eff[i], act[i])
  {
    if moderateFunc != "lognormal" {
      return Err(ValueError(OnlyLognormalCdf));
    }
    var n := |samples|;
    var m := ThreshedLognormCdf(t, samples, mu, variance, None, Some(eff));
    var x := seq(n, i requires 0 <= i < n => GpdCdfAsWritten(t, samples[i], Fin(xi[i]), Fin(sigma[i]), act[i]));
    var out := MixtureCdfSum(samples, eff, z, e, m, x);
    r := Ok(out);
  }

  /** The additions of all_cdf, given the moderate and excess CDFs at every cell: zeros, then
      out[s >= 0] += z, out[s > 0] += (1 - z)(1 - e) m, out[s > eff] += (1 - z) e x. */
  method MixtureCdfSum(samples: seq<Num>, eff: seq<Num>, z: seq<real>, e: seq<real>, m: seq<Num>, x: seq<Num>)
    returns (out: seq<Num>)
    requires |eff| == |samples| && |z| == |samples| && |e| == |samples| && |m| == |samples| && |x| == |samples|
    ensures |out| == |samples|
    ensures forall i :: 0 <= i < |samples| ==> out[i] == MixtureCdfTerms(samples[i], eff[i], z[i], e[i], m[i], x[i])
  {
    var n := |samples|;
    var a := new Num[n](_ => Fin(0.0));
    var nonNegative := seq(n, i requires 0 <= i < n => Ge(samples[i], Fin(0.0)));
    var zeroTerm := seq(n, i requires 0 <= i < n => Fin(z[i]));
    AddWhere(a, nonNegative, zeroTerm);
    ghost var afterZero := a[..];
    var positive := seq(n, i requires 0 <= i < n => Gt(samples[i], Fin(0.0)));
    var moderateTerm := seq(n, i requires 0 <= i < n => Mul(Fin(ModerateWeight(z[i], e[i])), m[i]));
    AddWhere(a, positive, moderateTerm);
    ghost var afterModerate := a[..];
    var excess := seq(n, i requires 0 <= i < n => Gt(samples[i], eff[i]));
    var excessTerm := seq(n, i requires 0 <= i < n => Mul(Fin(ExcessWeight(z[i], e[i])), x[i]));
    AddWhere(a, excess, excessTerm);
    forall i | 0 <= i < n
      ensures a[i] == MixtureCdfTerms(samples[i], eff[i], z[i], e[i], m[i], x[i])
    {
      assert nonNegative[i] == Ge(samples[i], Fin(0.0)) && zeroTerm[i] == Fin(z[i]);
      assert positive[i] == Gt(samples[i], Fin(0.0));
      assert moderateTerm[i] == Mul(Fin(ModerateWeight(z[i], e[i])), m[i]);
      assert excess[i] == Gt(samples[i], eff[i]);
      assert excessTerm[i] == Mul(Fin(ExcessWeight(z[i], e[i])), x[i]);
      assert afterZero[i] == if nonNegative[i] then Add(Fin(0.0), zeroTerm[i]) else Fin(0.0);
      assert afterModerate[i] == if positive[i] then Add(afterZero[i], moderateTerm[i]) else afterZero[i];
      assert a[i] == if excess[i] then Add(afterModerate[i], excessTerm[i]) else afterModerate[i];
    }
    out := a[..];
  }

  /** z + (1 - z)(1 - e) m + (1 - z) e x lies in [0, 1] for z, e, m and x in [0, 1]: the weights
      of the zero, moderate and excess components sum to 1. */
  lemma {:induction false} MixtureWeightsRange(z: real, e: real, m: real, x: real)
    requires 0.0 <= z <= 1.0 && 0.0 <= e <= 1.0 && 0.0 <= m <= 1.0 && 0.0 <= x <= 1.0
    ensures 0.0 <= ModerateWeight(z, e) * m && 0.0 <= ExcessWeight(z, e) * x
    ensures z + ModerateWeight(z, e) * m + ExcessWeight(z, e) * x <= 1.0
  {
    var nz, ne := 1.0 - z, 1.0 - e;
    MulNonNegative(nz, ne);
    MulNonNegative(nz, e);
    var mw, ew := ModerateWeight(z, e), ExcessWeight(z, e);
    assert mw + ew == nz * (ne + e);
    var a := ScaledBelow(mw, m);
    var b := ScaledBelow(ew, x);
    SumBelow(z, a, b, mw, ew);
  }

  /** w m lies in [0, w] for w >= 0 and m in [0, 1]. */
  lemma {:induction false} ScaledBelow(w: real, m: real) returns (r: real)
    requires w >= 0.0 && 0.0 <= m <= 1.0
    ensures r == w * m && 0.0 <= r <= w
  {
    r := w * m;
    MulNonNegative(w, m);
    MulMonotone(w, m, 1.0);
  }

  /** z + a + b <= 1 once a <= p, b <= q and z + p + q == 1. */
  lemma SumBelow(z: real, a: real, b: real, p: real, q: real)
    requires a <= p && b <= q && z + p + q == 1.0
    ensures z + a + b <= 1.0
  {
  }

  /** The three additions of all_cdf give a probability whenever every term that is added is
      one: z, e and the component CDFs in [0, 1]. */
  lemma {:induction false} MixtureCdfTermsRange(s: Num, eff: Num, z: real, e: real, m: Num, x: Num)
    returns (r: real)
    requires 0.0 <= z <= 1.0 && 0.0 <= e <= 1.0
    requires Gt(s, Fin(0.0)) ==> m.Fin? && 0.0 <= m.r <= 1.0
    requires Gt(s, eff) ==> x.Fin? && 0.0 <= x.r <= 1.0
    ensures MixtureCdfTerms(s, eff, z, e, m, x) == Fin(r) && 0.0 <= r <= 1.0
  {
    var zr := if Ge(s, Fin(0.0)) then z else 0.0;
    var mr := if Gt(s, Fin(0.0)) then m.r else 0.0;
    var xr := if Gt(s, eff) then x.r else 0.0;
    MixtureWeightsRange(z, e, mr, xr);
    assert Gt(s, Fin(0.0)) ==> Mul(Fin(ModerateWeight(z, e)), m) == Fin(ModerateWeight(z, e) * mr);
    assert Gt(s, eff) ==> Mul(Fin(ExcessWeight(z, e)), x) == Fin(ExcessWeight(z, e) * xr);
    r := zr + ModerateWeight(z, e) * mr + ExcessWeight(z, e) * xr;
    assert MixtureCdfTerms(s, eff, z, e, m, x) == Fin(r);
  }

  /** Where no term is added the mixture CDF keeps its initial 0: at a NaN sample and at a
      negative one below the effective threshold. A zero sample gets exactly the zero-inflation
      probability z when the effective threshold is not negative. */
  lemma {:induction false} AllCdfCellOffSupport(t: Elementary, s: Num, z: real, e: real, xi: real, sigma: real,
                                                mu: real, variance: real, eff: Num, act: Num)
    ensures s.NaN? ==> AllCdfCell(t, s, z, e, xi, sigma, mu, variance, eff, act) == Fin(0.0)
    ensures Lt(s, Fin(0.0)) && !Gt(s, eff) ==> AllCdfCell(t, s, z, e, xi, sigma, mu, variance, eff, act) == Fin(0.0)
    ensures s == Fin(0.0) && !Gt(s, eff) ==> AllCdfCell(t, s, z, e, xi, sigma, mu, variance, eff, act) == Fin(z)
  {
    assert Add(Fin(0.0), Fin(z)) == Fin(z);
  }

  /** At a positive sample the moderate term of all_cdf, below a positive threshold a, is the
      truncated lognormal CDF, a value m in [0, 1]. */
  lemma {:induction false} ModerateCellForm(t: Elementary, s: real, z: real, e: real, xi: real, sigma: real,
                                            mu: real, variance: real, a: real) returns (m: real)
    requires CdfFacts(t) && variance > 0.0 && a > 0.0 && s > 0.0
    ensures AllCdfCell(t, Fin(s), z, e, xi, sigma, mu, variance, Fin(a), Fin(a))
            == MixtureCdfTerms(Fin(s), Fin(a), z, e, Fin(m), GpdCdfAsWritten(t, Fin(s), Fin(xi), Fin(sigma), Fin(a)))
    ensures 0.0 <= m <= 1.0
  {
    m := UpperTruncatedRange(t, s, mu, variance, Fin(a));
  }

  /** Above a positive threshold a, inside the GPD's support, both component CDFs of all_cdf
      are values: m in [0, 1] and x in [0, 1). */
  lemma {:induction false} ExcessCellForm(t: Elementary, s: real, z: real, e: real, xi: real, sigma: real,
                                          mu: real, variance: real, a: real) returns (m: real, x: real)
    requires CdfFacts(t) && TailFacts(t) && variance > 0.0 && sigma > 0.0 && a > 0.0
    requires s > a && sigma + xi * (s - a) > 0.0
    ensures AllCdfCell(t, Fin(s), z, e, xi, sigma, mu, variance, Fin(a), Fin(a))
            == MixtureCdfTerms(Fin(s), Fin(a), z, e, Fin(m), Fin(x))
    ensures 0.0 <= m <= 1.0 && 0.0 <= x < 1.0
  {
    m := ModerateCellForm(t, s, z, e, xi, sigma, mu, variance, a);
    x := GpdCdfAsWrittenRange(t, s, xi, sigma, a);
  }

  /** all_cdf is a probability at every finite sample up to a positive threshold a (where the
      GPD term is not added) when the parameters are valid; AllCdfCellRangeAbove covers the
      samples above it. */
  lemma {:induction false} AllCdfCellRangeBelow(t: Elementary, s: real, z: real, e: real, xi: real, sigma: real,
                                              mu: real, variance: real, a: real) returns (r: real)
    requires CdfFacts(t) && 0.0 <= z <= 1.0 && 0.0 <= e <= 1.0 && variance > 0.0 && a > 0.0 && s <= a
    ensures AllCdfCell(t, Fin(s), z, e, xi, sigma, mu, variance, Fin(a), Fin(a)) == Fin(r) && 0.0 <= r <= 1.0
  {
    if s <= 0.0 {
      r := NonPositiveCellRange(t, s, z, e, xi, sigma, mu, variance, a);
    } else {
      r := ModerateCellRange(t, s, z, e, xi, sigma, mu, variance, a);
    }
  }

  /** AllCdfCellRangeBelow at a sample <= 0, where at most the zero term is added. */
  lemma {:induction false} NonPositiveCellRange(t: Elementary, s: real, z: real, e: real, xi: real, sigma: real,
                                                mu: real, variance: real, a: real) returns (r: real)
    requires 0.0 <= z <= 1.0 && 0.0 <= e <= 1.0 && a > 0.0 && s <= 0.0
    ensures AllCdfCell(t, Fin(s), z, e, xi, sigma, mu, variance, Fin(a), Fin(a)) == Fin(r) && 0.0 <= r <= 1.0
  {
    var m := ThreshedLognormCdfCell(t, Fin(s), mu, variance, None, Some(Fin(a)));
    var x := GpdCdfAsWritten(t, Fin(s), Fin(xi), Fin(sigma), Fin(a));
    r := MixtureCdfTermsRange(Fin(s), Fin(a), z, e, m, x);
  }

  /** AllCdfCellRangeBelow at a positive sample. */
  lemma {:induction false} ModerateCellRange(t: Elementary, s: real, z: real, e: real, xi: real, sigma: real,
                                             mu: real, variance: real, a: real) returns (r: real)
    requires CdfFacts(t) && 0.0 <= z <= 1.0 && 0.0 <= e <= 1.0 && variance > 0.0 && 0.0 < s <= a
    ensures AllCdfCell(t, Fin(s), z, e, xi, sigma, mu, variance, Fin(a), Fin(a)) == Fin(r) && 0.0 <= r <= 1.0
  {
    var m := ModerateCellForm(t, s, z, e, xi, sigma, mu, variance, a);
    r := MixtureCdfTermsRange(Fin(s), Fin(a), z, e, Fin(m), GpdCdfAsWritten(t, Fin(s), Fin(xi), Fin(sigma), Fin(a)));
  }

  /** all_cdf is a probability at every sample above a positive threshold a that lies inside
      the GPD's support, when the parameters are valid. */
  lemma {:induction false} AllCdfCellRangeAbove(t: Elementary, s: real, z: real, e: real, xi: real, sigma: real,
                                           mu: real, variance: real, a: real) returns (r: real)
    requires CdfFacts(t) && TailFacts(t) && 0.0 <= z <= 1.0 && 0.0 <= e <= 1.0 && variance > 0.0 && sigma > 0.0
    requires 0.0 < a < s && sigma + xi * (s - a) > 0.0
    ensures AllCdfCell(t, Fin(s), z, e, xi, sigma, mu, variance, Fin(a), Fin(a)) == Fin(r) && 0.0 <= r <= 1.0
  {
    var m, x := ExcessCellForm(t, s, z, e, xi, sigma, mu, variance, a);
    r := MixtureCdfTermsRange(Fin(s), Fin(a), z, e, Fin(m), Fin(x));
  }

  /** For the hurdle baseline, whose effective threshold is +inf, all_cdf never adds the GPD
      term: every finite sample gets z (when >= 0) plus (1 - z)(1 - e) times the untruncated
      lognormal CDF (when > 0), a probability whatever the actual threshold. */
  lemma {:induction false} AllCdfCellHurdleRange(t: Elementary, s: real, z: real, e: real, xi: real, sigma: real,
                                                 mu: real, variance: real, act: Num) returns (r: real)
    requires CdfFacts(t) && 0.0 <= z <= 1.0 && 0.0 <= e <= 1.0 && variance > 0.0
    ensures AllCdfCell(t, Fin(s), z, e, xi, sigma, mu, variance, PosInf, act) == Fin(r) && 0.0 <= r <= 1.0
  {
    if s <= 0.0 {
      r := HurdleNonPositiveRange(t, s, z, e, xi, sigma, mu, variance, act);
    } else {
      r := HurdlePositiveRange(t, s, z, e, xi, sigma, mu, variance, act);
    }
  }

  /** AllCdfCellHurdleRange at a sample <= 0, where at most the zero term is added. */
  lemma {:induction false} HurdleNonPositiveRange(t: Elementary, s: real, z: real, e: real, xi: real, sigma: real,
                                                  mu: real, variance: real, act: Num) returns (r: real)
    requires 0.0 <= z <= 1.0 && 0.0 <= e <= 1.0 && s <= 0.0
    ensures AllCdfCell(t, Fin(s), z, e, xi, sigma, mu, variance, PosInf, act) == Fin(r) && 0.0 <= r <= 1.0
  {
    var m := ThreshedLognormCdfCell(t, Fin(s), mu, variance, None, Some(PosInf));
    r := MixtureCdfTermsRange(Fin(s), PosInf, z, e, m, Fin(0.0));
  }

  /** AllCdfCellHurdleRange at a positive sample, where the moderate term is the plain lognormal
      CDF, a value in [0, 1]. */
  lemma {:induction false} HurdlePositiveRange(t: Elementary, s: real, z: real, e: real, xi: real, sigma: real,
                                               mu: real, variance: real, act: Num) returns (r: real)
    requires CdfFacts(t) && 0.0 <= z <= 1.0 && 0.0 <= e <= 1.0 && variance > 0.0 && s > 0.0
    ensures AllCdfCell(t, Fin(s), z, e, xi, sigma, mu, variance, PosInf, act) == Fin(r) && 0.0 <= r <= 1.0
  {
    var m := UpperTruncatedRange(t, s, mu, variance, PosInf);
    r := MixtureCdfTermsRange(Fin(s), PosInf, z, e, Fin(m), Fin(0.0));
  }

  /** Above a positive threshold a, inside the GPD's support and with lognormal mass below a,
      the moderate component is saturated at 1, so the CDF is z + (1 - z)(1 - e) + (1 - z) e x
      with x gpd_cdf as written in [0, 1): below 1, strictly above the mass up to the
      threshold when xi != 0, and equal to it when xi == 0, where x is 0. */
  lemma {:induction false} AllCdfCellExcess(t: Elementary, s: real, z: real, e: real, xi: real, sigma: real,
                                            mu: real, variance: real, a: real) returns (x: real)
    requires CdfFacts(t) && TailFacts(t) && 0.0 < z < 1.0 && 0.0 < e < 1.0 && variance > 0.0 && sigma > 0.0
    requires 0.0 < a < s && sigma + xi * (s - a) > 0.0
    requires LognormCdf(t, Fin(a), mu, variance) != Fin(0.0)
    ensures GpdCdfAsWritten(t, Fin(s), Fin(xi), Fin(sigma), Fin(a)) == Fin(x) && 0.0 <= x < 1.0
    ensures x == 0.0 <==> xi == 0.0
    ensures AllCdfCell(t, Fin(s), z, e, xi, sigma, mu, variance, Fin(a), Fin(a))
            == Fin(z + ModerateWeight(z, e) + ExcessWeight(z, e) * x)
    ensures z + ModerateWeight(z, e) <= z + ModerateWeight(z, e) + ExcessWeight(z, e) * x < 1.0
    ensures xi != 0.0 ==> z + ModerateWeight(z, e) < z + ModerateWeight(z, e) + ExcessWeight(z, e) * x
  {
    var m := UpperTruncatedRange(t, s, mu, variance, Fin(a));
    x := GpdCdfAsWrittenRange(t, s, xi, sigma, a);
    assert AllCdfCell(t, Fin(s), z, e, xi, sigma, mu, variance, Fin(a), Fin(a))
        == MixtureCdfTerms(Fin(s), Fin(a), z, e, Fin(1.0), Fin(x));
    ExcessMixtureValue(s, a, z, e, x);
  }

  /** At xi == 0 all_cdf as written is flat above the threshold: any two samples above it get
      the same probability, the mass z + (1 - z)(1 - e) up to the threshold, so the excess
      component never contributes. */
  lemma {:induction false} AllCdfCellFlatAtZeroShape(t: Elementary, s1: real, s2: real, z: real, e: real, xi: real,
                                                     sigma: real, mu: real, variance: real, a: real)
    requires CdfFacts(t) && 0.0 < z < 1.0 && 0.0 < e < 1.0 && variance > 0.0 && sigma > 0.0
    requires xi == 0.0 && 0.0 < a < s1 && a < s2
    requires LognormCdf(t, Fin(a), mu, variance) != Fin(0.0)
    ensures AllCdfCell(t, Fin(s1), z, e, xi, sigma, mu, variance, Fin(a), Fin(a)) == Fin(z + ModerateWeight(z, e))
    ensures AllCdfCell(t, Fin(s1), z, e, xi, sigma, mu, variance, Fin(a), Fin(a))
            == AllCdfCell(t, Fin(s2), z, e, xi, sigma, mu, variance, Fin(a), Fin(a))
  {
    ZeroShapeCell(t, s1, z, e, xi, sigma, mu, variance, a);
    ZeroShapeCell(t, s2, z, e, xi, sigma, mu, variance, a);
  }

  /** AllCdfCellFlatAtZeroShape at one sample. */
  lemma {:induction false} ZeroShapeCell(t: Elementary, s: real, z: real, e: real, xi: real, sigma: real, mu: real,
                                         variance: real, a: real)
    requires CdfFacts(t) && 0.0 < z < 1.0 && 0.0 < e < 1.0 && variance > 0.0 && sigma > 0.0
    requires xi == 0.0 && 0.0 < a < s
    requires LognormCdf(t, Fin(a), mu, variance) != Fin(0.0)
    ensures AllCdfCell(t, Fin(s), z, e, xi, sigma, mu, variance, Fin(a), Fin(a)) == Fin(z + ModerateWeight(z, e))
  {
    var m := UpperTruncatedRange(t, s, mu, variance, Fin(a));
    GpdCdfAsWrittenZeroShape(t, s, sigma, a);
    assert AllCdfCell(t, Fin(s), z, e, xi, sigma, mu, variance, Fin(a), Fin(a))
        == MixtureCdfTerms(Fin(s), Fin(a), z, e, Fin(1.0), Fin(0.0));
    ExcessMixtureValue(s, a, z, e, 0.0);
  }

  /** With the exponential limit at xi == 0 the excess component does contribute: above the
      threshold, inside the support, the corrected cell lies strictly between the mass up to
      the threshold and 1 for every shape, xi == 0 included. */
  lemma {:induction false} AllCdfCellCorrectedExcess(t: Elementary, s: real, z: real, e: real, xi: real, sigma: real,
                                                     mu: real, variance: real, a: real) returns (x: real)
    requires CdfFacts(t) && TailFacts(t) && 0.0 < z < 1.0 && 0.0 < e < 1.0 && variance > 0.0 && sigma > 0.0
    requires 0.0 < a < s && sigma + xi * (s - a) > 0.0
    requires LognormCdf(t, Fin(a), mu, variance) != Fin(0.0)
    ensures GpdCdf(t, Fin(s), Fin(xi), Fin(sigma), Fin(a)) == Fin(x) && 0.0 < x < 1.0
    ensures AllCdfCellCorrected(t, Fin(s), z, e, xi, sigma, mu, variance, Fin(a), Fin(a))
            == Fin(z + ModerateWeight(z, e) + ExcessWeight(z, e) * x)
    ensures z + ModerateWeight(z, e) < z + ModerateWeight(z, e) + ExcessWeight(z, e) * x < 1.0
  {
    var m := UpperTruncatedRange(t, s, mu, variance, Fin(a));
    x := GpdCdfRange(t, s, xi, sigma, a);
    assert AllCdfCellCorrected(t, Fin(s), z, e, xi, sigma, mu, variance, Fin(a), Fin(a))
        == MixtureCdfTerms(Fin(s), Fin(a), z, e, Fin(1.0), Fin(x));
    ExcessMixtureValue(s, a, z, e, x);
  }

  /** The arithmetic of AllCdfCellExcess. */
  lemma {:induction false} ExcessMixtureValue(s: real, a: real, z: real, e: real, x: real)
    requires 0.0 < a < s && 0.0 < z < 1.0 && 0.0 < e < 1.0 && 0.0 <= x < 1.0
    ensures MixtureCdfTerms(Fin(s), Fin(a), z, e, Fin(1.0), Fin(x))
            == Fin(z + ModerateWeight(z, e) + ExcessWeight(z, e) * x)
    ensures z + ModerateWeight(z, e) <= z + ModerateWeight(z, e) + ExcessWeight(z, e) * x < 1.0
    ensures x > 0.0 ==> z + ModerateWeight(z, e) < z + ModerateWeight(z, e) + ExcessWeight(z, e) * x
  {
    var nz := 1.0 - z;
    MulPositive(nz, e);
    var mw, ew := ModerateWeight(z, e), ExcessWeight(z, e);
    assert mw + ew == nz by {
      assert mw + ew == nz * ((1.0 - e) + e);
    }
    ShareOfRest(z + mw, ew, x);
  }

  /** A share x in [0, 1) of the weight w left over by base, where base + w == 1, lies in
      [base, 1), strictly above base when x > 0. */
  lemma {:induction false} ShareOfRest(base: real, w: real, x: real)
    requires base + w == 1.0 && w > 0.0 && 0.0 <= x < 1.0
    ensures base <= base + w * x < 1.0
    ensures x > 0.0 ==> base < base + w * x
  {
    MulMonotone(w, 0.0, x);
    MulStrictMonotone(w, x, 1.0);
    if x > 0.0 {
      MulStrictMonotone(w, 0.0, x);
    }
  }

  /** threshed_lognorm_cdf with a positive upper bound a is 1 at every sample above a, +inf
      included, once the lognormal CDF at a is not 0: the value-above-the-bound write wins. */
  lemma {:induction false} ModerateAboveThreshold(t: Elementary, s: Num, mu: real, variance: real, a: real)
    requires CdfFacts(t) && variance > 0.0 && a > 0.0
    requires LognormCdf(t, Fin(a), mu, variance) != Fin(0.0)
    requires Gt(s, Fin(a))
    ensures ThreshedLognormCdfCell(t, s, mu, variance, None, Some(Fin(a))) == Fin(1.0)
  {
    var cu := CdfAtBound(t, mu, variance, Fin(a));
    AboveUpperBound(s, LognormCdf(t, s, mu, variance), Fin(a), cu);
  }

  /** With the default lower bound and a non-zero CDF cu at the upper bound u, TruncatedCdf is 1
      at every value above u. */
  lemma {:induction false} AboveUpperBound(v: Num, cdf: Num, u: Num, cu: real)
    requires cu != 0.0 && Gt(v, u)
    ensures TruncatedCdf(v, cdf, Bound(Fin(DefaultLower), Fin(0.0)), Bound(u, Fin(cu))) == Fin(1.0)
  {
    assert Sub(Fin(cu), Fin(0.0)) == Fin(cu);
  }

  /** The three weights of the mixture add up to 1, so the mixture of two CDFs at 1 is 1. */
  lemma {:induction false} MixtureAtOne(z: real, e: real)
    ensures MixtureValue(z, e, 1.0, 1.0) == 1.0
  {
    assert ModerateWeight(z, e) + ExcessWeight(z, e) == (1.0 - z) * ((1.0 - e) + e);
  }

  /** all_cdf at +inf, above a positive threshold a used as both the effective and the actual
      threshold: for a positive shape both component CDFs are 1 there and so is the mixture; at
      xi == 0 the cell is NaN, because gpd_cdf as written multiplies 0 by +inf. */
  lemma {:induction false} AllCdfCellAtInfinity(t: Elementary, z: real, e: real, xi: real, sigma: real,
                                                mu: real, variance: real, a: real)
    requires CdfFacts(t) && variance > 0.0 && sigma > 0.0 && a > 0.0
    requires LognormCdf(t, Fin(a), mu, variance) != Fin(0.0)
    ensures xi > 0.0 ==> AllCdfCell(t, PosInf, z, e, xi, sigma, mu, variance, Fin(a), Fin(a)) == Fin(1.0)
    ensures xi == 0.0 ==> AllCdfCell(t, PosInf, z, e, xi, sigma, mu, variance, Fin(a), Fin(a)) == NaN
  {
    ModerateAboveThreshold(t, PosInf, mu, variance, a);
    if xi > 0.0 {
      GpdCdfAsWrittenAtInfinity(t, xi, sigma, a);
      InfiniteTermsValue(a, z, e, Fin(1.0));
      MixtureAtOne(z, e);
    } else if xi == 0.0 {
      GpdCdfAsWrittenZeroShapeAtInfinity(t, sigma, a);
      InfiniteTermsValue(a, z, e, NaN);
    }
  }

  /** The mixture terms at +inf with the moderate CDF at 1: every term is added. */
  lemma {:induction false} InfiniteTermsValue(a: real, z: real, e: real, x: Num)
    ensures x.Fin? ==> MixtureCdfTerms(PosInf, Fin(a), z, e, Fin(1.0), x) == Fin(MixtureValue(z, e, 1.0, x.r))
    ensures x.NaN? ==> MixtureCdfTerms(PosInf, Fin(a), z, e, Fin(1.0), x) == NaN
  {
    assert Add(Fin(0.0), Fin(z)) == Fin(z);
  }

  /** With the corrected GPD CDF, all_cdf at +inf is 1 for every non-negative shape, xi == 0
      included, where the as-written cell is NaN (AllCdfCellAtInfinity). */
  lemma {:induction false} AllCdfCellCorrectedAtInfinity(t: Elementary, z: real, e: real, xi: real, sigma: real,
                                                         mu: real, variance: real, a: real)
    requires CdfFacts(t) && variance > 0.0 && sigma > 0.0 && a > 0.0 && xi >= 0.0
    requires LognormCdf(t, Fin(a), mu, variance) != Fin(0.0)
    ensures AllCdfCellCorrected(t, PosInf, z, e, xi, sigma, mu, variance, Fin(a), Fin(a)) == Fin(1.0)
  {
    ModerateAboveThreshold(t, PosInf, mu, variance, a);
    GpdCdfAtInfinity(t, xi, sigma, a);
    InfiniteTermsValue(a, z, e, Fin(1.0));
    MixtureAtOne(z, e);
  }

  /** all_cdf for a negative shape at the end of the GPD's support, the sample s above a where
      sigma + xi (s - a) is 0 (s == a - sigma / xi), is 1: the moderate CDF is 1 above the
      threshold and gpd_cdf as written is 1 - 0 ** (-1 / xi). */
  lemma {:induction false} AllCdfCellAtSupportEnd(t: Elementary, s: real, z: real, e: real, xi: real, sigma: real,
                                                  mu: real, variance: real, a: real)
    requires CdfFacts(t) && variance > 0.0 && sigma > 0.0 && a > 0.0 && xi < 0.0
    requires sigma + xi * (s - a) == 0.0
    requires LognormCdf(t, Fin(a), mu, variance) != Fin(0.0)
    ensures a < s
    ensures AllCdfCell(t, Fin(s), z, e, xi, sigma, mu, variance, Fin(a), Fin(a)) == Fin(1.0)
  {
    SupportEndAbove(s, xi, sigma, a);
    ModerateAboveThreshold(t, Fin(s), mu, variance, a);
    GpdCdfAsWrittenAtSupportEnd(t, s, xi, sigma, a);
    ExcessCellValue(t, s, z, e, xi, sigma, mu, variance, a, 1.0, 1.0);
    MixtureAtOne(z, e);
  }

  /** The setting in which all_cdf as written is monotone: sound primitives, mixture weights in
      [0, 1], a positive variance and scale, and a positive threshold a used as both the
      effective and the actual threshold. */
  ghost predicate MonotoneSetting(t: Elementary, z: real, e: real, sigma: real, variance: real, a: real) {
    && CdfFacts(t) && TailFacts(t) && PowMonotone(t)
    && 0.0 <= z <= 1.0 && 0.0 <= e <= 1.0 && variance > 0.0 && sigma > 0.0 && a > 0.0
  }

  /** A sample above the threshold a lies inside the GPD's support. */
  predicate WithinSupport(s: real, xi: real, sigma: real, a: real) {
    s > a ==> sigma + xi * (s - a) > 0.0
  }

  /** all_cdf as written does not decrease in the sample: s1 <= s2 gives cdf(s1) <= cdf(s2), as
      long as s2 lies inside the GPD's support. */
  lemma {:induction false} AllCdfCellMonotone(t: Elementary, s1: real, s2: real, z: real, e: real, xi: real,
                                              sigma: real, mu: real, variance: real, a: real) returns (r1: real, r2: real)
    requires MonotoneSetting(t, z, e, sigma, variance, a)
    requires s1 <= s2 && WithinSupport(s2, xi, sigma, a)
    ensures AllCdfCell(t, Fin(s1), z, e, xi, sigma, mu, variance, Fin(a), Fin(a)) == Fin(r1)
    ensures AllCdfCell(t, Fin(s2), z, e, xi, sigma, mu, variance, Fin(a), Fin(a)) == Fin(r2)
    ensures r1 <= r2
  {
    if s1 <= 0.0 {
      r1, r2 := NonPositiveMonotone(t, s1, s2, z, e, xi, sigma, mu, variance, a);
    } else {
      r1, r2 := PositiveMonotone(t, s1, s2, z, e, xi, sigma, mu, variance, a);
    }
  }

  /** AllCdfCellMonotone from a positive sample s1: both the moderate and the excess term grow. */
  lemma {:induction false} PositiveMonotone(t: Elementary, s1: real, s2: real, z: real, e: real, xi: real,
                                            sigma: real, mu: real, variance: real, a: real) returns (r1: real, r2: real)
    requires MonotoneSetting(t, z, e, sigma, variance, a)
    requires 0.0 < s1 <= s2 && WithinSupport(s2, xi, sigma, a)
    ensures AllCdfCell(t, Fin(s1), z, e, xi, sigma, mu, variance, Fin(a), Fin(a)) == Fin(r1)
    ensures AllCdfCell(t, Fin(s2), z, e, xi, sigma, mu, variance, Fin(a), Fin(a)) == Fin(r2)
    ensures r1 <= r2
  {
    var m1, m2 := ModerateMonotone(t, s1, s2, mu, variance, a);
    var x1, x2 := ExcessMonotone(t, s1, s2, xi, sigma, a);
    PositiveCellValue(t, s1, z, e, xi, sigma, mu, variance, a, m1, x1);
    PositiveCellValue(t, s2, z, e, xi, sigma, mu, variance, a, m2, x2);
    MixtureTermsMonotone(z, e, m1, m2, x1, x2);
    r1, r2 := MixtureValue(z, e, m1, x1), MixtureValue(z, e, m2, x2);
  }

  /** AllCdfCellMonotone from a sample s1 <= 0: the cell there is 0 or z, and any larger sample
      gets at least that. */
  lemma {:induction false} NonPositiveMonotone(t: Elementary, s1: real, s2: real, z: real, e: real, xi: real,
                                               sigma: real, mu: real, variance: real, a: real) returns (r1: real, r2: real)
    requires MonotoneSetting(t, z, e, sigma, variance, a)
    requires s1 <= 0.0 && s1 <= s2 && WithinSupport(s2, xi, sigma, a)
    ensures AllCdfCell(t, Fin(s1), z, e, xi, sigma, mu, variance, Fin(a), Fin(a)) == Fin(r1)
    ensures AllCdfCell(t, Fin(s2), z, e, xi, sigma, mu, variance, Fin(a), Fin(a)) == Fin(r2)
    ensures r1 <= r2
  {
    if s2 <= 0.0 {
      r1, r2 := NonPositivePair(t, s1, s2, z, e, xi, sigma, mu, variance, a);
    } else {
      r1, r2 := AcrossZero(t, s1, s2, z, e, xi, sigma, mu, variance, a);
    }
  }

  /** NonPositiveMonotone with both samples <= 0. */
  lemma {:induction false} NonPositivePair(t: Elementary, s1: real, s2: real, z: real, e: real, xi: real,
                                           sigma: real, mu: real, variance: real, a: real) returns (r1: real, r2: real)
    requires 0.0 <= z && a > 0.0 && s1 <= s2 <= 0.0
    ensures AllCdfCell(t, Fin(s1), z, e, xi, sigma, mu, variance, Fin(a), Fin(a)) == Fin(r1)
    ensures AllCdfCell(t, Fin(s2), z, e, xi, sigma, mu, variance, Fin(a), Fin(a)) == Fin(r2)
    ensures r1 <= r2
  {
    r1 := NonPositiveCell(t, s1, z, e, xi, sigma, mu, variance, a);
    r2 := NonPositiveCell(t, s2, z, e, xi, sigma, mu, variance, a);
  }

  /** NonPositiveMonotone with s1 <= 0 < s2: at most z, then at least z. */
  lemma {:induction false} AcrossZero(t: Elementary, s1: real, s2: real, z: real, e: real, xi: real,
                                      sigma: real, mu: real, variance: real, a: real) returns (r1: real, r2: real)
    requires MonotoneSetting(t, z, e, sigma, variance, a)
    requires s1 <= 0.0 < s2 && WithinSupport(s2, xi, sigma, a)
    ensures AllCdfCell(t, Fin(s1), z, e, xi, sigma, mu, variance, Fin(a), Fin(a)) == Fin(r1)
    ensures AllCdfCell(t, Fin(s2), z, e, xi, sigma, mu, variance, Fin(a), Fin(a)) == Fin(r2)
    ensures r1 <= r2
  {
    r1 := NonPositiveCell(t, s1, z, e, xi, sigma, mu, variance, a);
    r2 := PositiveCellAtLeastZero(t, s2, z, e, xi, sigma, mu, variance, a);
  }

  /** all_cdf at a sample <= 0 below a positive threshold: 0 for a negative sample, z at 0. */
  lemma {:induction false} NonPositiveCell(t: Elementary, s: real, z: real, e: real, xi: real, sigma: real,
                                           mu: real, variance: real, a: real) returns (r: real)
    requires 0.0 <= z && a > 0.0 && s <= 0.0
    ensures AllCdfCell(t, Fin(s), z, e, xi, sigma, mu, variance, Fin(a), Fin(a)) == Fin(r)
    ensures r == if s < 0.0 then 0.0 else z
    ensures 0.0 <= r <= z
  {
    AllCdfCellOffSupport(t, Fin(s), z, e, xi, sigma, mu, variance, Fin(a), Fin(a));
    r := if s < 0.0 then 0.0 else z;
  }

  /** all_cdf at a positive sample is at least the zero component's z. */
  lemma {:induction false} PositiveCellAtLeastZero(t: Elementary, s: real, z: real, e: real, xi: real,
                                                   sigma: real, mu: real, variance: real, a: real) returns (r: real)
    requires MonotoneSetting(t, z, e, sigma, variance, a)
    requires s > 0.0 && WithinSupport(s, xi, sigma, a)
    ensures AllCdfCell(t, Fin(s), z, e, xi, sigma, mu, variance, Fin(a), Fin(a)) == Fin(r)
    ensures z <= r
  {
    var m := UpperTruncatedRange(t, s, mu, variance, Fin(a));
    var x := ExcessAt(t, s, xi, sigma, a);
    PositiveCellValue(t, s, z, e, xi, sigma, mu, variance, a, m, x);
    MixtureAtLeastZero(z, e, m, x);
    r := MixtureValue(z, e, m, x);
  }

  /** With non-negative weights and component CDFs the mixture is at least z. */
  lemma {:induction false} MixtureAtLeastZero(z: real, e: real, m: real, x: real)
    requires 0.0 <= z <= 1.0 && 0.0 <= e <= 1.0 && 0.0 <= m && 0.0 <= x
    ensures z <= MixtureValue(z, e, m, x)
  {
    MulNonNegative(1.0 - z, 1.0 - e);
    MulNonNegative(1.0 - z, e);
    MulNonNegative(ModerateWeight(z, e), m);
    MulNonNegative(ExcessWeight(z, e), x);
  }

  /** The moderate term of all_cdf does not decrease over positive samples: cdf(s) / cdf(a) up
      to a, then 1 (or 0 throughout when cdf(a) is 0). */
  lemma {:induction false} ModerateMonotone(t: Elementary, s1: real, s2: real, mu: real, variance: real, a: real)
    returns (m1: real, m2: real)
    requires CdfFacts(t) && variance > 0.0 && a > 0.0 && 0.0 < s1 <= s2
    ensures ThreshedLognormCdfCell(t, Fin(s1), mu, variance, None, Some(Fin(a))) == Fin(m1)
    ensures ThreshedLognormCdfCell(t, Fin(s2), mu, variance, None, Some(Fin(a))) == Fin(m2)
    ensures 0.0 <= m1 <= m2 <= 1.0
  {
    var ca1, cu := ModerateAt(t, s1, mu, variance, a);
    var ca2, _ := ModerateAt(t, s2, mu, variance, a);
    LognormCdfMonotone(t, s1, s2, mu, variance);
    m1, m2 := TruncatedPairOrder(s1, s2, ca1, ca2, cu, a);
  }

  /** The moderate term at one positive sample s with threshold a, as TruncatedCdf over the
      lognormal CDF values ca at s and cu at a. */
  lemma {:induction false} ModerateAt(t: Elementary, s: real, mu: real, variance: real, a: real)
    returns (ca: real, cu: real)
    requires CdfFacts(t) && variance > 0.0 && a > 0.0 && s > 0.0
    ensures LognormCdf(t, Fin(s), mu, variance) == Fin(ca) && LognormCdf(t, Fin(a), mu, variance) == Fin(cu)
    ensures ThreshedLognormCdfCell(t, Fin(s), mu, variance, None, Some(Fin(a)))
            == TruncatedCdf(Fin(s), Fin(ca), Bound(Fin(DefaultLower), Fin(0.0)), Bound(Fin(a), Fin(cu)))
    ensures 0.0 <= ca <= 1.0 && 0.0 <= cu <= 1.0
    ensures s <= a ==> ca <= cu
  {
    ca := CdfAtBound(t, mu, variance, Fin(s));
    cu := CdfAtBound(t, mu, variance, Fin(a));
    if s <= a {
      LognormCdfMonotone(t, s, a, mu, variance);
    }
    UpperTruncatedForm(t, s, mu, variance, Fin(a), ca, cu);
  }

  /** The truncated CDF with only an upper bound u > 0 keeps the order of two positive values
      whose CDF values are ordered and, up to u, below the CDF at u. */
  lemma {:induction false} TruncatedPairOrder(v1: real, v2: real, ca1: real, ca2: real, cu: real, u: real)
    returns (r1: real, r2: real)
    requires 0.0 < v1 <= v2 && u > 0.0 && 0.0 <= ca1 <= ca2 && 0.0 <= cu <= 1.0
    requires cu != 0.0 && v1 <= u ==> ca1 <= cu
    requires cu != 0.0 && v2 <= u ==> ca2 <= cu
    ensures TruncatedCdf(Fin(v1), Fin(ca1), Bound(Fin(DefaultLower), Fin(0.0)), Bound(Fin(u), Fin(cu))) == Fin(r1)
    ensures TruncatedCdf(Fin(v2), Fin(ca2), Bound(Fin(DefaultLower), Fin(0.0)), Bound(Fin(u), Fin(cu))) == Fin(r2)
    ensures 0.0 <= r1 <= r2 <= 1.0
  {
    UpperTruncatedAt(v1, ca1, cu, u);
    UpperTruncatedAt(v2, ca2, cu, u);
    UpperTruncatedOrder(v1, v2, ca1, ca2, cu, u);
    r1, r2 := UpperTruncated(v1, ca1, cu, u), UpperTruncated(v2, ca2, cu, u);
  }

  /** The truncated CDF at a positive value v with only an upper bound u, over the CDF values
      ca at v and cu at u: 0 when cu is 0, 1 above u, ca / cu otherwise. */
  function UpperTruncated(v: real, ca: real, cu: real, u: real): real {
    if cu == 0.0 then 0.0 else if v > u then 1.0 else ca / cu
  }

  /** TruncatedCdf with the default lower bound agrees with UpperTruncated at positive values. */
  lemma {:induction false} UpperTruncatedAt(v: real, ca: real, cu: real, u: real)
    requires v > 0.0
    ensures TruncatedCdf(Fin(v), Fin(ca), Bound(Fin(DefaultLower), Fin(0.0)), Bound(Fin(u), Fin(cu)))
            == Fin(UpperTruncated(v, ca, cu, u))
  {
    TruncatedCdfFiniteMass(Fin(v), Fin(ca), Fin(DefaultLower), 0.0, Fin(u), cu);
  }

  /** UpperTruncated is in [0, 1] and keeps the order of two values with ordered CDF values. */
  lemma {:induction false} UpperTruncatedOrder(v1: real, v2: real, ca1: real, ca2: real, cu: real, u: real)
    requires 0.0 < v1 <= v2 && 0.0 <= ca1 <= ca2 && 0.0 <= cu <= 1.0
    requires cu != 0.0 && v1 <= u ==> ca1 <= cu
    requires cu != 0.0 && v2 <= u ==> ca2 <= cu
    ensures 0.0 <= UpperTruncated(v1, ca1, cu, u) <= UpperTruncated(v2, ca2, cu, u) <= 1.0
  {
    if cu != 0.0 {
      if v2 <= u {
        DivMonotone(ca1, ca2, cu);
        QuotientBounds01(ca1, cu);
        QuotientBounds01(ca2, cu);
      } else if v1 <= u {
        QuotientBounds01(ca1, cu);
      }
    }
  }

  /** The excess term of all_cdf as written at two positive samples s1 <= s2: 0 up to the
      threshold a and gpd_cdf as written above it, in [0, 1) and not decreasing. */
  lemma {:induction false} ExcessMonotone(t: Elementary, s1: real, s2: real, xi: real, sigma: real, a: real)
    returns (x1: real, x2: real)
    requires TailFacts(t) && PowMonotone(t) && sigma > 0.0 && a > 0.0 && 0.0 < s1 <= s2
    requires WithinSupport(s2, xi, sigma, a)
    ensures ExcessCdfCell(t, Fin(s1), xi, sigma, Fin(a), Fin(a)) == Fin(x1)
    ensures ExcessCdfCell(t, Fin(s2), xi, sigma, Fin(a), Fin(a)) == Fin(x2)
    ensures 0.0 <= x1 <= x2
  {
    if s1 > a {
      x1, x2 := GpdCdfAsWrittenMonotone(t, s1, s2, xi, sigma, a);
    } else {
      x1 := 0.0;
      x2 := ExcessAt(t, s2, xi, sigma, a);
    }
  }

  /** The excess term of all_cdf as written at a sample: 0 up to the threshold a, gpd_cdf as
      written in [0, 1) above it inside the support. */
  lemma {:induction false} ExcessAt(t: Elementary, s: real, xi: real, sigma: real, a: real) returns (x: real)
    requires TailFacts(t) && sigma > 0.0 && WithinSupport(s, xi, sigma, a)
    ensures ExcessCdfCell(t, Fin(s), xi, sigma, Fin(a), Fin(a)) == Fin(x)
    ensures 0.0 <= x < 1.0
  {
    if s > a {
      x := GpdCdfAsWrittenRange(t, s, xi, sigma, a);
    } else {
      x := 0.0;
    }
  }

  /** The three terms at a positive sample, with the excess term 0 up to the threshold a:
      z + (1 - z)(1 - e) m + (1 - z) e x. */
  lemma {:induction false} PositiveTermsValue(s: real, a: real, z: real, e: real, m: real, x: real) returns (r: real)
    requires s > 0.0 && (s <= a ==> x == 0.0)
    ensures MixtureCdfTerms(Fin(s), Fin(a), z, e, Fin(m), Fin(x)) == Fin(r)
    ensures r == z + ModerateWeight(z, e) * m + ExcessWeight(z, e) * x
  {
    var pm, px := ModerateWeight(z, e) * m, ExcessWeight(z, e) * x;
    ModerateTermsValue(s, z, e, m);
    if s <= a {
      assert px == 0.0;
    } else {
      assert Mul(Fin(ExcessWeight(z, e)), Fin(x)) == Fin(px);
    }
    r := z + pm + px;
  }

  /** The zero and moderate terms at a positive sample: z + (1 - z)(1 - e) m. */
  lemma {:induction false} ModerateTermsValue(s: real, z: real, e: real, m: real)
    requires s > 0.0
    ensures Add(if Ge(Fin(s), Fin(0.0)) then Add(Fin(0.0), Fin(z)) else Fin(0.0), Mul(Fin(ModerateWeight(z, e)), Fin(m)))
            == Fin(z + ModerateWeight(z, e) * m)
  {
    assert Add(Fin(0.0), Fin(z)) == Fin(z);
  }

  /** The mixture z + (1 - z)(1 - e) m + (1 - z) e x over a moderate CDF value m and an
      excess CDF value x. */
  function MixtureValue(z: real, e: real, m: real, x: real): real {
    z + ModerateWeight(z, e) * m + ExcessWeight(z, e) * x
  }

  /** all_cdf at a positive sample is MixtureValue over its moderate term m and its excess
      term x (0 up to the threshold a). */
  lemma {:induction false} PositiveCellValue(t: Elementary, s: real, z: real, e: real, xi: real, sigma: real,
                                             mu: real, variance: real, a: real, m: real, x: real)
    requires s > 0.0
    requires ThreshedLognormCdfCell(t, Fin(s), mu, variance, None, Some(Fin(a))) == Fin(m)
    requires ExcessCdfCell(t, Fin(s), xi, sigma, Fin(a), Fin(a)) == Fin(x)
    ensures AllCdfCell(t, Fin(s), z, e, xi, sigma, mu, variance, Fin(a), Fin(a)) == Fin(MixtureValue(z, e, m, x))
  {
    if s > a {
      ExcessCellValue(t, s, z, e, xi, sigma, mu, variance, a, m, x);
    } else {
      ModerateCellValue(t, s, z, e, xi, sigma, mu, variance, a, m);
    }
  }

  /** PositiveCellValue above the threshold. */
  lemma {:induction false} ExcessCellValue(t: Elementary, s: real, z: real, e: real, xi: real, sigma: real,
                                           mu: real, variance: real, a: real, m: real, x: real)
    requires 0.0 < s && a < s
    requires ThreshedLognormCdfCell(t, Fin(s), mu, variance, None, Some(Fin(a))) == Fin(m)
    requires GpdCdfAsWritten(t, Fin(s), Fin(xi), Fin(sigma), Fin(a)) == Fin(x)
    ensures AllCdfCell(t, Fin(s), z, e, xi, sigma, mu, variance, Fin(a), Fin(a)) == Fin(MixtureValue(z, e, m, x))
  {
    TermsValue(s, a, z, e, m, x);
  }

  /** PositiveCellValue at a positive sample up to the threshold. */
  lemma {:induction false} ModerateCellValue(t: Elementary, s: real, z: real, e: real, xi: real, sigma: real,
                                             mu: real, variance: real, a: real, m: real)
    requires 0.0 < s <= a
    requires ThreshedLognormCdfCell(t, Fin(s), mu, variance, None, Some(Fin(a))) == Fin(m)
    ensures AllCdfCell(t, Fin(s), z, e, xi, sigma, mu, variance, Fin(a), Fin(a)) == Fin(MixtureValue(z, e, m, 0.0))
  {
    TermsValue(s, a, z, e, m, 0.0);
  }

  /** The three terms at a positive sample over finite component CDFs m and x, with x 0 up to
      the threshold, are MixtureValue. */
  lemma {:induction false} TermsValue(s: real, a: real, z: real, e: real, m: real, x: real)
    requires s > 0.0 && (s <= a ==> x == 0.0)
    ensures MixtureCdfTerms(Fin(s), Fin(a), z, e, Fin(m), Fin(x)) == Fin(MixtureValue(z, e, m, x))
  {
    var _ := PositiveTermsValue(s, a, z, e, m, x);
  }

  /** With non-negative weights the mixture z + (1 - z)(1 - e) m + (1 - z) e x does not
      decrease in either component CDF. */
  lemma {:induction false} MixtureTermsMonotone(z: real, e: real, m1: real, m2: real, x1: real, x2: real)
    requires 0.0 <= z <= 1.0 && 0.0 <= e <= 1.0 && m1 <= m2 && x1 <= x2
    ensures MixtureValue(z, e, m1, x1) <= MixtureValue(z, e, m2, x2)
  {
    var nz, ne := 1.0 - z, 1.0 - e;
    MulNonNegative(nz, ne);
    MulNonNegative(nz, e);
    MulMonotone(ModerateWeight(z, e), m1, m2);
    MulMonotone(ExcessWeight(z, e), x1, x2);
  }
}
