/** The generalized Pareto pieces of the mixture (src/util.py: gpd, gpd_cdf, gp_mean): the
    masked two-branch log-density of the excesses, the CDF and the mean. */
module GeneralizedPareto {
  import opened NumValues
  import opened Primitives
  import opened RealArith
  import opened Masked

  /** The xi == 0 branch of gpd: -(log sigma + (1 / sigma) x). */
  function ExponentialLogDensity(t: Elementary, x: Num, sigma: Num): Num {
    Mul(Add(Log(t, sigma), Mul(Div(Fin(1.0), sigma), x)), Fin(-1.0))
  }

  /** The xi != 0 branch of gpd: -(log sigma + (1 + 1 / xi) mask log(1 + xi x / sigma)). */
  function ParetoLogDensity(t: Elementary, x: Num, xi: Num, sigma: Num, mask: bool): Num {
    var factor := Mul(Add(Fin(1.0), Div(Fin(1.0), xi)), OfBool(mask));
    Mul(Add(Log(t, sigma), Mul(factor, Log(t, Add(Fin(1.0), Div(Mul(xi, x), sigma))))), Fin(-1.0))
  }

  /** The cells gpd evaluates: neither the excess nor the shape is NaN. */
  predicate Evaluated(raw: Num, xi: Num) {
    !raw.NaN? && !xi.NaN?
  }

  /** The branch gpd writes at a cell: the exponential one exactly where xi == 0. */
  function BranchLogDensity(t: Elementary, x: Num, xi: Num, sigma: Num, mask: bool): Num {
    if Eq(xi, Fin(0.0)) then ExponentialLogDensity(t, x, sigma) else ParetoLogDensity(t, x, xi, sigma, mask)
  }

  /** gpd at one cell: NaN where the excess or the shape is NaN, the branch for the shape
      everywhere else. (The source adds each branch into a zero tensor; AddZero shows that
      leaves the value unchanged.) */
  function GpdCell(t: Elementary, raw: Num, xi: Num, sigma: Num): Num {
    if !Evaluated(raw, xi) then NaN else BranchLogDensity(t, raw, xi, sigma, true)
  }

  /** gpd: copies the excesses, zeroes the masked-off copies, writes the xi == 0 branch and then
      the xi != 0 branch at their own positions, and writes NaN over the masked-off cells. */
  method Gpd(t: Elementary, raw: seq<Num>, xi: seq<Num>, sigma: seq<Num>) returns (out: seq<Num>)
    requires |xi| == |raw| && |sigma| == |raw|
    ensures |out| == |raw|
    ensures forall i :: 0 <= i < |raw| ==> out[i] == GpdCell(t, raw[i], xi[i], sigma[i])
  {
    var n := |raw|;
    var samples := new Num[n](i requires 0 <= i < n => raw[i]);
    var mask := seq(n, i requires 0 <= i < n => Evaluated(raw[i], xi[i]));
    var unmasked := seq(n, i requires 0 <= i < n => !mask[i]);
    Fill(samples, unmasked, Fin(0.0));
    var dens := new Num[n](_ => Fin(0.0));
    WriteExponential(t, dens, samples[..], xi, sigma);
    WritePareto(t, dens, samples[..], xi, sigma, mask);
    Fill(dens, unmasked, NaN);
    forall i | 0 <= i < n
      ensures dens[i] == GpdCell(t, raw[i], xi[i], sigma[i])
    {
      if mask[i] {
        assert samples[i] == raw[i];
      }
    }
    out := dens[..];
  }

  /** Writes the exponential branch into the cells with xi == 0 and keeps the others. The source
      adds the branch into a zero-filled tensor, and adding to 0 leaves a value unchanged
      (AddZero), so writing it is the same. */
  method WriteExponential(t: Elementary, dens: array<Num>, x: seq<Num>, xi: seq<Num>, sigma: seq<Num>)
    requires |x| == dens.Length && |xi| == dens.Length && |sigma| == dens.Length
    modifies dens
    ensures forall i :: 0 <= i < dens.Length ==>
              dens[i] == if Eq(xi[i], Fin(0.0)) then ExponentialLogDensity(t, x[i], sigma[i]) else old(dens[i])
  {
    for k := 0 to dens.Length
      invariant forall i :: 0 <= i < dens.Length ==>
                  dens[i] == if i < k && Eq(xi[i], Fin(0.0)) then ExponentialLogDensity(t, x[i], sigma[i]) else old(dens[i])
    {
      if Eq(xi[k], Fin(0.0)) {
        dens[k] := ExponentialLogDensity(t, x[k], sigma[k]);
      }
    }
  }

  /** Writes the Pareto branch into the cells with xi != 0 and keeps the others. The source adds
      it into cells that are still 0 there, which is the same as writing it (AddZero). */
  method WritePareto(t: Elementary, dens: array<Num>, x: seq<Num>, xi: seq<Num>, sigma: seq<Num>, mask: seq<bool>)
    requires |x| == dens.Length && |xi| == dens.Length && |sigma| == dens.Length && |mask| == dens.Length
    modifies dens
    ensures forall i :: 0 <= i < dens.Length ==>
              dens[i] == if !Eq(xi[i], Fin(0.0)) then ParetoLogDensity(t, x[i], xi[i], sigma[i], mask[i]) else old(dens[i])
  {
    for k := 0 to dens.Length
      invariant forall i :: 0 <= i < dens.Length ==>
                  dens[i] == if i < k && !Eq(xi[i], Fin(0.0)) then ParetoLogDensity(t, x[i], xi[i], sigma[i], mask[i]) else old(dens[i])
    {
      if !Eq(xi[k], Fin(0.0)) {
        dens[k] := ParetoLogDensity(t, x[k], xi[k], sigma[k], mask[k]);
      }
    }
  }

  /** On the exponential branch (xi == 0) with sigma > 0 the log-density of an excess x is
      -(log sigma + x / sigma). */
  lemma {:induction false} GpdExponential(t: Elementary, x: real, s: real)
    requires s > 0.0
    ensures GpdCell(t, Fin(x), Fin(0.0), Fin(s)) == Fin(-(t.log(s) + x / s))
  {
    var r := 1.0 / s;
    Reciprocal(s);
    var q := r * x;
    assert q == x / s by {
      DivideByPositive(x, s);
    }
    assert ExponentialLogDensity(t, Fin(x), Fin(s)) == Fin((t.log(s) + q) * -1.0);
  }

  /** On the Pareto branch (xi = c != 0) with sigma > 0 and an excess inside the support
      (1 + c x / sigma > 0) the log-density is -(log sigma + (1 + 1 / c) log(1 + c x / sigma)). */
  lemma {:induction false} GpdPareto(t: Elementary, x: real, c: real, s: real)
    requires s > 0.0 && c != 0.0 && 1.0 + c * x / s > 0.0
    ensures GpdCell(t, Fin(x), Fin(c), Fin(s)) == Fin(-(t.log(s) + (1.0 + 1.0 / c) * t.log(1.0 + c * x / s)))
  {
    var p := c * x;
    var q := p / s;
    var f := 1.0 + 1.0 / c;
    assert Mul(Fin(c), Fin(x)) == Fin(p);
    assert Div(Fin(p), Fin(s)) == Fin(q);
    assert Add(Fin(1.0), Fin(q)) == Fin(1.0 + q);
    var l := t.log(1.0 + q);
    assert Log(t, Fin(1.0 + q)) == Fin(l);
    assert Mul(Add(Fin(1.0), Div(Fin(1.0), Fin(c))), OfBool(true)) == Fin(f);
    assert Mul(Fin(f), Fin(l)) == Fin(f * l);
    assert ParetoLogDensity(t, Fin(x), Fin(c), Fin(s), true) == Fin((t.log(s) + f * l) * -1.0);
  }

  /** The support condition 1 + c x / sigma > 0 multiplied out. */
  lemma SupportMultipliedOut(x: real, c: real, s: real)
    requires s > 0.0 && s + c * x > 0.0
    ensures 1.0 + c * x / s > 0.0
  {
    var p := c * x;
    var q := p / s;
    DivideByPositive(p, s);
    var b := 1.0 + q;
    assert s * b == s + s * q;
    assert s * q == p;
    assert s + p > 0.0;
    assert s * b == s + p;
    PositiveFactor(s, b);
  }

  /** With a positive scale and excesses inside the support, gpd is NaN exactly where the excess
      or the shape is NaN: every other cell gets a finite log-density. */
  lemma {:induction false} GpdNaNExactly(t: Elementary, raw: Num, xi: Num, s: real)
    requires s > 0.0
    requires raw.NaN? || raw.Fin?
    requires xi.NaN? || xi.Fin?
    requires raw.Fin? && xi.Fin? ==> s + xi.r * raw.r > 0.0
    ensures GpdCell(t, raw, xi, Fin(s)).NaN? <==> raw.NaN? || xi.NaN?
    ensures !raw.NaN? && !xi.NaN? ==> GpdCell(t, raw, xi, Fin(s)).Fin?
  {
    if raw.Fin? && xi.Fin? {
      var x, c := raw.r, xi.r;
      if c == 0.0 {
        GpdExponential(t, x, s);
      } else {
        SupportMultipliedOut(x, c, s);
        GpdPareto(t, x, c, s);
      }
    }
  }

  /** Beyond the support (sigma + c x < 0, so 1 + c x / sigma < 0) gpd takes the log of a
      negative number: the log-density is NaN, not -inf. */
  lemma {:induction false} GpdBeyondSupport(t: Elementary, x: real, c: real, s: real)
    requires s > 0.0 && s + c * x < 0.0
    ensures GpdCell(t, Fin(x), Fin(c), Fin(s)) == NaN
  {
    var p := c * x;
    var q := p / s;
    assert c != 0.0;
    BeyondSupportMultipliedOut(x, c, s);
    assert Mul(Fin(c), Fin(x)) == Fin(p);
    assert Div(Fin(p), Fin(s)) == Fin(q);
    assert Log(t, Add(Fin(1.0), Fin(q))) == NaN;
  }

  /** The condition sigma + c x < 0 divided by sigma > 0. */
  lemma BeyondSupportMultipliedOut(x: real, c: real, s: real)
    requires s > 0.0 && s + c * x < 0.0
    ensures 1.0 + c * x / s < 0.0
  {
    var p := c * x;
    var q := p / s;
    var b := 1.0 + q;
    assert s * q == p;
    assert s * b == s + p;
    if b >= 0.0 {
      MulNonNegative(s, b);
    }
  }

  /** gpd_cdf as written: 1 - (1 + xi (v - thresh) / sigma) ** (-1 / xi). */
  function GpdCdfAsWritten(t: Elementary, v: Num, xi: Num, sigma: Num, thresh: Num): Num {
    Sub(Fin(1.0), Pow(t, Add(Fin(1.0), Div(Mul(xi, Sub(v, thresh)), sigma)), Div(Fin(-1.0), xi)))
  }

  /** At xi == 0 the exponent -1 / xi is -inf and the base is 1, and 1 ** -inf is 1: gpd_cdf as
      written is 0 at every finite value, above the threshold as well. */
  lemma {:induction false} GpdCdfAsWrittenZeroShape(t: Elementary, v: real, s: real, th: real)
    requires s != 0.0
    ensures GpdCdfAsWritten(t, Fin(v), Fin(0.0), Fin(s), Fin(th)) == Fin(0.0)
  {
    assert Div(Fin(-1.0), Fin(0.0)) == NegInf;
    assert Add(Fin(1.0), Div(Mul(Fin(0.0), Sub(Fin(v), Fin(th))), Fin(s))) == Fin(1.0);
  }

  /** For a positive shape gpd_cdf as written is 1 at +inf: the base 1 + xi (v - thresh) / sigma
      is +inf and the exponent -1 / xi is negative, so the power is 0. */
  lemma {:induction false} GpdCdfAsWrittenAtInfinity(t: Elementary, xi: real, sigma: real, th: real)
    requires xi > 0.0 && sigma > 0.0
    ensures GpdCdfAsWritten(t, PosInf, Fin(xi), Fin(sigma), Fin(th)) == Fin(1.0)
  {
    DivideByPositive(-1.0, xi);
    assert Div(Fin(-1.0), Fin(xi)) == Fin(-1.0 / xi);
    assert Add(Fin(1.0), Div(Mul(Fin(xi), Sub(PosInf, Fin(th))), Fin(sigma))) == PosInf;
  }

  /** At xi == 0 gpd_cdf as written is NaN at +inf: it multiplies the shape 0 by the infinite
      excess, and NaN propagates through the power. */
  lemma {:induction false} GpdCdfAsWrittenZeroShapeAtInfinity(t: Elementary, sigma: real, th: real)
    ensures GpdCdfAsWritten(t, PosInf, Fin(0.0), Fin(sigma), Fin(th)) == NaN
  {
    assert Mul(Fin(0.0), Sub(PosInf, Fin(th))) == NaN;
  }

  /** For a negative shape the support ends where sigma + xi (v - thresh) is 0 (v == thresh -
      sigma / xi): there the base 1 + xi (v - thresh) / sigma is 0 and the exponent -1 / xi is
      positive, so gpd_cdf as written is 1. */
  lemma {:induction false} GpdCdfAsWrittenAtSupportEnd(t: Elementary, v: real, xi: real, sigma: real, th: real)
    requires xi < 0.0 && sigma > 0.0 && sigma + xi * (v - th) == 0.0
    ensures GpdCdfAsWritten(t, Fin(v), Fin(xi), Fin(sigma), Fin(th)) == Fin(1.0)
  {
    var w := -1.0 / xi;
    assert w > 0.0 by {
      var n := -xi;
      DivideByPositive(1.0, n);
      assert w == 1.0 / n;
    }
    assert Div(Fin(-1.0), Fin(xi)) == Fin(w);
    assert Mul(Fin(xi), Sub(Fin(v), Fin(th))) == Fin(-sigma);
    assert Div(Fin(-sigma), Fin(sigma)) == Fin(-1.0) by {
      NegatedQuotient(sigma);
    }
  }

  /** The end of a negative shape's support lies above the threshold. */
  lemma {:induction false} SupportEndAbove(v: real, xi: real, sigma: real, th: real)
    requires xi < 0.0 && sigma > 0.0 && sigma + xi * (v - th) == 0.0
    ensures th < v
  {
    if v <= th {
      MulNonNegative(-xi, th - v);
    }
  }

  /** The GPD CDF with its xi == 0 limit, the exponential CDF 1 - exp(-(v - thresh) / sigma);
      every other shape is evaluated as gpd_cdf writes it. */
  function GpdCdf(t: Elementary, v: Num, xi: Num, sigma: Num, thresh: Num): Num {
    if Eq(xi, Fin(0.0)) then ExponentialCdf(t, v, sigma, thresh)
    else GpdCdfAsWritten(t, v, xi, sigma, thresh)
  }

  /** The exponential CDF 1 - exp(-(v - thresh) / sigma), the xi -> 0 limit of the GPD CDF. */
  function ExponentialCdf(t: Elementary, v: Num, sigma: Num, thresh: Num): Num {
    Sub(Fin(1.0), Exp(t, Neg(Div(Sub(v, thresh), sigma))))
  }

  /** The corrected GPD CDF is 1 at +inf for every non-negative shape, xi == 0 included: the
      exponential limit gives 1 - exp(-inf) = 1. */
  lemma {:induction false} GpdCdfAtInfinity(t: Elementary, xi: real, sigma: real, th: real)
    requires xi >= 0.0 && sigma > 0.0
    ensures GpdCdf(t, PosInf, Fin(xi), Fin(sigma), Fin(th)) == Fin(1.0)
  {
    if xi == 0.0 {
      InfiniteExcessOverScale(sigma, th);
      ExponentialCdfAtInfinity(t, PosInf, Fin(sigma), Fin(th));
      assert GpdCdf(t, PosInf, Fin(xi), Fin(sigma), Fin(th)) == ExponentialCdf(t, PosInf, Fin(sigma), Fin(th));
    } else {
      GpdCdfAsWrittenAtInfinity(t, xi, sigma, th);
    }
  }

  /** The exponential CDF is 1 where the scaled excess is +inf: exp(-inf) is 0. */
  lemma {:induction false} ExponentialCdfAtInfinity(t: Elementary, v: Num, sigma: Num, th: Num)
    requires Div(Sub(v, th), sigma) == PosInf
    ensures ExponentialCdf(t, v, sigma, th) == Fin(1.0)
  {
    ExponentialCdfUnfold(t, v, sigma, th);
    ExpComplementAtNegInf(t);
  }

  /** Where the scaled excess is +inf, the exponential CDF is 1 - exp(-inf). */
  lemma ExponentialCdfUnfold(t: Elementary, v: Num, sigma: Num, th: Num)
    requires Div(Sub(v, th), sigma) == PosInf
    ensures ExponentialCdf(t, v, sigma, th) == Sub(Fin(1.0), Exp(t, NegInf))
  {
  }

  /** 1 - exp(-inf) is 1. */
  lemma ExpComplementAtNegInf(t: Elementary)
    ensures Sub(Fin(1.0), Exp(t, NegInf)) == Fin(1.0)
  {
  }

  /** An infinite excess over a positive scale is +inf. */
  lemma {:induction false} InfiniteExcessOverScale(sigma: real, th: real)
    requires sigma > 0.0
    ensures Div(Sub(PosInf, Fin(th)), Fin(sigma)) == PosInf
  {
    assert Sub(PosInf, Fin(th)) == PosInf;
  }

  /** Above the threshold, inside the support, the corrected CDF lies strictly between 0 and 1. */
  lemma {:induction false} GpdCdfRange(t: Elementary, v: real, c: real, s: real, th: real) returns (r: real)
    requires TailFacts(t) && s > 0.0 && v > th && s + c * (v - th) > 0.0
    ensures GpdCdf(t, Fin(v), Fin(c), Fin(s), Fin(th)) == Fin(r)
    ensures 0.0 < r < 1.0
  {
    if c == 0.0 {
      r := ExponentialCdfRange(t, v, s, th);
      assert GpdCdf(t, Fin(v), Fin(c), Fin(s), Fin(th)) == ExponentialCdf(t, Fin(v), Fin(s), Fin(th));
    } else {
      r := ParetoCdfRange(t, v, c, s, th);
    }
  }

  /** The exponential branch of GpdCdfRange, returning the CDF's real value. */
  lemma {:induction false} ExponentialCdfRange(t: Elementary, v: real, s: real, th: real) returns (r: real)
    requires ExpFacts(t) && s > 0.0 && v > th
    ensures ExponentialCdf(t, Fin(v), Fin(s), Fin(th)) == Fin(r)
    ensures 0.0 < r < 1.0
  {
    r := ExponentialCdfValue(t, v, s, th);
    GpdCdfExponentialAt(t, v, s, th);
  }

  /** Above the threshold, 1 - exp(-(v - thresh) / sigma) lies strictly between 0 and 1. */
  lemma {:induction false} ExponentialCdfValue(t: Elementary, v: real, s: real, th: real) returns (r: real)
    requires ExpFacts(t) && s > 0.0 && v > th
    ensures r == 1.0 - t.exp(-((v - th) / s))
    ensures 0.0 < r < 1.0
  {
    PositiveQuotient(v - th, s);
    ExponentialTail(t, (v - th) / s);
    r := 1.0 - t.exp(-((v - th) / s));
  }

  /** 1 - e^-q lies strictly between 0 and 1 for q > 0. */
  lemma {:induction false} ExponentialTail(t: Elementary, q: real)
    requires ExpFacts(t) && q > 0.0
    ensures 0.0 < 1.0 - t.exp(-q) < 1.0
  {
    assert t.exp(-q) < t.exp(0.0);
  }

  /** The Pareto branch of GpdCdfRange, returning the CDF's real value. */
  lemma {:induction false} ParetoCdfRange(t: Elementary, v: real, c: real, s: real, th: real) returns (r: real)
    requires TailFacts(t) && s > 0.0 && v > th && c != 0.0 && s + c * (v - th) > 0.0
    ensures GpdCdf(t, Fin(v), Fin(c), Fin(s), Fin(th)) == Fin(r)
    ensures 0.0 < r < 1.0
  {
    GpdCdfParetoAt(t, v, c, s, th);
    var q := c * (v - th) / s;
    ParetoSupport(v, c, s, th);
    ParetoTail(t, q, -1.0 / c, c);
    r := 1.0 - t.pow(1.0 + q)(-1.0 / c);
  }

  /** Above the threshold and inside the support, q = c (v - thresh) / sigma has the sign of c
      and 1 + q > 0. */
  lemma {:induction false} ParetoSupport(v: real, c: real, s: real, th: real)
    requires s > 0.0 && v > th && c != 0.0 && s + c * (v - th) > 0.0
    ensures 1.0 + c * (v - th) / s > 0.0
    ensures c > 0.0 ==> c * (v - th) / s > 0.0
    ensures c < 0.0 ==> c * (v - th) / s < 0.0
  {
    var d := v - th;
    var p := c * d;
    DivideByPositive(p, s);
    if c > 0.0 {
      MulPositive(c, d);
    } else {
      var m := -c;
      MulPositive(m, d);
      assert p == -(m * d);
    }
    SupportMultipliedOut(d, c, s);
    assert c * (v - th) == p;
  }

  /** On the exponential branch the CDF is 1 - exp(-(v - thresh) / sigma) evaluated on the reals. */
  lemma {:induction false} GpdCdfExponentialAt(t: Elementary, v: real, s: real, th: real)
    requires s != 0.0
    ensures ExponentialCdf(t, Fin(v), Fin(s), Fin(th)) == Fin(1.0 - t.exp(-((v - th) / s)))
  {
    var d := v - th;
    assert Sub(Fin(v), Fin(th)) == Fin(d);
    var q := d / s;
    assert Div(Fin(d), Fin(s)) == Fin(q);
    assert Neg(Fin(q)) == Fin(-q);
    assert Exp(t, Fin(-q)) == Fin(t.exp(-q));
  }

  /** Off the exponential branch, at a value other than the threshold and inside the support,
      the CDF is 1 - (1 + c (v - thresh) / sigma) ** (-1 / c) evaluated on the reals. */
  lemma {:induction false} GpdCdfParetoAt(t: Elementary, v: real, c: real, s: real, th: real)
    requires s > 0.0 && c != 0.0 && v != th && s + c * (v - th) > 0.0
    ensures GpdCdf(t, Fin(v), Fin(c), Fin(s), Fin(th)) == Fin(1.0 - t.pow(1.0 + c * (v - th) / s)(-1.0 / c))
    ensures GpdCdfAsWritten(t, Fin(v), Fin(c), Fin(s), Fin(th)) == Fin(1.0 - t.pow(1.0 + c * (v - th) / s)(-1.0 / c))
  {
    var d := v - th;
    assert Sub(Fin(v), Fin(th)) == Fin(d);
    var p := c * d;
    assert Mul(Fin(c), Fin(d)) == Fin(p);
    var q := p / s;
    assert Div(Fin(p), Fin(s)) == Fin(q);
    var b := 1.0 + q;
    assert Add(Fin(1.0), Fin(q)) == Fin(b);
    var w := -1.0 / c;
    assert Div(Fin(-1.0), Fin(c)) == Fin(w);
    SupportMultipliedOut(d, c, s);
    assert p != 0.0 by {
      if c > 0.0 && d > 0.0 {
        MulPositive(c, d);
      } else if c > 0.0 {
        MulNegative(c, d);
      } else if d > 0.0 {
        MulNegative(d, c);
      } else {
        var m, e := -c, -d;
        MulPositive(m, e);
      }
    }
    DivideByPositive(p, s);
    assert b != 1.0;
    assert w != 0.0 by {
      Reciprocal(c);
    }
    assert Pow(t, Fin(b), Fin(w)) == Fin(t.pow(b)(w));
    assert !Eq(Fin(c), Fin(0.0));
    assert GpdCdfAsWritten(t, Fin(v), Fin(c), Fin(s), Fin(th)) == Sub(Fin(1.0), Fin(t.pow(b)(w)));
    assert GpdCdf(t, Fin(v), Fin(c), Fin(s), Fin(th)) == Fin(1.0 - t.pow(b)(w));
    assert c * (v - th) == p;
    assert c * (v - th) / s == q;
  }

  /** The survival term (1 + q) ** (-1 / c) of a Pareto tail lies strictly between 0 and 1 when
      q has the sign of c and 1 + q > 0. */
  lemma {:induction false} ParetoTail(t: Elementary, q: real, w: real, c: real)
    requires TailFacts(t) && c != 0.0 && w == -1.0 / c && 1.0 + q > 0.0
    requires (c > 0.0 && q > 0.0) || (c < 0.0 && q < 0.0)
    ensures Pow(t, Fin(1.0 + q), Fin(w)) == Fin(t.pow(1.0 + q)(w))
    ensures 0.0 < t.pow(1.0 + q)(w) < 1.0
  {
    var base := 1.0 + q;
    if c > 0.0 {
      assert w < 0.0 by {
        Reciprocal(c);
        var r := 1.0 / c;
        if r <= 0.0 {
          MulNonPositive(c, r);
        }
      }
    } else {
      var m := -c;
      assert w == 1.0 / m;
      assert w > 0.0 by {
        Reciprocal(m);
        var r := 1.0 / m;
        if r <= 0.0 {
          MulNonPositive(m, r);
        }
      }
    }
  }

  /** Off xi == 0 the corrected CDF is gpd_cdf as written. */
  lemma GpdCdfAsWrittenOffZero(t: Elementary, v: Num, c: real, s: Num, th: Num)
    requires c != 0.0
    ensures GpdCdf(t, v, Fin(c), s, th) == GpdCdfAsWritten(t, v, Fin(c), s, th)
  {
  }

  /** Above the threshold, inside the support, gpd_cdf as written lies in [0, 1): exactly 0
      at xi == 0, where it should be the exponential CDF, and strictly positive otherwise. */
  lemma {:induction false} GpdCdfAsWrittenRange(t: Elementary, v: real, c: real, s: real, th: real) returns (r: real)
    requires TailFacts(t) && s > 0.0 && v > th && s + c * (v - th) > 0.0
    ensures GpdCdfAsWritten(t, Fin(v), Fin(c), Fin(s), Fin(th)) == Fin(r)
    ensures 0.0 <= r < 1.0
    ensures r == 0.0 <==> c == 0.0
  {
    if c == 0.0 {
      GpdCdfAsWrittenZeroShape(t, v, s, th);
      r := 0.0;
    } else {
      r := ParetoCdfRange(t, v, c, s, th);
      GpdCdfAsWrittenOffZero(t, Fin(v), c, Fin(s), Fin(th));
    }
  }

  /** Above the threshold and inside the support, gpd_cdf as written does not decrease in the
      value: it is 0 throughout at xi == 0, and otherwise (1 + q) ** (-1 / xi) falls as the
      value grows, whatever the sign of xi. */
  lemma {:induction false} GpdCdfAsWrittenMonotone(t: Elementary, v1: real, v2: real, c: real, s: real, th: real)
    returns (r1: real, r2: real)
    requires TailFacts(t) && PowMonotone(t) && s > 0.0 && th < v1 <= v2 && s + c * (v2 - th) > 0.0
    ensures GpdCdfAsWritten(t, Fin(v1), Fin(c), Fin(s), Fin(th)) == Fin(r1)
    ensures GpdCdfAsWritten(t, Fin(v2), Fin(c), Fin(s), Fin(th)) == Fin(r2)
    ensures 0.0 <= r1 <= r2 < 1.0
  {
    if c == 0.0 {
      GpdCdfAsWrittenZeroShape(t, v1, s, th);
      GpdCdfAsWrittenZeroShape(t, v2, s, th);
      r1, r2 := 0.0, 0.0;
    } else {
      GpdCdfParetoAt(t, v1, c, s, th);
      GpdCdfParetoAt(t, v2, c, s, th);
      r1 := 1.0 - t.pow(1.0 + c * (v1 - th) / s)(-1.0 / c);
      r2 := 1.0 - t.pow(1.0 + c * (v2 - th) / s)(-1.0 / c);
      ParetoSurvivalOrder(t, v1, v2, c, s, th);
      var _ := GpdCdfAsWrittenRange(t, v1, c, s, th);
      var _ := GpdCdfAsWrittenRange(t, v2, c, s, th);
    }
  }

  /** The survival term (1 + c (v - th) / s) ** (-1 / c) does not grow from v1 to v2 for
      th < v1 <= v2 inside the support, off c == 0. */
  lemma {:induction false} ParetoSurvivalOrder(t: Elementary, v1: real, v2: real, c: real, s: real, th: real)
    requires PowMonotone(t) && s > 0.0 && c != 0.0 && th < v1 <= v2 && s + c * (v2 - th) > 0.0
    ensures t.pow(1.0 + c * (v2 - th) / s)(-1.0 / c) <= t.pow(1.0 + c * (v1 - th) / s)(-1.0 / c)
  {
    var q1, q2 := ScaledExcessOrder(c, v1, v2, th, s);
    ParetoSupport(v1, c, s, th);
    ParetoSupport(v2, c, s, th);
    ParetoBaseMonotone(t, q1, q2, c, -1.0 / c);
  }

  /** q = c (v - th) / s keeps the order of v for c > 0 and reverses it for c < 0, and the
      support condition at v2 carries over to th < v1 <= v2. */
  lemma {:induction false} ScaledExcessOrder(c: real, v1: real, v2: real, th: real, s: real)
    returns (q1: real, q2: real)
    requires s > 0.0 && th < v1 <= v2 && s + c * (v2 - th) > 0.0
    ensures q1 == c * (v1 - th) / s && q2 == c * (v2 - th) / s
    ensures s + c * (v1 - th) > 0.0
    ensures c > 0.0 ==> q1 <= q2
    ensures c < 0.0 ==> q2 <= q1
  {
    ScaledOrder(c, v1 - th, v2 - th, s);
    q1, q2 := c * (v1 - th) / s, c * (v2 - th) / s;
  }

  /** ScaledExcessOrder over the two excesses 0 < d1 <= d2. */
  lemma {:induction false} ScaledOrder(c: real, d1: real, d2: real, s: real)
    requires s > 0.0 && 0.0 < d1 <= d2 && s + c * d2 > 0.0
    ensures s + c * d1 > 0.0
    ensures c > 0.0 ==> c * d1 / s <= c * d2 / s
    ensures c < 0.0 ==> c * d2 / s <= c * d1 / s
  {
    if c > 0.0 {
      MulMonotone(c, d1, d2);
      MulPositive(c, d1);
      DivMonotone(c * d1, c * d2, s);
    } else if c < 0.0 {
      var m := -c;
      MulMonotone(m, d1, d2);
      assert c * d1 == -(m * d1) && c * d2 == -(m * d2);
      DivMonotone(c * d2, c * d1, s);
    }
  }

  /** The survival term (1 + q) ** (-1 / c) does not grow from q1 to q2 when q1 <= q2 for
      c > 0, and when q2 <= q1 for c < 0, both bases being positive. */
  lemma {:induction false} ParetoBaseMonotone(t: Elementary, q1: real, q2: real, c: real, w: real)
    requires PowMonotone(t) && c != 0.0 && w == -1.0 / c
    requires 1.0 + q1 > 0.0 && 1.0 + q2 > 0.0
    requires c > 0.0 ==> q1 <= q2
    requires c < 0.0 ==> q2 <= q1
    ensures t.pow(1.0 + q2)(w) <= t.pow(1.0 + q1)(w)
  {
    if c > 0.0 {
      PositiveQuotient(1.0, c);
      assert w < 0.0;
    } else {
      var m := -c;
      PositiveQuotient(1.0, m);
      assert w == 1.0 / m;
    }
  }

  /** gp_mean: thresh + sigma / (1 - xi), the mean of the excess distribution shifted to the
      threshold. */
  function GpMean(xi: Num, sigma: Num, thresh: Num): Num {
    Add(thresh, Div(sigma, Sub(Fin(1.0), xi)))
  }

  /** With a positive scale and a shape below 1 the mean is finite and lies strictly above a
      finite threshold, by sigma / (1 - xi); an infinite threshold gives an infinite mean. */
  lemma {:induction false} GpMeanAbove(c: real, s: real, thresh: Num)
    requires s > 0.0 && c < 1.0 && !thresh.NaN?
    ensures thresh.Fin? ==> GpMean(Fin(c), Fin(s), thresh) == Fin(thresh.r + s / (1.0 - c))
    ensures thresh.Fin? ==> GpMean(Fin(c), Fin(s), thresh).r > thresh.r
    ensures !thresh.Fin? ==> GpMean(Fin(c), Fin(s), thresh) == thresh
  {
    var m := 1.0 - c;
    assert Sub(Fin(1.0), Fin(c)) == Fin(m);
    var q := s / m;
    assert Div(Fin(s), Fin(m)) == Fin(q);
    DivideByPositive(s, m);
  }

  /** The discrepancy at xi == 0: above the threshold gpd_cdf as written gives 0, while the
      exponential limit is strictly positive. */
  lemma {:induction false} GpdCdfZeroShapeDiffers(t: Elementary, v: real, s: real, th: real)
    requires ExpFacts(t) && s > 0.0 && v > th
    ensures GpdCdfAsWritten(t, Fin(v), Fin(0.0), Fin(s), Fin(th)) == Fin(0.0)
    ensures GpdCdf(t, Fin(v), Fin(0.0), Fin(s), Fin(th)).Fin?
    ensures GpdCdf(t, Fin(v), Fin(0.0), Fin(s), Fin(th)).r > 0.0
  {
    GpdCdfAsWrittenZeroShape(t, v, s, th);
    var r := ExponentialCdfRange(t, v, s, th);
  }
}
