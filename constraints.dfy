/** The parameter constraints: maps from unconstrained network outputs to valid mixture
    parameters (src/util.py, prob_constraint through all_constraints). */
module Constraints {
  import opened NumValues
  import opened Primitives
  import opened Outcomes
  import opened RealArith

  /** Default `eps` of prob_constraint and pos_constraint. */
  const ProbEps: real := 0.01
  const PosEps: real := 0.01
  /** Default `eps` of gp_constraint2, added to maxis before dividing by it. */
  const GpEps: real := 0.000001
  /** Upper bounds used by lognormal_constraint, gp_constraint2 and the shape clamp. */
  const VarianceBound: real := 30.0
  const ScaleBound: real := 40.0
  const ShapeBound: real := 0.9
  const ShapeBeta: real := 5.0

  /** sigmoid(k) * (1 - 2 eps) + eps: a probability strictly inside (eps, 1 - eps). */
  function ProbConstraint(t: Elementary, k: real): (p: real)
    requires Sound(t)
    ensures ProbEps < p < 1.0 - ProbEps
  {
    Sigmoid(t, k) * (1.0 - 2.0 * ProbEps) + ProbEps
  }

  /** exp, abs or square of k, plus eps; any other mode is a ValueError. */
  function PosConstraint(t: Elementary, k: real, func: string): (r: Result<real>)
    requires Sound(t)
    ensures r.Ok? <==> func == "exp" || func == "abs" || func == "square"
    ensures r.Err? ==> r.error == ValueError("unsupported positivity enforcement function")
    ensures r.Ok? ==> r.value >= PosEps
    ensures func == "exp" ==> r.Ok? && r.value > PosEps
  {
    if func == "exp" then Ok(t.exp(k) + PosEps)
    else if func == "abs" then Ok(Abs(k) + PosEps)
    else if func == "square" then Ok(k * k + PosEps)
    else Err(ValueError("unsupported positivity enforcement function"))
  }

  /** The three modes at k = 0: 1 + eps for exp, eps for abs and for square. */
  lemma PosConstraintAtZero(t: Elementary)
    requires Sound(t)
    ensures PosConstraint(t, 0.0, "exp") == Ok(1.0 + PosEps)
    ensures PosConstraint(t, 0.0, "abs") == Ok(PosEps)
    ensures PosConstraint(t, 0.0, "square") == Ok(PosEps)
    ensures PosConstraint(t, 0.0, "softplus").Err?
  {
  }

  /** pos_constraint with its default mode 'exp', which never fails. */
  function PosExp(t: Elementary, k: real): (p: real)
    requires Sound(t)
    ensures p > PosEps
  {
    PosConstraint(t, k, "exp").value
  }

  /** thresh - softplus(thresh - out, beta), where out is x or its positive version: approaches
      thresh from below and never reaches it. */
  function UpperThreshConstraint(t: Elementary, x: real, thresh: real, constrainPositive: bool, beta: real): (r: real)
    requires Sound(t) && beta > 0.0
    ensures r < thresh
  {
    var out := if constrainPositive then PosExp(t, x) else x;
    SoftplusBounds(t, -out + thresh, beta);
    -Softplus(t, -out + thresh, beta) + thresh
  }

  /** Far below the threshold, torch's softplus is linear and the constraint returns its input. */
  lemma UpperThreshLinearRegion(t: Elementary, x: real, thresh: real, beta: real)
    requires Sound(t) && beta > 0.0
    requires beta * (thresh - x) > 20.0
    ensures UpperThreshConstraint(t, x, thresh, false, beta) == x
  {
  }

  /** With the positivity step and beta = 1, any threshold of at least 21 (30 and 40 are used)
      also keeps the result strictly positive. */
  lemma {:induction false} UpperThreshPositive(t: Elementary, x: real, thresh: real)
    requires Sound(t) && thresh >= 21.0
    ensures UpperThreshConstraint(t, x, thresh, true, 1.0) > 0.0
  {
    var out := PosExp(t, x);
    SoftplusBounds(t, -out + thresh, 1.0);
    UpperThreshArith(out, thresh, Softplus(t, -out + thresh, 1.0));
  }

  /** The arithmetic of the upper-threshold bound, over plain variables. */
  lemma UpperThreshArith(out: real, thresh: real, sp: real)
    requires out > 0.0 && thresh >= 21.0
    requires -out + thresh > 20.0 ==> sp == -out + thresh
    requires -out + thresh <= 20.0 ==> sp < Max(-out + thresh, 0.0) + 1.0
    ensures -sp + thresh > 0.0
  {
  }

  /** lognormal_constraint: mu passes through, the variance lands strictly inside (0, 30). */
  function LognormalConstraint(t: Elementary, mu: real, variance: real): (r: (real, real))
    requires Sound(t)
    ensures r.0 == mu
    ensures 0.0 < r.1 < VarianceBound
  {
    UpperThreshPositive(t, variance, VarianceBound);
    (mu, UpperThreshConstraint(t, variance, VarianceBound, true, 1.0))
  }

  /** torch.nn.functional.threshold: v where v > threshold, value elsewhere. */
  function NnThreshold(v: real, threshold: real, value: real): real {
    if v > threshold then v else value
  }

  /** The blend weight of gp_upper_thresh_constraint, -threshold(-threshold(v, 0, 0), -1, -1):
      v clamped to [0, 1]. */
  function ClampWeight(v: real): (w: real)
    ensures 0.0 <= w <= 1.0
    ensures v <= 0.0 ==> w == 0.0
    ensures 0.0 <= v <= 1.0 ==> w == v
    ensures v >= 1.0 ==> w == 1.0
  {
    -1.0 * NnThreshold(-1.0 * NnThreshold(v, 0.0, 0.0), -1.0, -1.0)
  }

  /** w a + (1 - w) b. */
  function Blend(w: real, a: real, b: real): real {
    w * a + (1.0 - w) * b
  }

  /** A convex combination of two values below c is below c. */
  lemma {:induction false} BlendBelow(w: real, a: real, b: real, c: real)
    requires 0.0 <= w <= 1.0 && a < c && b < c
    ensures Blend(w, a, b) < c
  {
    if w == 0.0 {
      assert Blend(w, a, b) == b;
    } else if w == 1.0 {
      assert Blend(w, a, b) == a;
    } else {
      var v, da, db := 1.0 - w, a - c, b - c;
      MulNegative(w, da);
      MulNegative(v, db);
      assert Blend(w, a, b) - c == w * da + v * db;
    }
  }

  /** The blend step of gp_upper_thresh_constraint: weight clamp(x / thresh, 0, 1) on the bounded
      value ut and the rest on x. Negative x passes unchanged, x >= thresh gets ut, and the
      result stays below thresh. */
  function GpBlend(x: real, thresh: real, ut: real): (r: real)
    requires thresh > 0.0 && ut < thresh
    ensures x < 0.0 ==> r == x
    ensures x >= thresh ==> r == ut
    ensures r < thresh
  {
    var q := x / thresh;
    DivideByPositive(x, thresh);
    var w := ClampWeight(q);
    BlendArith(x, thresh, ut, w);
    Blend(w, ut, x)
  }

  /** The arithmetic of the blend bound, over plain variables. */
  lemma {:induction false} BlendArith(x: real, thresh: real, ut: real, w: real)
    requires thresh > 0.0 && ut < thresh && 0.0 <= w <= 1.0
    requires x < 0.0 ==> w == 0.0
    requires x >= thresh ==> w == 1.0
    ensures x < 0.0 ==> Blend(w, ut, x) == x
    ensures x >= thresh ==> Blend(w, ut, x) == ut
    ensures Blend(w, ut, x) < thresh
  {
    if w == 0.0 {
      assert Blend(w, ut, x) == x;
    } else if w == 1.0 {
      assert Blend(w, ut, x) == ut;
    } else {
      BlendBelow(w, ut, x, thresh);
    }
  }

  /** The blend keeps a non-negative x non-negative when ut exceeds min(x, thresh) - b for
      some 0 < b <= thresh. */
  lemma {:induction false} GpBlendNonNegative(x: real, thresh: real, ut: real, b: real)
    requires thresh > 0.0 && ut < thresh && x >= 0.0 && 0.0 < b <= thresh
    requires ut > Min(x, thresh) - b
    ensures GpBlend(x, thresh, ut) >= 0.0
  {
    var q := x / thresh;
    DivideByPositive(x, thresh);
    var w := ClampWeight(q);
    assert GpBlend(x, thresh, ut) == Blend(w, ut, x);
    if x < thresh {
      WeightedShortfall(x, thresh, b, ut, w);
    }
  }

  /** For 0 <= x with weight w = x / thresh, blending a value above x - b into x stays
      non-negative when b <= thresh. */
  lemma {:induction false} WeightedShortfall(x: real, thresh: real, b: real, ut: real, w: real)
    requires 0.0 <= x && 0.0 < b <= thresh && ut > x - b
    requires 0.0 <= w && w * thresh == x
    ensures Blend(w, ut, x) >= 0.0
  {
    var d, e := ut - (x - b), thresh - b;
    MulNonNegative(w, d);
    MulNonNegative(w, e);
    assert Blend(w, ut, x) == w * d + w * e + (x - w * thresh);
  }

  /** gp_upper_thresh_constraint: upper_thresh_constraint without the positivity step, blended
      with x. */
  function GpUpperThreshConstraint(t: Elementary, x: real, thresh: real, beta: real): (r: real)
    requires Sound(t) && thresh > 0.0 && beta > 0.0
    ensures x < 0.0 ==> r == x
    ensures x >= thresh ==> r == UpperThreshConstraint(t, x, thresh, false, beta)
    ensures r < thresh
  {
    GpBlend(x, thresh, UpperThreshConstraint(t, x, thresh, false, beta))
  }

  /** The bounded value stays within 1 / beta of min(x, thresh). */
  lemma {:induction false} UpperThreshNear(t: Elementary, x: real, thresh: real, beta: real)
    requires Sound(t) && beta > 0.0
    ensures UpperThreshConstraint(t, x, thresh, false, beta) > Min(x, thresh) - 1.0 / beta
  {
    var y := -x + thresh;
    SoftplusBounds(t, y, beta);
    assert UpperThreshConstraint(t, x, thresh, false, beta) == -Softplus(t, y, beta) + thresh;
  }

  /** A non-negative shape stays non-negative through the clamp, provided beta * thresh >= 1
      (the clamp of gp_constraint2 uses 5 * 0.9). */
  lemma {:induction false} GpUpperThreshNonNegative(t: Elementary, x: real, thresh: real, beta: real)
    requires Sound(t) && thresh > 0.0 && beta > 0.0 && beta * thresh >= 1.0
    requires x >= 0.0
    ensures GpUpperThreshConstraint(t, x, thresh, beta) >= 0.0
  {
    var ut := UpperThreshConstraint(t, x, thresh, false, beta);
    UpperThreshNear(t, x, thresh, beta);
    QuotientBelow(beta, thresh);
    GpBlendNonNegative(x, thresh, ut, 1.0 / beta);
  }


  /** The shape gp_constraint2 computes before the clamp: (pos(k1) - 1) * sigma / (maxis + eps). */
  function RawShape(k1p: real, sigma: real, maxis: real): real
    requires maxis + GpEps != 0.0
  {
    (k1p - 1.0) * sigma / (maxis + GpEps)
  }

  /** sigma + xi * maxis > 0: for sigma > 0 this is 1 + xi * maxis / sigma > 0, which says that a
      GPD with shape xi and scale sigma has maxis inside its support. */
  predicate CoversMax(xi: real, sigma: real, maxis: real) {
    sigma + xi * maxis > 0.0
  }

  /** A non-negative shape puts no upper limit on the support. */
  lemma {:induction false} NonNegativeShapeCovers(xi: real, sigma: real, maxis: real)
    requires xi >= 0.0 && maxis >= 0.0 && sigma > 0.0
    ensures CoversMax(xi, sigma, maxis)
  {
    MulNonNegative(xi, maxis);
  }

  /** The raw shape exceeds -sigma / (maxis + eps) (stated multiplied out), so the GPD assigns
      density up to maxis. */
  lemma {:induction false} RawShapeSupport(k1p: real, sigma: real, maxis: real)
    requires k1p > 0.0 && sigma > 0.0 && maxis >= 0.0
    ensures RawShape(k1p, sigma, maxis) * (maxis + GpEps) > -sigma
    ensures CoversMax(RawShape(k1p, sigma, maxis), sigma, maxis)
  {
    var d := maxis + GpEps;
    var a := k1p - 1.0;
    var raw := RawShape(k1p, sigma, maxis);
    assert raw * d == a * sigma;
    ShapeArith(a, sigma, maxis, d, raw);
  }

  /** With a > -1, sigma > 0 and d > m >= 0, a value raw with raw d = a sigma satisfies
      raw d > -sigma and covers m. */
  lemma {:induction false} ShapeArith(a: real, sigma: real, m: real, d: real, raw: real)
    requires a > -1.0 && sigma > 0.0 && m >= 0.0 && d > m && raw * d == a * sigma
    ensures raw * d > -sigma
    ensures CoversMax(raw, sigma, m)
  {
    var a1 := a + 1.0;
    MulStrictMonotone(sigma, -1.0, a);
    MulNonNegative(a1, m);
    var e := d + a * m;
    assert e > 0.0;
    MulPositive(sigma, e);
    var c := sigma + raw * m;
    assert d * c == sigma * e;
    PositiveFactor(d, c);
  }

  /** The scale of gp_constraint2: softplus-bounded inside (0, 40), or 1 / initial_density in
      the continuous mode. */
  function GpScale(t: Elementary, k2: real, continuousEvt: bool, initialDensity: real): (sigma: real)
    requires Sound(t)
    requires continuousEvt ==> initialDensity != 0.0
    ensures !continuousEvt ==> 0.0 < sigma < ScaleBound
    ensures continuousEvt ==> sigma * initialDensity == 1.0
  {
    if continuousEvt then
      Reciprocal(initialDensity);
      1.0 / initialDensity
    else
      UpperThreshPositive(t, k2, ScaleBound);
      UpperThreshConstraint(t, k2, ScaleBound, true, 1.0)
  }

  /** gp_constraint2: the continuous mode fails its assert when no density is given; otherwise
      xi is the raw shape clamped below 0.9. */
  function GpConstraint2(t: Elementary, k1: real, k2: real, maxis: real, continuousEvt: bool,
                         initialDensity: Option<real>): (r: Result<(real, real)>)
    requires Sound(t)
    requires maxis + GpEps != 0.0
    requires continuousEvt && initialDensity.Some? ==> initialDensity.value != 0.0
    ensures r.Ok? <==> !continuousEvt || initialDensity.Some?
    ensures r.Err? ==> r.error == AssertionError
    ensures r.Ok? ==> r.value.0 < ShapeBound
    ensures r.Ok? && !continuousEvt ==> 0.0 < r.value.1 < ScaleBound
    ensures r.Ok? && continuousEvt ==> r.value.1 * initialDensity.value == 1.0
  {
    if continuousEvt && initialDensity.None? then Err(AssertionError)
    else
      var density := if continuousEvt then initialDensity.value else 1.0;
      var sigma := GpScale(t, k2, continuousEvt, density);
      var xi := GpUpperThreshConstraint(t, RawShape(PosExp(t, k1), sigma, maxis), ShapeBound, ShapeBeta);
      Ok((xi, sigma))
  }

  /** The support bound survives the clamp: for a positive sigma and maxis >= 0 the constrained
      GPD covers maxis, in both modes. */
  lemma {:induction false} GpConstraint2Support(t: Elementary, k1: real, k2: real, maxis: real, continuousEvt: bool,
                                                initialDensity: Option<real>)
    requires Sound(t) && maxis + GpEps != 0.0
    requires continuousEvt && initialDensity.Some? ==> initialDensity.value != 0.0
    requires GpConstraint2(t, k1, k2, maxis, continuousEvt, initialDensity).Ok?
    requires GpConstraint2(t, k1, k2, maxis, continuousEvt, initialDensity).value.1 > 0.0
    ensures var (xi, sigma) := GpConstraint2(t, k1, k2, maxis, continuousEvt, initialDensity).value;
            maxis >= 0.0 ==> CoversMax(xi, sigma, maxis)
  {
    if maxis < 0.0 {
      return;
    }
    var (xi, sigma) := GpConstraint2(t, k1, k2, maxis, continuousEvt, initialDensity).value;
    var k1p := PosExp(t, k1);
    var raw := RawShape(k1p, sigma, maxis);
    assert xi == GpUpperThreshConstraint(t, raw, ShapeBound, ShapeBeta);
    if raw < 0.0 {
      RawShapeSupport(k1p, sigma, maxis);
    } else {
      GpUpperThreshNonNegative(t, raw, ShapeBound, ShapeBeta);
      NonNegativeShapeCovers(xi, sigma, maxis);
    }
  }

  /** Raw network outputs for one row: the two binary logits, the two GPD outputs (k1, k2) and
      the two lognormal outputs (mu, variance). */
  datatype RawRow = RawRow(binaries: (real, real), gpd: (real, real), main: (real, real))

  /** Constrained parameters of one row: (P(zero), P(excess)), (xi, sigma), (mu, variance). */
  datatype Params = Params(binaries: (real, real), gpd: (real, real), main: (real, real))

  /** Every parameter in its valid range: probabilities inside (eps, 1 - eps), xi below 0.9,
      sigma inside (0, 40) and covering maxis, variance inside (0, 30). */
  predicate ValidParams(p: Params, maxis: real) {
    && ProbEps < p.binaries.0 < 1.0 - ProbEps
    && ProbEps < p.binaries.1 < 1.0 - ProbEps
    && p.gpd.0 < ShapeBound
    && 0.0 < p.gpd.1 < ScaleBound
    && (maxis >= 0.0 ==> CoversMax(p.gpd.0, p.gpd.1, maxis))
    && 0.0 < p.main.1 < VarianceBound
  }

  /** all_constraints on one row outside the continuous mode. */
  function RowConstraints(t: Elementary, row: RawRow, maxis: real): (p: Params)
    requires Sound(t) && maxis + GpEps != 0.0
    ensures ValidParams(p, maxis)
    ensures p.main.0 == row.main.0
  {
    var g := GpConstraint2(t, row.gpd.0, row.gpd.1, maxis, false, None);
    GpConstraint2Support(t, row.gpd.0, row.gpd.1, maxis, false, None);
    Params((ProbConstraint(t, row.binaries.0), ProbConstraint(t, row.binaries.1)),
           g.value,
           LognormalConstraint(t, row.main.0, row.main.1))
  }

  const UnsupportedMain: string := "Only lognormal distribution is supported for non-excess values."

  /** all_constraints: a ValueError for any moderate density but the lognormal; in the continuous
      mode an AssertionError without thresholds and otherwise the TypeError of the call to
      lognormal with a `reduction` keyword it does not accept; else each row constrained. */
  function AllConstraints(t: Elementary, rows: seq<RawRow>, maxis: seq<real>, continuousEvt: bool,
                          mainFunc: string, thresholds: Option<seq<Num>>): (r: Result<seq<Params>>)
    requires Sound(t)
    requires |maxis| == |rows|
    requires forall i :: 0 <= i < |maxis| ==> maxis[i] + GpEps != 0.0
    ensures r.Ok? <==> mainFunc == "lognormal" && !continuousEvt
    ensures mainFunc != "lognormal" ==> r == Err(ValueError(UnsupportedMain))
    ensures mainFunc == "lognormal" && continuousEvt && thresholds.None? ==> r == Err(AssertionError)
    ensures mainFunc == "lognormal" && continuousEvt && thresholds.Some? ==> r.Err? && r.error.TypeError?
    ensures r.Ok? ==> |r.value| == |rows|
    ensures r.Ok? ==> forall i :: 0 <= i < |rows| ==> ValidParams(r.value[i], maxis[i])
    ensures r.Ok? ==> forall i :: 0 <= i < |rows| ==> r.value[i].main.0 == rows[i].main.0
  {
    if mainFunc != "lognormal" then Err(ValueError(UnsupportedMain))
    else if continuousEvt then
      if thresholds.None? then Err(AssertionError)
      else Err(TypeError("lognormal() got an unexpected keyword argument 'reduction'"))
    else
      Ok(seq(|rows|, i requires 0 <= i < |rows| => RowConstraints(t, rows[i], maxis[i])))
  }
}
