/** The transcendental primitives (exp, log, erf, pow) as given functions, the facts about
    them that the mixture model's guarantees rest on, and their extension to NaN and the
    infinities as IEEE floating point and torch define it. */
module Primitives {
  import opened NumValues
  import opened RealArith

  /** The real-valued primitives. Their actual values are never fixed; only `Sound` is assumed. */
  datatype Elementary = Elementary(
    exp: real -> real,
    log: real -> real,
    erf: real -> real,
    pow: real -> real -> real)

  function Max(a: real, b: real): real { if a < b then b else a }

  function Min(a: real, b: real): real { if a < b then a else b }

  /** Range and monotonicity facts that the real exp, log, erf and pow satisfy, grouped by
      primitive so that a proof can ask for the group it needs. */
  ghost predicate Sound(t: Elementary) {
    ExpFacts(t) && LogFacts(t) && ErfFacts(t) && PowFacts(t) && PowMonotone(t)
  }

  /** exp is positive, increasing and 1 at 0. */
  ghost predicate ExpFacts(t: Elementary) {
    && (forall y :: t.exp(y) > 0.0)
    && t.exp(0.0) == 1.0
    && (forall a, b :: a < b ==> t.exp(a) < t.exp(b))
  }

  /** log is increasing and 0 at 1; the softplus bound is log(1 + e^y) <= max(y, 0) + log 2,
      weakened to + 1. */
  ghost predicate LogFacts(t: Elementary) {
    && t.log(1.0) == 0.0
    && (forall u, v :: 0.0 < u < v ==> t.log(u) < t.log(v))
    && (forall y :: t.log(1.0 + t.exp(y)) < Max(y, 0.0) + 1.0)
  }

  /** erf lies in [-1, 1] and does not decrease. */
  ghost predicate ErfFacts(t: Elementary) {
    && (forall a :: -1.0 <= t.erf(a) <= 1.0)
    && (forall a, b :: a <= b ==> t.erf(a) <= t.erf(b))
  }

  /** Powers of positive bases are positive; below 1 for a base above 1 and a negative exponent,
      and for a base in (0, 1) and a positive exponent. */
  ghost predicate PowFacts(t: Elementary) {
    && (forall v, w :: v > 0.0 ==> t.pow(v)(w) > 0.0)
    && (forall v, w :: v > 1.0 && w < 0.0 ==> t.pow(v)(w) < 1.0)
    && (forall v, w :: 0.0 < v < 1.0 && w > 0.0 ==> t.pow(v)(w) < 1.0)
  }

  /** Powers of positive bases are monotone in the base: non-increasing for a negative exponent,
      non-decreasing for a positive one. */
  ghost predicate PowMonotone(t: Elementary) {
    && (forall u, v, w :: 0.0 < u <= v && w < 0.0 ==> t.pow(v)(w) <= t.pow(u)(w))
    && (forall u, v, w :: 0.0 < u <= v && w > 0.0 ==> t.pow(u)(w) <= t.pow(v)(w))
  }

  /** The sign facts of Sound alone, without its monotonicity: a lighter context for proofs
      that only need to know where values are finite and of which sign. */
  ghost predicate SignFacts(t: Elementary) {
    && (forall y :: t.exp(y) > 0.0)
    && (forall a :: -1.0 <= t.erf(a) <= 1.0)
    && (forall v, w :: v > 0.0 ==> t.pow(v)(w) > 0.0)
  }

  /** Sound primitives have the sign facts. */
  lemma SoundSignFacts(t: Elementary)
    requires Sound(t)
    ensures SignFacts(t)
  {
  }

  /** The facts of Sound that the lognormal CDF's range and monotonicity rest on: log and erf
      increase, erf lies in [-1, 1] and powers of positive bases are positive. */
  ghost predicate CdfFacts(t: Elementary) {
    && (forall u, v :: 0.0 < u < v ==> t.log(u) < t.log(v))
    && (forall a :: -1.0 <= t.erf(a) <= 1.0)
    && (forall a, b :: a <= b ==> t.erf(a) <= t.erf(b))
    && (forall v, w :: v > 0.0 ==> t.pow(v)(w) > 0.0)
  }

  /** Sound primitives have the CDF facts. */
  lemma SoundCdfFacts(t: Elementary)
    requires Sound(t)
    ensures CdfFacts(t)
  {
  }

  /** The facts of Sound that the GPD's tail rests on: exp and the powers. */
  ghost predicate TailFacts(t: Elementary) {
    ExpFacts(t) && PowFacts(t)
  }

  /** Sound primitives have the tail facts. */
  lemma SoundTailFacts(t: Elementary)
    requires Sound(t)
    ensures TailFacts(t)
  {
  }

  /** torch.sigmoid, 1 / (1 + e^-k). */
  function Sigmoid(t: Elementary, k: real): (s: real)
    requires Sound(t)
    ensures 0.0 < s < 1.0
  {
    var e := t.exp(-k);
    assert e > 0.0;
    1.0 / (1.0 + e)
  }

  /** torch.nn.functional.softplus(x, beta) with its default threshold 20: the identity once
      beta * x exceeds the threshold, (1 / beta) * log(1 + e^(beta x)) below it. */
  function Softplus(t: Elementary, x: real, beta: real): real
    requires beta > 0.0
  {
    if beta * x > 20.0 then x else t.log(1.0 + t.exp(beta * x)) / beta
  }

  /** Softplus is positive and stays within 1 / beta of max(x, 0). */
  lemma {:induction false} SoftplusBounds(t: Elementary, x: real, beta: real)
    requires Sound(t) && beta > 0.0
    ensures Softplus(t, x, beta) > 0.0
    ensures Softplus(t, x, beta) < Max(x, 0.0) + 1.0 / beta
    ensures beta * x > 20.0 ==> Softplus(t, x, beta) == x
  {
    LogOnePlusExp(t, beta * x);
    SoftplusArith(x, beta, t.log(1.0 + t.exp(beta * x)));
  }

  /** The arithmetic behind SoftplusBounds, for any value l of log(1 + e^(beta x)). */
  lemma SoftplusArith(x: real, beta: real, l: real)
    requires beta > 0.0 && 0.0 < l < Max(beta * x, 0.0) + 1.0
    ensures var s := if beta * x > 20.0 then x else l / beta;
            0.0 < s < Max(x, 0.0) + 1.0 / beta
  {
    var y := beta * x;
    if y > 20.0 {
      assert x > 0.0 by {
        if x <= 0.0 {
          MulNonPositive(beta, x);
        }
      }
      assert 1.0 / beta > 0.0;
    } else {
      assert Max(y, 0.0) == beta * Max(x, 0.0) by {
        if x < 0.0 {
          MulNonPositive(beta, x);
        } else {
          MulNonNegative(beta, x);
        }
      }
      QuotientBounds(l, beta, Max(x, 0.0));
    }
  }

  /** 0 < log(1 + e^y) < max(y, 0) + 1. */
  lemma LogOnePlusExp(t: Elementary, y: real)
    requires Sound(t)
    ensures 0.0 < t.log(1.0 + t.exp(y)) < Max(y, 0.0) + 1.0
  {
    var e := t.exp(y);
    assert e > 0.0;
    assert t.log(1.0) < t.log(1.0 + e);
  }

  /** torch.exp extended to the infinities. */
  function Exp(t: Elementary, a: Num): Num {
    match a
    case NaN => NaN
    case NegInf => Fin(0.0)
    case PosInf => PosInf
    case Fin(x) => Fin(t.exp(x))
  }

  /** torch.log: NaN below zero, -inf at zero. */
  function Log(t: Elementary, a: Num): Num {
    match a
    case NaN => NaN
    case NegInf => NaN
    case PosInf => PosInf
    case Fin(x) => if x > 0.0 then Fin(t.log(x)) else if x == 0.0 then NegInf else NaN
  }

  /** torch.erf, which tends to -1 and 1 at the infinities. */
  function Erf(t: Elementary, a: Num): Num {
    match a
    case NaN => NaN
    case NegInf => Fin(-1.0)
    case PosInf => Fin(1.0)
    case Fin(x) => Fin(t.erf(x))
  }

  predicate IsInteger(y: real) { y == y.Floor as real }

  predicate IsOddInteger(y: real) { IsInteger(y) && y.Floor % 2 == 1 }

  function Abs(x: real): real { if x < 0.0 then -x else x }

  /** The `**` operator (C99 pow): x ** 0 and 1 ** y are 1 even for NaN; a negative base
      needs an integer exponent; limits at the infinities as IEEE 754 lists them. */
  function Pow(t: Elementary, a: Num, b: Num): Num {
    if b == Fin(0.0) || a == Fin(1.0) then Fin(1.0)
    else if a.NaN? || b.NaN? then NaN
    else match b
      case PosInf =>
        if a.Fin? && a.r == -1.0 then Fin(1.0)
        else if a.Fin? && Abs(a.r) < 1.0 then Fin(0.0)
        else PosInf
      case NegInf =>
        if a.Fin? && a.r == -1.0 then Fin(1.0)
        else if a.Fin? && Abs(a.r) < 1.0 then PosInf
        else Fin(0.0)
      case Fin(y) =>
        match a
        case PosInf => if y > 0.0 then PosInf else Fin(0.0)
        case NegInf =>
          if y < 0.0 then Fin(0.0) else if IsOddInteger(y) then NegInf else PosInf
        case Fin(x) =>
          if x > 0.0 then Fin(t.pow(x)(y))
          else if x == 0.0 then (if y < 0.0 then PosInf else Fin(0.0))
          else if !IsInteger(y) then NaN
          else if IsOddInteger(y) then Fin(-t.pow(-x)(y))
          else Fin(t.pow(-x)(y))
  }

  /** The finite-domain behaviour the model needs of the extended primitives. */
  lemma {:induction false} ExtendedOnPositives(t: Elementary, x: real, y: real)
    requires Sound(t) && x > 0.0
    ensures Log(t, Fin(x)).Fin? && Exp(t, Fin(y)).Fin? && Exp(t, Fin(y)).r > 0.0
    ensures Pow(t, Fin(x), Fin(y)).Fin? && Pow(t, Fin(x), Fin(y)).r > 0.0
    ensures x > 1.0 ==> Log(t, Fin(x)).r > 0.0
    ensures x < 1.0 ==> Log(t, Fin(x)).r < 0.0
  {
    if x > 1.0 {
      assert t.log(1.0) < t.log(x);
    }
    if x < 1.0 {
      assert t.log(x) < t.log(1.0);
    }
    if x == 1.0 {
      assert Pow(t, Fin(x), Fin(y)) == Fin(1.0);
    }
  }
}
