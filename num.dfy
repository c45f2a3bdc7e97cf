/** Floating-point cell values and the IEEE-style arithmetic the mixture model relies on.
    Only what decides WHERE values land is modelled exactly: NaN, the two infinities and
    the results of comparisons; finite values are exact reals (no rounding). */
module NumValues {

  /** One tensor cell. Signed zeros are not distinguished. */
  datatype Num = NaN | NegInf | Fin(r: real) | PosInf

  predicate IsNaN(a: Num) { a.NaN? }

  predicate IsInf(a: Num) { a.NegInf? || a.PosInf? }

  /** A boolean tensor promoted to floating point (True is 1.0, False is 0.0). */
  function OfBool(b: bool): (r: Num)
    ensures r.Fin? && (r.r == 1.0 <==> b) && (r.r == 0.0 <==> !b)
  {
    if b then Fin(1.0) else Fin(0.0)
  }

  /** Position of a non-finite value on the extended line. */
  function Rank(a: Num): int {
    match a
    case NegInf => 0
    case Fin(_) => 1
    case PosInf => 2
    case NaN => 3
  }

  /** IEEE `<`: false as soon as an operand is NaN. */
  predicate Lt(a: Num, b: Num) {
    if a.NaN? || b.NaN? then false
    else if a.Fin? && b.Fin? then a.r < b.r
    else Rank(a) < Rank(b)
  }

  predicate Gt(a: Num, b: Num) { Lt(b, a) }

  /** IEEE `==`: NaN equals nothing, not even itself. */
  predicate Eq(a: Num, b: Num) { !a.NaN? && a == b }

  /** IEEE `!=`: true whenever an operand is NaN. */
  predicate Ne(a: Num, b: Num) { !Eq(a, b) }

  predicate Le(a: Num, b: Num) { Lt(a, b) || Eq(a, b) }

  predicate Ge(a: Num, b: Num) { Le(b, a) }

  /** Comparisons with a NaN operand are all false, and on non-NaN values `<`, `==`, `>` are a trichotomy. */
  lemma {:induction false} Trichotomy(a: Num, b: Num)
    ensures (a.NaN? || b.NaN?) ==> !Lt(a, b) && !Gt(a, b) && !Eq(a, b) && !Le(a, b) && !Ge(a, b)
    ensures !a.NaN? && !b.NaN? ==>
              (Lt(a, b) || Eq(a, b) || Gt(a, b)) &&
              !(Lt(a, b) && Eq(a, b)) && !(Lt(a, b) && Gt(a, b)) && !(Eq(a, b) && Gt(a, b))
    ensures Ge(a, b) <==> Gt(a, b) || Eq(a, b)
  {
  }

  function Neg(a: Num): Num {
    match a
    case NaN => NaN
    case NegInf => PosInf
    case PosInf => NegInf
    case Fin(x) => Fin(-x)
  }

  /** IEEE addition: NaN absorbs, and +inf + -inf is NaN. */
  function Add(a: Num, b: Num): Num {
    if a.NaN? || b.NaN? then NaN
    else if a.Fin? && b.Fin? then Fin(a.r + b.r)
    else if (a.PosInf? && b.NegInf?) || (a.NegInf? && b.PosInf?) then NaN
    else if a.PosInf? || b.PosInf? then PosInf
    else NegInf
  }

  function Sub(a: Num, b: Num): Num { Add(a, Neg(b)) }

  /** Sign of a non-NaN value (-1, 0 or 1). */
  function Sign(a: Num): int {
    match a
    case NegInf => -1
    case PosInf => 1
    case Fin(x) => if x > 0.0 then 1 else if x < 0.0 then -1 else 0
    case NaN => 0
  }

  /** IEEE multiplication: NaN absorbs, and an infinity times zero is NaN. */
  function Mul(a: Num, b: Num): Num {
    if a.NaN? || b.NaN? then NaN
    else if a.Fin? && b.Fin? then Fin(a.r * b.r)
    else if Sign(a) == 0 || Sign(b) == 0 then NaN
    else if (Sign(a) > 0) == (Sign(b) > 0) then PosInf
    else NegInf
  }

  /** IEEE division with a zero divisor read as +0: x/0 is an infinity of x's sign and 0/0 is NaN;
      a finite value over an infinity is 0 and an infinity over an infinity is NaN. */
  function Div(a: Num, b: Num): Num {
    if a.NaN? || b.NaN? then NaN
    else if a.Fin? && b.Fin? then
      if b.r != 0.0 then Fin(a.r / b.r)
      else if a.r == 0.0 then NaN
      else if a.r > 0.0 then PosInf
      else NegInf
    else if a.Fin? then Fin(0.0)
    else if !b.Fin? then NaN
    else if (Sign(a) > 0) == (b.r >= 0.0) then PosInf
    else NegInf
  }

  /** NaN never disappears through arithmetic, and an absent NaN only appears from
      the undefined forms (inf - inf, 0 * inf, 0 / 0, inf / inf). */
  lemma {:induction false} NaNAbsorbs(a: Num, b: Num)
    ensures (a.NaN? || b.NaN?) ==> Add(a, b).NaN? && Sub(a, b).NaN? && Mul(a, b).NaN? && Div(a, b).NaN?
    ensures a.Fin? && b.Fin? ==> Add(a, b).Fin? && Sub(a, b).Fin? && Mul(a, b).Fin?
    ensures a.Fin? && b.Fin? && b.r != 0.0 ==> Div(a, b).Fin?
    ensures !a.NaN? && b.Fin? ==> !Add(a, b).NaN? && !Sub(a, b).NaN?
  {
  }

  /** Adding into a zero tensor leaves every value as it is, NaN and the infinities included,
      and so does adding 0 to it. */
  lemma {:induction false} AddZero(a: Num)
    ensures Add(Fin(0.0), a) == a
    ensures Add(a, Fin(0.0)) == a
  {
  }
}
