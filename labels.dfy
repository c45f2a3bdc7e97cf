/** Class labels and the NaN-aware metrics (src/util.py: compute_class_labels, no_nans,
    accuracy, brier_score and torch_nanmean). np.nanmean and torch_nanmean are the same
    reduction here: the mean of the non-NaN cells, NaN when there are none. */
module Metrics {
  import opened NumValues
  import opened RealArith
  import opened Masked
  import opened MixtureLoglik

  /** The class of a sample: NaN for a missing sample, 2 above the threshold, 0 for no rain,
      1 otherwise. */
  function ClassLabel(v: Num, thresh: Num): Num {
    if v.NaN? then NaN
    else if Gt(v, thresh) then Fin(2.0)
    else if Eq(v, Fin(0.0)) then Fin(0.0)
    else Fin(1.0)
  }

  /** compute_class_labels: starts from ones, zeroes the NaN samples of y in place, writes 0 where
      y == 0, then 2 where y > thresh, then NaN where y was NaN; later writes win. */
  method ComputeClassLabels(y: array<Num>, threshes: seq<Num>) returns (labels: seq<Num>)
    requires |threshes| == y.Length
    modifies y
    ensures forall i :: 0 <= i < y.Length ==> y[i] == NanToNumCell(old(y[i]), Fin(0.0))
    ensures |labels| == y.Length
    ensures forall i :: 0 <= i < y.Length ==> labels[i] == ClassLabel(old(y[i]), threshes[i])
  {
    var n := y.Length;
    var out := new Num[n](_ => Fin(1.0));
    var nans := seq(n, i requires 0 <= i < n reads y => y[i].NaN?);
    Fill(y, nans, Fin(0.0));
    Fill(out, seq(n, i requires 0 <= i < n reads y => Eq(y[i], Fin(0.0))), Fin(0.0));
    Fill(out, seq(n, i requires 0 <= i < n reads y => Gt(y[i], threshes[i])), Fin(2.0));
    Fill(out, nans, NaN);
    labels := out[..];
  }

  /** For a threshold loglik accepts, the label of a sample agrees with the masks of loglik: NaN
      exactly for NaN samples, 0 exactly for the zero mask, 2 exactly for the excess mask, and 1
      for the moderate mask and for negative samples. */
  lemma {:induction false} ClassLabelMatchesMasks(v: Num, thresh: Num)
    requires ValidThresh(thresh)
    ensures ClassLabel(v, thresh).NaN? <==> v.NaN?
    ensures ClassLabel(v, thresh) == Fin(0.0) <==> IsZero(v, false)
    ensures ClassLabel(v, thresh) == Fin(2.0) <==> IsExcess(v, thresh)
    ensures ClassLabel(v, thresh) == Fin(1.0) <==> IsModerate(v, thresh) || Lt(v, Fin(0.0))
  {
    Trichotomy(v, Fin(0.0));
    Trichotomy(v, thresh);
  }

  /** A positive sample equal to its threshold is labelled 1 (moderate), although loglik's
      excess gate (>=) counts it as an excess. */
  lemma {:induction false} LabelAtThreshold(a: real)
    requires a > 0.0
    ensures ClassLabel(Fin(a), Fin(a)) == Fin(1.0)
    ensures IsAboveThresh(Fin(a), Fin(a), false)
  {
    GatesDisagreeAtThreshold(a);
  }

  /** no_nans: the cells where neither a nor b is NaN. */
  function NoNans(a: seq<Num>, b: seq<Num>): (mask: seq<bool>)
    requires |a| == |b|
    ensures |mask| == |a|
    ensures forall i :: 0 <= i < |a| ==> (mask[i] <==> !a[i].NaN? && !b[i].NaN?)
  {
    seq(|a|, i requires 0 <= i < |a| => !a[i].NaN? && !b[i].NaN?)
  }

  /** The number of selected cells. */
  function Count(mask: seq<bool>): (c: nat)
    ensures c <= |mask|
  {
    if |mask| == 0 then 0 else (if mask[0] then 1 else 0) + Count(mask[1..])
  }

  /** The sum of the selected values. */
  function MaskedSum(values: seq<real>, mask: seq<bool>): real
    requires |values| == |mask|
  {
    if |values| == 0 then 0.0 else (if mask[0] then values[0] else 0.0) + MaskedSum(values[1..], mask[1..])
  }

  /** Values in [0, 1] sum to between 0 and the number of selected cells. */
  lemma {:induction false} MaskedSumBounds(values: seq<real>, mask: seq<bool>)
    requires |values| == |mask|
    requires forall i :: 0 <= i < |values| ==> 0.0 <= values[i] <= 1.0
    ensures 0.0 <= MaskedSum(values, mask) <= Count(mask) as real
  {
    if |values| > 0 {
      MaskedSumBounds(values[1..], mask[1..]);
    }
  }

  /** Values that are 1 on every selected cell sum to the number of selected cells. */
  lemma {:induction false} MaskedSumOnes(values: seq<real>, mask: seq<bool>)
    requires |values| == |mask|
    requires forall i :: 0 <= i < |values| && mask[i] ==> values[i] == 1.0
    ensures MaskedSum(values, mask) == Count(mask) as real
  {
    if |values| > 0 {
      MaskedSumOnes(values[1..], mask[1..]);
    }
  }

  /** A mask with a selected cell has a positive count. */
  lemma {:induction false} CountPositive(mask: seq<bool>, k: int)
    requires 0 <= k < |mask| && mask[k]
    ensures Count(mask) > 0
  {
    if k > 0 {
      CountPositive(mask[1..], k - 1);
    }
  }

  /** (a == b) as 0.0 / 1.0 cells. */
  function Matches(a: seq<Num>, b: seq<Num>): seq<real>
    requires |a| == |b|
  {
    seq(|a|, i requires 0 <= i < |a| => if Eq(a[i], b[i]) then 1.0 else 0.0)
  }

  /** accuracy: the mean of (a == b) over the cells where both are non-NaN; NaN (the mean of
      nothing) when there are none. */
  function Accuracy(a: seq<Num>, b: seq<Num>): Num
    requires |a| == |b|
  {
    var mask := NoNans(a, b);
    if Count(mask) == 0 then NaN else Fin(MaskedSum(Matches(a, b), mask) / Count(mask) as real)
  }

  /** Accuracy is NaN exactly when no cell has both values, and a fraction in [0, 1] otherwise. */
  lemma {:induction false} AccuracyRange(a: seq<Num>, b: seq<Num>)
    requires |a| == |b|
    ensures Accuracy(a, b).NaN? <==> forall i :: 0 <= i < |a| ==> a[i].NaN? || b[i].NaN?
    ensures Accuracy(a, b).Fin? || Accuracy(a, b).NaN?
    ensures Accuracy(a, b).Fin? ==> 0.0 <= Accuracy(a, b).r <= 1.0
  {
    var mask := NoNans(a, b);
    if exists k :: 0 <= k < |a| && !a[k].NaN? && !b[k].NaN? {
      var k :| 0 <= k < |a| && !a[k].NaN? && !b[k].NaN?;
      CountPositive(mask, k);
      var hits := Matches(a, b);
      MaskedSumBounds(hits, mask);
      FractionInUnit(MaskedSum(hits, mask), Count(mask) as real);
    } else {
      if Count(mask) > 0 {
        var k := SelectedCell(mask);
      }
    }
  }

  /** 0 <= n <= c with c > 0 gives 0 <= n / c <= 1. */
  lemma {:induction false} FractionInUnit(n: real, c: real)
    requires 0.0 <= n <= c && c > 0.0
    ensures 0.0 <= n / c <= 1.0
  {
    DivideByPositive(n, c);
    if n == c {
      assert n / c == 1.0;
    }
  }

  /** A mask with a positive count selects some cell. */
  lemma {:induction false} SelectedCell(mask: seq<bool>) returns (k: int)
    requires Count(mask) > 0
    ensures 0 <= k < |mask| && mask[k]
  {
    if mask[0] {
      k := 0;
    } else {
      var j := SelectedCell(mask[1..]);
      k := j + 1;
    }
  }

  /** Comparing a tensor with itself gives accuracy 1 as soon as one cell is not NaN. */
  lemma {:induction false} AccuracyOfSelf(a: seq<Num>, k: int)
    requires 0 <= k < |a| && !a[k].NaN?
    ensures Accuracy(a, a) == Fin(1.0)
  {
    var mask := NoNans(a, a);
    var hits := Matches(a, a);
    assert forall i :: 0 <= i < |hits| && mask[i] ==> hits[i] == 1.0;
    CountPositive(mask, k);
    MaskedSumOnes(hits, mask);
    SelfQuotient(Count(mask) as real);
  }

  /** Accuracy does not depend on the order of its arguments. */
  lemma {:induction false} AccuracySymmetric(a: seq<Num>, b: seq<Num>)
    requires |a| == |b|
    ensures Accuracy(a, b) == Accuracy(b, a)
  {
    assert NoNans(a, b) == NoNans(b, a);
    assert Matches(a, b) == Matches(b, a);
  }

  /** The number of non-NaN cells. */
  function NonNaNCount(vals: seq<Num>): (c: nat)
    ensures c <= |vals|
  {
    if |vals| == 0 then 0 else NonNaNCount(vals[..|vals| - 1]) + (if vals[|vals| - 1].NaN? then 0 else 1)
  }

  /** The non-NaN cells zeroed out of a sum. */
  function Summand(v: Num): Num {
    if v.NaN? then Fin(0.0) else v
  }

  /** The IEEE sum of the non-NaN cells, accumulated from the left. */
  function NanSum(vals: seq<Num>): Num {
    if |vals| == 0 then Fin(0.0) else Add(NanSum(vals[..|vals| - 1]), Summand(vals[|vals| - 1]))
  }

  /** torch_nanmean (and np.nanmean): the mean of the non-NaN cells, NaN when there are none. */
  function NanMean(vals: seq<Num>): Num {
    var c := NonNaNCount(vals);
    if c == 0 then NaN else Div(NanSum(vals), Fin(c as real))
  }

  /** torch_nanmean: selects the non-NaN cells and averages them. */
  method TorchNanMean(vals: seq<Num>) returns (mean: Num)
    ensures mean == NanMean(vals)
  {
    var sum := Fin(0.0);
    var count := 0;
    for k := 0 to |vals|
      invariant sum == NanSum(vals[..k]) && count == NonNaNCount(vals[..k])
    {
      assert vals[..k + 1][..k] == vals[..k];
      sum := Add(sum, Summand(vals[k]));
      if !vals[k].NaN? {
        count := count + 1;
      }
    }
    assert vals[..|vals|] == vals;
    mean := if count == 0 then NaN else Div(sum, Fin(count as real));
  }

  /** c copies of x added up. */
  function Times(c: nat, x: real): real {
    if c == 0 then 0.0 else Times(c - 1, x) + x
  }

  /** Adding up c copies of x is multiplying x by c. */
  lemma {:induction false} TimesIsProduct(c: nat, x: real)
    ensures Times(c, x) == c as real * x
  {
    if c > 0 {
      TimesIsProduct(c - 1, x);
      assert (c - 1) as real * x + x == c as real * x;
    }
  }

  /** Finite cells in [lo, hi] (the others NaN) sum to between count * lo and count * hi. */
  lemma {:induction false} NanSumBounds(vals: seq<Num>, lo: real, hi: real) returns (sum: real)
    requires forall i :: 0 <= i < |vals| ==> vals[i].NaN? || (vals[i].Fin? && lo <= vals[i].r <= hi)
    ensures NanSum(vals) == Fin(sum)
    ensures Times(NonNaNCount(vals), lo) <= sum <= Times(NonNaNCount(vals), hi)
  {
    if |vals| == 0 {
      sum := 0.0;
    } else {
      var init := vals[..|vals| - 1];
      var v := vals[|vals| - 1];
      var s0 := NanSumBounds(init, lo, hi);
      if v.NaN? {
        sum := s0;
        AddZero(Fin(s0));
      } else {
        sum := s0 + v.r;
      }
    }
  }

  /** When every non-NaN cell is finite and in [lo, hi] and one exists, the mean lies in [lo, hi]. */
  lemma {:induction false} NanMeanBounds(vals: seq<Num>, lo: real, hi: real, k: int)
    requires forall i :: 0 <= i < |vals| ==> vals[i].NaN? || (vals[i].Fin? && lo <= vals[i].r <= hi)
    requires 0 <= k < |vals| && !vals[k].NaN?
    ensures NanMean(vals).Fin? && lo <= NanMean(vals).r <= hi
  {
    var sum := NanSumBounds(vals, lo, hi);
    NonNaNCountPositive(vals, k);
    BoundedSumMean(sum, NonNaNCount(vals), lo, hi);
  }

  /** A sum between c lo and c hi, c repeated additions each, over c > 0 lies in [lo, hi]. */
  lemma {:induction false} BoundedSumMean(sum: real, c: nat, lo: real, hi: real)
    requires c > 0 && Times(c, lo) <= sum <= Times(c, hi)
    ensures lo <= sum / (c as real) <= hi
  {
    TimesIsProduct(c, lo);
    TimesIsProduct(c, hi);
    MeanBetween(sum, c as real, lo, hi);
  }

  /** c lo <= s <= c hi with c > 0 gives lo <= s / c <= hi. */
  lemma {:induction false} MeanBetween(s: real, c: real, lo: real, hi: real)
    requires c > 0.0 && c * lo <= s <= c * hi
    ensures lo <= s / c <= hi
  {
    var q := s / c;
    assert q * c == s;
    if q < lo {
      MulStrictMonotone(c, q, lo);
    }
    if q > hi {
      MulStrictMonotone(c, hi, q);
    }
  }

  /** A sequence with a non-NaN cell has a positive non-NaN count. */
  lemma {:induction false} NonNaNCountPositive(vals: seq<Num>, k: int)
    requires 0 <= k < |vals| && !vals[k].NaN?
    ensures NonNaNCount(vals) > 0
  {
    if k < |vals| - 1 {
      NonNaNCountPositive(vals[..|vals| - 1], k);
    }
  }

  /** The mean is NaN when every cell is NaN. */
  lemma {:induction false} NanMeanAllNaN(vals: seq<Num>)
    requires forall i :: 0 <= i < |vals| ==> vals[i].NaN?
    ensures NanMean(vals).NaN?
  {
    NonNaNCountZero(vals);
  }

  /** A sequence of NaN cells has no non-NaN cell to count. */
  lemma {:induction false} NonNaNCountZero(vals: seq<Num>)
    requires forall i :: 0 <= i < |vals| ==> vals[i].NaN?
    ensures NonNaNCount(vals) == 0
  {
    if |vals| > 0 {
      NonNaNCountZero(vals[..|vals| - 1]);
    }
  }

  /** Appending a NaN cell does not change the mean. */
  lemma {:induction false} NanMeanIgnoresNaN(vals: seq<Num>)
    ensures NanMean(vals + [NaN]) == NanMean(vals)
  {
    assert (vals + [NaN])[..|vals|] == vals;
    AddZero(NanSum(vals));
  }

  /** A squared difference: NaN, +inf, or a finite non-negative value. */
  function SquaredError(x: Num, y: Num): Num {
    var d := Sub(x, y);
    Mul(d, d)
  }

  /** The cell-wise squared differences of two tensors of one shape. */
  function SquaredErrors(x: seq<Num>, y: seq<Num>): seq<Num>
    requires |x| == |y|
  {
    seq(|x|, i requires 0 <= i < |x| => SquaredError(x[i], y[i]))
  }

  /** brier_score: the NaN-ignoring mean of the squared differences. */
  function BrierScore(x: seq<Num>, y: seq<Num>): Num
    requires |x| == |y|
  {
    NanMean(SquaredErrors(x, y))
  }

  /** Values that are NaN, +inf or finite and non-negative. */
  predicate NonNegativeOrNaN(v: Num) {
    v.NaN? || v.PosInf? || (v.Fin? && v.r >= 0.0)
  }

  /** A squared difference is NaN, +inf or a finite non-negative value. */
  lemma {:induction false} SquaredErrorNonNegative(x: Num, y: Num)
    ensures NonNegativeOrNaN(SquaredError(x, y))
  {
    var d := Sub(x, y);
    if d.Fin? {
      MulSelf(d.r);
    }
  }

  /** The non-NaN sum of NaN, +inf and non-negative cells is +inf or a finite non-negative value. */
  lemma {:induction false} NanSumNonNegative(vals: seq<Num>)
    requires forall i :: 0 <= i < |vals| ==> NonNegativeOrNaN(vals[i])
    ensures NanSum(vals).PosInf? || (NanSum(vals).Fin? && NanSum(vals).r >= 0.0)
  {
    if |vals| > 0 {
      NanSumNonNegative(vals[..|vals| - 1]);
    }
  }

  /** The NaN-ignoring mean of NaN, +inf and non-negative cells is NaN, +inf or non-negative. */
  lemma {:induction false} NanMeanNonNegative(vals: seq<Num>)
    requires forall i :: 0 <= i < |vals| ==> NonNegativeOrNaN(vals[i])
    ensures NonNegativeOrNaN(NanMean(vals))
  {
    NanSumNonNegative(vals);
    var c := NonNaNCount(vals);
    if c > 0 && NanSum(vals).Fin? {
      NonNegativeQuotient(NanSum(vals).r, c as real);
    }
  }

  /** Every squared difference is NaN, +inf or non-negative. */
  lemma {:induction false} SquaredErrorsNonNegative(x: seq<Num>, y: seq<Num>)
    requires |x| == |y|
    ensures forall i :: 0 <= i < |x| ==> NonNegativeOrNaN(SquaredErrors(x, y)[i])
  {
    forall i | 0 <= i < |x|
      ensures NonNegativeOrNaN(SquaredErrors(x, y)[i])
    {
      SquaredErrorNonNegative(x[i], y[i]);
    }
  }

  /** The Brier score is never negative: NaN when no pair is comparable, otherwise +inf or a
      finite value >= 0. */
  lemma {:induction false} BrierScoreNonNegative(x: seq<Num>, y: seq<Num>)
    requires |x| == |y|
    ensures NonNegativeOrNaN(BrierScore(x, y))
  {
    SquaredErrorsNonNegative(x, y);
    NanMeanNonNegative(SquaredErrors(x, y));
  }

  /** A finite cell against itself has squared difference 0; any other cell gives NaN. */
  lemma {:induction false} SquaredErrorsOfSelf(x: seq<Num>)
    ensures forall i :: 0 <= i < |x| ==> SquaredErrors(x, x)[i] == (if x[i].Fin? then Fin(0.0) else NaN)
  {
  }

  /** A tensor scored against itself has Brier score 0 as soon as one cell is finite. */
  lemma {:induction false} BrierScoreOfSelf(x: seq<Num>, k: int)
    requires 0 <= k < |x| && x[k].Fin?
    ensures BrierScore(x, x) == Fin(0.0)
  {
    SquaredErrorsOfSelf(x);
    NanMeanBounds(SquaredErrors(x, x), 0.0, 0.0, k);
  }
}
