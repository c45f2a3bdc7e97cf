/** The mixture log-likelihood (src/util.py: loglik and its helpers loglik_zero,
    loglik_above_thresh, is_zero, is_above_thresh, nan_transfer and nan_to_num). Each cell's
    total is the sum of six terms: the zero / non-zero hurdle, the excess / moderate gate, the
    threshed lognormal density of moderate values and the GPD density of excesses. A term that
    does not apply to a cell is NaN and becomes 0 before the sum. */
module MixtureLoglik {
  import opened NumValues
  import opened Primitives
  import opened RealArith
  import opened Outcomes
  import opened Masked
  import opened Lognormal
  import opened GeneralizedPareto

  const OnlyLognormalLoglik: string := "only lognormal is supported for non-excess values"

  /** is_zero: with flip the non-zero, non-NaN samples; without it the zero samples. */
  predicate IsZero(s: Num, flip: bool) {
    if flip then Ne(s, Fin(0.0)) && !s.NaN? else Eq(s, Fin(0.0))
  }

  /** is_above_thresh: with flip the positive samples below the threshold; without it the
      positive samples at or above it. */
  predicate IsAboveThresh(s: Num, thresh: Num, flip: bool) {
    if flip then Lt(s, thresh) && Gt(s, Fin(0.0)) else Ge(s, thresh) && Gt(s, Fin(0.0))
  }

  /** The cells loglik hands to the GPD: strictly above the threshold (excess_inds). */
  predicate IsExcess(s: Num, thresh: Num) {
    Gt(s, thresh)
  }

  /** The cells loglik hands to the lognormal: positive and not an excess (nz_inds). */
  predicate IsModerate(s: Num, thresh: Num) {
    Gt(s, Fin(0.0)) && !IsExcess(s, thresh)
  }

  /** First output of loglik_zero: log z on zero samples, NaN on NaN samples. */
  function ZeroLoglik(t: Elementary, s: Num, z: real): Num {
    var v := Add(Fin(0.0), Mul(OfBool(IsZero(s, false)), Log(t, Fin(z))));
    if s.NaN? then Add(v, NaN) else v
  }

  /** Second output of loglik_zero: log(1 - z) on non-zero samples, NaN on NaN samples. */
  function NonzeroLoglik(t: Elementary, s: Num, z: real): Num {
    var v := Add(Fin(0.0), Mul(OfBool(IsZero(s, true)), Log(t, Sub(Fin(1.0), Fin(z)))));
    if s.NaN? then Add(v, NaN) else v
  }

  /** First output of loglik_above_thresh: log e on the cells the excess gate admits. */
  function ThreshLoglik(t: Elementary, s: Num, thresh: Num, e: real): Num {
    Mul(OfBool(IsAboveThresh(s, thresh, false)), Log(t, Fin(e)))
  }

  /** Second output of loglik_above_thresh: log(1 - e) on the positive cells below the threshold. */
  function NonThreshLoglik(t: Elementary, s: Num, thresh: Num, e: real): Num {
    Mul(OfBool(IsAboveThresh(s, thresh, true)), Log(t, Sub(Fin(1.0), Fin(e))))
  }

  /** A cell of the `excesses` tensor: s - thresh above the threshold, 0 / 0 everywhere else. */
  function ExcessOf(s: Num, thresh: Num): Num {
    if IsExcess(s, thresh) then Add(Fin(0.0), Sub(s, thresh)) else NaN
  }

  /** A cell of excess_loglik. */
  function ExcessLoglik(t: Elementary, s: Num, thresh: Num, xi: real, sigma: real): Num {
    GpdCell(t, ExcessOf(s, thresh), Fin(xi), Fin(sigma))
  }

  /** A cell of main_loglik: the threshed lognormal density of a moderate sample, and 0 / 0 on
      every other cell (whatever threshed_lognorm computed for the zero placeholder there). */
  function MainLoglik(t: Elementary, s: Num, thresh: Num, mu: real, variance: real): Num {
    if IsModerate(s, thresh) then ThreshedLognormCell(t, Add(Fin(0.0), s), thresh, mu, variance) else NaN
  }

  /** nan_transfer at one cell: the value, made NaN where the reference cell is NaN. */
  function NanTransferCell(ref: Num, v: Num): Num {
    var out := Add(Fin(0.0), v);
    if ref.NaN? then Add(out, NaN) else out
  }

  /** nan_to_num at one cell. */
  function NanToNumCell(v: Num, fill: Num): Num {
    if v.NaN? then fill else v
  }

  /** One summand of total_loglik: the term with the sample's NaN transferred, then zeroed. */
  function Term(s: Num, v: Num): Num {
    NanToNumCell(NanTransferCell(s, v), Fin(0.0))
  }

  /** The six summands added in the source's order. */
  function Total(zero: Num, nonzero: Num, nonThresh: Num, main: Num, thresh: Num, excess: Num): Num {
    Add(Add(Add(Add(Add(zero, nonzero), nonThresh), main), thresh), excess)
  }

  /** total_loglik at one cell from its six terms, in the source's order: each term gets the
      sample's NaN and is zeroed, the six are added, and NaN is added back at a NaN sample. */
  function Combine(s: Num, zero: Num, nonzero: Num, nonThresh: Num, main: Num, thresh: Num, excess: Num): Num {
    var total := Total(Term(s, zero), Term(s, nonzero), Term(s, nonThresh), Term(s, main), Term(s, thresh),
                       Term(s, excess));
    if s.NaN? then Add(total, NaN) else total
  }

  /** A cell of loglik's result. */
  function LoglikCell(t: Elementary, s: Num, z: real, e: real, xi: real, sigma: real, mu: real,
                      variance: real, thresh: Num): Num {
    Combine(s, ZeroLoglik(t, s, z), NonzeroLoglik(t, s, z), NonThreshLoglik(t, s, thresh, e),
            MainLoglik(t, s, thresh, mu, variance), ThreshLoglik(t, s, thresh, e), ExcessLoglik(t, s, thresh, xi, sigma))
  }

  /** loglik_zero: both products added into zero tensors, then NaN added at the NaN samples. */
  method LoglikZero(t: Elementary, samples: seq<Num>, z: seq<real>) returns (zero: seq<Num>, nonzero: seq<Num>)
    requires |z| == |samples|
    ensures |zero| == |samples| && |nonzero| == |samples|
    ensures forall i :: 0 <= i < |samples| ==> zero[i] == ZeroLoglik(t, samples[i], z[i])
    ensures forall i :: 0 <= i < |samples| ==> nonzero[i] == NonzeroLoglik(t, samples[i], z[i])
  {
    var n := |samples|;
    zero := AddNaNAtNaN(samples, seq(n, i requires 0 <= i < n =>
      Add(Fin(0.0), Mul(OfBool(IsZero(samples[i], false)), Log(t, Fin(z[i]))))));
    nonzero := AddNaNAtNaN(samples, seq(n, i requires 0 <= i < n =>
      Add(Fin(0.0), Mul(OfBool(IsZero(samples[i], true)), Log(t, Sub(Fin(1.0), Fin(z[i])))))));
  }

  /** `out[torch.isnan(samples)] += np.nan` on a copy of `values`: NaN is added at the NaN
      samples and every other cell is kept. */
  method AddNaNAtNaN(samples: seq<Num>, values: seq<Num>) returns (out: seq<Num>)
    requires |values| == |samples|
    ensures |out| == |samples|
    ensures forall i :: 0 <= i < |samples| ==> out[i] == if samples[i].NaN? then Add(values[i], NaN) else values[i]
  {
    var n := |samples|;
    var a := new Num[n](i requires 0 <= i < n => values[i]);
    AddWhere(a, seq(n, i requires 0 <= i < n => samples[i].NaN?), seq(n, _ => NaN));
    out := a[..];
  }

  /** nan_transfer: a fresh tensor holding `values`, with NaN added where `ref` is NaN. */
  method NanTransfer(ref: seq<Num>, values: seq<Num>) returns (out: array<Num>)
    requires |ref| == |values|
    ensures fresh(out) && out.Length == |values|
    ensures forall i :: 0 <= i < |values| ==> out[i] == NanTransferCell(ref[i], values[i])
  {
    var n := |values|;
    out := new Num[n](_ => Fin(0.0));
    AddWhere(out, seq(n, _ => true), values);
    AddWhere(out, seq(n, i requires 0 <= i < n => ref[i].NaN?), seq(n, _ => NaN));
  }

  /** nan_to_num: every NaN cell of x, in place, becomes the fill value. */
  method NanToNum(x: array<Num>, fill: Num)
    modifies x
    ensures forall i :: 0 <= i < x.Length ==> x[i] == NanToNumCell(old(x[i]), fill)
  {
    Fill(x, seq(x.Length, i requires 0 <= i < x.Length reads x => x[i].NaN?), fill);
  }

  /** nan_to_num(nan_transfer(samples, term)) on a scratch copy. */
  method CleanTerm(samples: seq<Num>, term: seq<Num>) returns (clean: seq<Num>)
    requires |term| == |samples|
    ensures |clean| == |samples|
    ensures forall i :: 0 <= i < |samples| ==> clean[i] == Term(samples[i], term[i])
  {
    var a := NanTransfer(samples, term);
    NanToNum(a, Fin(0.0));
    clean := a[..];
  }

  /** The excess part of loglik: `excesses` holds s - thresh above the threshold and 0 / 0
      elsewhere, and gpd evaluates it. */
  method ExcessTerm(t: Elementary, samples: seq<Num>, threshes: seq<Num>, xi: seq<real>, sigma: seq<real>)
    returns (excessLL: seq<Num>)
    requires |threshes| == |samples| && |xi| == |samples| && |sigma| == |samples|
    ensures |excessLL| == |samples|
    ensures forall i :: 0 <= i < |samples| ==> excessLL[i] == ExcessLoglik(t, samples[i], threshes[i], xi[i], sigma[i])
  {
    var n := |samples|;
    var excesses := new Num[n](_ => Fin(0.0));
    var excessInds := seq(n, i requires 0 <= i < n => IsExcess(samples[i], threshes[i]));
    AddWhere(excesses, excessInds, seq(n, i requires 0 <= i < n => Sub(samples[i], threshes[i])));
    DivWhere(excesses, seq(n, i requires 0 <= i < n => !excessInds[i]), Fin(0.0));
    assert forall i :: 0 <= i < n ==> excesses[i] == ExcessOf(samples[i], threshes[i]);
    excessLL := Gpd(t, excesses[..], seq(n, i requires 0 <= i < n => Fin(xi[i])),
                    seq(n, i requires 0 <= i < n => Fin(sigma[i])));
  }

  /** The moderate part of loglik: `nonzeros` holds the moderate samples and 0 elsewhere,
      threshed_lognorm evaluates it, and 0 / 0 overwrites the cells that are not moderate. */
  method MainTerm(t: Elementary, samples: seq<Num>, threshes: seq<Num>, mu: seq<real>, variance: seq<real>)
    returns (mainLL: seq<Num>)
    requires |threshes| == |samples| && |mu| == |samples| && |variance| == |samples|
    ensures |mainLL| == |samples|
    ensures forall i :: 0 <= i < |samples| ==> mainLL[i] == MainLoglik(t, samples[i], threshes[i], mu[i], variance[i])
  {
    var n := |samples|;
    var nonzeros := new Num[n](_ => Fin(0.0));
    var nzInds := seq(n, i requires 0 <= i < n => IsModerate(samples[i], threshes[i]));
    AddWhere(nonzeros, nzInds, samples);
    var moderate := nonzeros[..];
    var density := ThreshedLognorm(t, nonzeros, threshes, mu, variance);
    var main := new Num[n](i requires 0 <= i < n => density[i]);
    Fill(main, seq(n, i requires 0 <= i < n => !nzInds[i]), Div(Fin(0.0), Fin(0.0)));
    forall i | 0 <= i < n
      ensures main[i] == MainLoglik(t, samples[i], threshes[i], mu[i], variance[i])
    {
      if nzInds[i] {
        assert moderate[i] == Add(Fin(0.0), samples[i]);
      }
    }
    mainLL := main[..];
  }

  /** loglik: the six terms computed through their masks, NaN transferred from the samples,
      zeroed, summed, and NaN added back at the NaN samples. Any moderate density but the
      lognormal raises ValueError. */
  method Loglik(t: Elementary, samples: seq<Num>, xi: seq<real>, sigma: seq<real>, mu: seq<real>,
                variance: seq<real>, z: seq<real>, e: seq<real>, threshes: seq<Num>, moderateFunc: string)
    returns (r: Result<seq<Num>>)
    requires |xi| == |samples| && |sigma| == |samples| && |mu| == |samples| && |variance| == |samples|
    requires |z| == |samples| && |e| == |samples| && |threshes| == |samples|
    ensures r.Err? <==> moderateFunc != "lognormal"
    ensures r.Err? ==> r.error == ValueError(OnlyLognormalLoglik)
    ensures r.Ok? ==> |r.value| == |samples|
    ensures r.Ok? ==> forall i :: 0 <= i < |samples| ==>
              r.value[i] == LoglikCell(t, samples[i], z[i], e[i], xi[i], sigma[i], mu[i], variance[i], threshes[i])
  {
    var n := |samples|;
    var zeroLL, nzLL := LoglikZero(t, samples, z);
    var threshLL := seq(n, i requires 0 <= i < n => ThreshLoglik(t, samples[i], threshes[i], e[i]));
    var nthreshLL := seq(n, i requires 0 <= i < n => NonThreshLoglik(t, samples[i], threshes[i], e[i]));
    var excessLL := ExcessTerm(t, samples, threshes, xi, sigma);
    if moderateFunc != "lognormal" {
      return Err(ValueError(OnlyLognormalLoglik));
    }
    var mainLL := MainTerm(t, samples, threshes, mu, variance);
    var total := SumTerms(samples, zeroLL, nzLL, nthreshLL, mainLL, threshLL, excessLL);
    r := Ok(total);
  }

  /** The end of loglik: nan_transfer and nan_to_num on each term, the sum in the source's
      order, and NaN added back at the NaN samples. */
  method SumTerms(samples: seq<Num>, zero: seq<Num>, nonzero: seq<Num>, nonThresh: seq<Num>, main: seq<Num>,
                  thresh: seq<Num>, excess: seq<Num>) returns (total: seq<Num>)
    requires |zero| == |samples| && |nonzero| == |samples| && |nonThresh| == |samples|
    requires |main| == |samples| && |thresh| == |samples| && |excess| == |samples|
    ensures |total| == |samples|
    ensures forall i :: 0 <= i < |samples| ==>
              total[i] == Combine(samples[i], zero[i], nonzero[i], nonThresh[i], main[i], thresh[i], excess[i])
  {
    var n := |samples|;
    var c0 := CleanTerm(samples, zero);
    var c1 := CleanTerm(samples, nonzero);
    var c2 := CleanTerm(samples, nonThresh);
    var c3 := CleanTerm(samples, main);
    var c4 := CleanTerm(samples, thresh);
    var c5 := CleanTerm(samples, excess);
    var sum := new Num[n](i requires 0 <= i < n => Total(c0[i], c1[i], c2[i], c3[i], c4[i], c5[i]));
    AddWhere(sum, seq(n, i requires 0 <= i < n => samples[i].NaN?), seq(n, _ => NaN));
    total := sum[..];
  }

  /** A threshold loglik is meant for: a finite non-negative value, or +inf for no excess. */
  predicate ValidThresh(thresh: Num) {
    (thresh.Fin? && thresh.r >= 0.0) || thresh.PosInf?
  }

  /** On non-NaN samples and thresholds the two is_zero masks are complements, the two
      is_above_thresh masks split the positive samples, and the moderate cells are those of the
      non-excess gate plus the positive samples that equal their threshold. */
  lemma {:induction false} GatesPartition(s: Num, thresh: Num)
    requires !s.NaN? && !thresh.NaN?
    ensures IsZero(s, true) <==> !IsZero(s, false)
    ensures IsAboveThresh(s, thresh, false) || IsAboveThresh(s, thresh, true) <==> Gt(s, Fin(0.0))
    ensures !(IsAboveThresh(s, thresh, false) && IsAboveThresh(s, thresh, true))
    ensures IsModerate(s, thresh) <==> IsAboveThresh(s, thresh, true) || (Eq(s, thresh) && Gt(s, Fin(0.0)))
    ensures IsExcess(s, thresh) && Gt(s, Fin(0.0)) ==> IsAboveThresh(s, thresh, false)
  {
    Trichotomy(s, thresh);
  }

  /** At a positive sample equal to its threshold the excess gate admits the cell (>=) while the
      excess mask does not (>): the cell is counted as an excess and as a moderate value. */
  lemma {:induction false} GatesDisagreeAtThreshold(a: real)
    requires a > 0.0
    ensures IsAboveThresh(Fin(a), Fin(a), false) && !IsAboveThresh(Fin(a), Fin(a), true)
    ensures IsModerate(Fin(a), Fin(a)) && !IsExcess(Fin(a), Fin(a))
    ensures ExcessOf(Fin(a), Fin(a)).NaN?
  {
    assert Eq(Fin(a), Fin(a));
  }

  /** nan_transfer makes a cell NaN exactly where the reference or the value is NaN and
      otherwise keeps the value. */
  lemma {:induction false} NanTransferMeaning(ref: Num, v: Num)
    ensures NanTransferCell(ref, v).NaN? <==> ref.NaN? || v.NaN?
    ensures !ref.NaN? ==> NanTransferCell(ref, v) == v
  {
    AddZero(v);
  }

  /** nan_to_num with a non-NaN fill leaves no NaN, keeps every other value and is idempotent. */
  lemma {:induction false} NanToNumMeaning(v: Num, fill: Num)
    requires !fill.NaN?
    ensures !NanToNumCell(v, fill).NaN?
    ensures !v.NaN? ==> NanToNumCell(v, fill) == v
    ensures v.NaN? ==> NanToNumCell(v, fill) == fill
    ensures NanToNumCell(NanToNumCell(v, fill), fill) == NanToNumCell(v, fill)
  {
  }

  /** Off the excess mask the GPD term is NaN (gpd of 0 / 0). */
  lemma {:induction false} ExcessLoglikOffMask(t: Elementary, s: Num, thresh: Num, xi: real, sigma: real)
    requires !IsExcess(s, thresh)
    ensures ExcessLoglik(t, s, thresh, xi, sigma) == NaN
  {
  }

  /** A NaN sample gives a NaN total whatever the parameters. */
  lemma {:induction false} LoglikNaNSample(t: Elementary, z: real, e: real, xi: real, sigma: real, mu: real,
                                           variance: real, thresh: Num)
    ensures LoglikCell(t, NaN, z, e, xi, sigma, mu, variance, thresh).NaN?
  {
  }

  /** The hurdle terms of a zero sample: log z and 0. */
  lemma {:induction false} HurdleAtZero(t: Elementary, z: real)
    requires 0.0 < z < 1.0
    ensures ZeroLoglik(t, Fin(0.0), z) == Fin(t.log(z))
    ensures NonzeroLoglik(t, Fin(0.0), z) == Fin(0.0)
  {
  }

  /** The zero term of a non-zero sample is 0. */
  lemma {:induction false} ZeroTermOffZero(t: Elementary, x: real, z: real)
    requires x != 0.0 && 0.0 < z < 1.0
    ensures ZeroLoglik(t, Fin(x), z) == Fin(0.0)
  {
    assert !IsZero(Fin(x), false);
  }

  /** The non-zero term of a non-zero sample is log(1 - z). */
  lemma {:induction false} NonzeroTermOffZero(t: Elementary, x: real, z: real)
    requires x != 0.0 && 0.0 < z < 1.0
    ensures NonzeroLoglik(t, Fin(x), z) == Fin(t.log(1.0 - z))
  {
    assert IsZero(Fin(x), true);
  }

  /** The hurdle terms of a non-zero sample: 0 and log(1 - z). */
  lemma {:induction false} HurdleOffZero(t: Elementary, x: real, z: real)
    requires x != 0.0 && 0.0 < z < 1.0
    ensures ZeroLoglik(t, Fin(x), z) == Fin(0.0)
    ensures NonzeroLoglik(t, Fin(x), z) == Fin(t.log(1.0 - z))
  {
    ZeroTermOffZero(t, x, z);
    NonzeroTermOffZero(t, x, z);
  }

  /** The gate terms of a sample that is not positive: both 0. */
  lemma {:induction false} GateClosed(t: Elementary, s: Num, thresh: Num, e: real)
    requires !Gt(s, Fin(0.0)) && 0.0 < e < 1.0
    ensures NonThreshLoglik(t, s, thresh, e) == Fin(0.0)
    ensures ThreshLoglik(t, s, thresh, e) == Fin(0.0)
  {
  }

  /** The gate terms of a positive sample below its threshold: log(1 - e) and 0. */
  lemma {:induction false} GateBelow(t: Elementary, s: Num, thresh: Num, e: real)
    requires IsAboveThresh(s, thresh, true) && 0.0 < e < 1.0
    ensures NonThreshLoglik(t, s, thresh, e) == Fin(t.log(1.0 - e))
    ensures ThreshLoglik(t, s, thresh, e) == Fin(0.0)
  {
    Trichotomy(s, thresh);
  }

  /** The gate terms of a positive sample at or above its threshold: 0 and log e. */
  lemma {:induction false} GateAbove(t: Elementary, s: Num, thresh: Num, e: real)
    requires IsAboveThresh(s, thresh, false) && 0.0 < e < 1.0
    ensures NonThreshLoglik(t, s, thresh, e) == Fin(0.0)
    ensures ThreshLoglik(t, s, thresh, e) == Fin(t.log(e))
  {
    Trichotomy(s, thresh);
  }

  /** The sum over a non-NaN sample when neither density applies. */
  lemma {:induction false} CombineNeither(x: real, a: real, b: real, c: real, d: real)
    ensures Combine(Fin(x), Fin(a), Fin(b), Fin(c), NaN, Fin(d), NaN) == Fin(a + b + c + d)
  {
  }

  /** The sum over a non-NaN sample with a moderate density m. */
  lemma {:induction false} CombineMain(x: real, a: real, b: real, c: real, m: real, d: real)
    ensures Combine(Fin(x), Fin(a), Fin(b), Fin(c), Fin(m), Fin(d), NaN) == Fin(a + b + c + m + d)
  {
  }

  /** The sum over a non-NaN sample with a GPD density g. */
  lemma {:induction false} CombineExcess(x: real, a: real, b: real, c: real, d: real, g: real)
    ensures Combine(Fin(x), Fin(a), Fin(b), Fin(c), NaN, Fin(d), Fin(g)) == Fin(a + b + c + d + g)
  {
  }

  /** The moderate term of a moderate sample is its threshed lognormal density. */
  lemma {:induction false} MainOnMask(t: Elementary, x: real, thresh: Num, mu: real, variance: real, m: real)
    requires IsModerate(Fin(x), thresh) && ThreshedLognormCell(t, Fin(x), thresh, mu, variance) == Fin(m)
    ensures MainLoglik(t, Fin(x), thresh, mu, variance) == Fin(m)
  {
    assert Add(Fin(0.0), Fin(x)) == Fin(x);
  }

  /** A zero sample has total log z: only the zero term applies. */
  lemma {:induction false} LoglikZeroSample(t: Elementary, z: real, e: real, xi: real, sigma: real, mu: real,
                                            variance: real, thresh: Num)
    requires 0.0 < z < 1.0 && 0.0 < e < 1.0 && ValidThresh(thresh)
    ensures LoglikCell(t, Fin(0.0), z, e, xi, sigma, mu, variance, thresh) == Fin(t.log(z))
  {
    HurdleAtZero(t, z);
    GateClosed(t, Fin(0.0), thresh, e);
    ExcessLoglikOffMask(t, Fin(0.0), thresh, xi, sigma);
    CombineNeither(0.0, t.log(z), 0.0, 0.0, 0.0);
  }

  /** A negative sample has total log(1 - z): it counts as non-zero but passes neither gate. */
  lemma {:induction false} LoglikNegativeSample(t: Elementary, x: real, z: real, e: real, xi: real, sigma: real,
                                                mu: real, variance: real, thresh: Num)
    requires x < 0.0 && 0.0 < z < 1.0 && 0.0 < e < 1.0 && ValidThresh(thresh)
    ensures LoglikCell(t, Fin(x), z, e, xi, sigma, mu, variance, thresh) == Fin(t.log(1.0 - z))
  {
    HurdleOffZero(t, x, z);
    GateClosed(t, Fin(x), thresh, e);
    ExcessLoglikOffMask(t, Fin(x), thresh, xi, sigma);
    CombineNeither(x, 0.0, t.log(1.0 - z), 0.0, 0.0);
  }

  /** The six terms of a positive sample below its threshold, with moderate density m, add up to
      log(1 - z) + log(1 - e) + m. */
  lemma {:induction false} ModerateSum(t: Elementary, x: real, z: real, e: real, thresh: Num, m: real)
    requires x > 0.0 && Lt(Fin(x), thresh) && 0.0 < z < 1.0 && 0.0 < e < 1.0
    ensures Combine(Fin(x), ZeroLoglik(t, Fin(x), z), NonzeroLoglik(t, Fin(x), z), NonThreshLoglik(t, Fin(x), thresh, e),
                    Fin(m), ThreshLoglik(t, Fin(x), thresh, e), NaN)
         == Fin(t.log(1.0 - z) + t.log(1.0 - e) + m)
  {
    HurdleOffZero(t, x, z);
    GateBelow(t, Fin(x), thresh, e);
    CombineMain(x, 0.0, t.log(1.0 - z), t.log(1.0 - e), m, 0.0);
  }

  /** A positive sample below its threshold, with threshed lognormal log-density m, has total
      log(1 - z) + log(1 - e) + m. (ThreshedLognormValues gives m for a positive variance.) */
  lemma {:induction false} LoglikModerate(t: Elementary, x: real, z: real, e: real, xi: real, sigma: real,
                                          mu: real, variance: real, thresh: Num, m: real)
    requires x > 0.0 && Lt(Fin(x), thresh) && ValidThresh(thresh)
    requires 0.0 < z < 1.0 && 0.0 < e < 1.0
    requires ThreshedLognormCell(t, Fin(x), thresh, mu, variance) == Fin(m)
    ensures LoglikCell(t, Fin(x), z, e, xi, sigma, mu, variance, thresh) == Fin(t.log(1.0 - z) + t.log(1.0 - e) + m)
  {
    Trichotomy(Fin(x), thresh);
    MainOnMask(t, x, thresh, mu, variance, m);
    ExcessLoglikOffMask(t, Fin(x), thresh, xi, sigma);
    ModerateSum(t, x, z, e, thresh, m);
  }

  /** A sample x above a finite threshold a, inside the GPD's support, has total
      log(1 - z) + log e plus the GPD log-density g of the excess x - a. */
  lemma {:induction false} LoglikExcess(t: Elementary, x: real, z: real, e: real, xi: real, sigma: real,
                                        mu: real, variance: real, a: real) returns (g: real)
    requires 0.0 <= a < x && sigma > 0.0 && sigma + xi * (x - a) > 0.0
    requires 0.0 < z < 1.0 && 0.0 < e < 1.0
    ensures GpdCell(t, Fin(x - a), Fin(xi), Fin(sigma)) == Fin(g)
    ensures LoglikCell(t, Fin(x), z, e, xi, sigma, mu, variance, Fin(a)) == Fin(t.log(1.0 - z) + t.log(e) + g)
  {
    GpdNaNExactly(t, Fin(x - a), Fin(xi), sigma);
    g := GpdCell(t, Fin(x - a), Fin(xi), Fin(sigma)).r;
    assert ExcessOf(Fin(x), Fin(a)) == Fin(x - a);
    HurdleOffZero(t, x, z);
    GateAbove(t, Fin(x), Fin(a), e);
    CombineExcess(x, 0.0, t.log(1.0 - z), 0.0, t.log(e), g);
  }

  /** The six terms of a positive sample equal to its threshold, with moderate density m, add up
      to log(1 - z) + log e + m. */
  lemma {:induction false} AtThresholdSum(t: Elementary, a: real, z: real, e: real, m: real)
    requires a > 0.0 && 0.0 < z < 1.0 && 0.0 < e < 1.0
    ensures Combine(Fin(a), ZeroLoglik(t, Fin(a), z), NonzeroLoglik(t, Fin(a), z), NonThreshLoglik(t, Fin(a), Fin(a), e),
                    Fin(m), ThreshLoglik(t, Fin(a), Fin(a), e), NaN)
         == Fin(t.log(1.0 - z) + t.log(e) + m)
  {
    GatesDisagreeAtThreshold(a);
    HurdleOffZero(t, a, z);
    GateAbove(t, Fin(a), Fin(a), e);
    CombineMain(a, 0.0, t.log(1.0 - z), 0.0, m, t.log(e));
  }

  /** A positive sample equal to its threshold takes log e from the excess gate but its threshed
      lognormal log-density m from the moderate mask: log(1 - z) + log e + m. */
  lemma {:induction false} LoglikAtThreshold(t: Elementary, a: real, z: real, e: real, xi: real, sigma: real,
                                             mu: real, variance: real, m: real)
    requires a > 0.0 && 0.0 < z < 1.0 && 0.0 < e < 1.0
    requires ThreshedLognormCell(t, Fin(a), Fin(a), mu, variance) == Fin(m)
    ensures LoglikCell(t, Fin(a), z, e, xi, sigma, mu, variance, Fin(a)) == Fin(t.log(1.0 - z) + t.log(e) + m)
  {
    GatesDisagreeAtThreshold(a);
    MainOnMask(t, a, Fin(a), mu, variance, m);
    ExcessLoglikOffMask(t, Fin(a), Fin(a), xi, sigma);
    AtThresholdSum(t, a, z, e, m);
  }

  /** LoglikModerate with its log-density derived: with sound CDF primitives and a positive
      variance, a positive sample below its threshold has a finite threshed lognormal
      log-density m, and its total is log(1 - z) + log(1 - e) + m. */
  lemma {:induction false} LoglikModerateValue(t: Elementary, x: real, z: real, e: real, xi: real, sigma: real,
                                               mu: real, variance: real, thresh: Num) returns (m: real)
    requires CdfFacts(t) && variance > 0.0
    requires x > 0.0 && Lt(Fin(x), thresh)
    requires 0.0 < z < 1.0 && 0.0 < e < 1.0
    ensures ThreshedLognormCell(t, Fin(x), thresh, mu, variance) == Fin(m)
    ensures LoglikCell(t, Fin(x), z, e, xi, sigma, mu, variance, thresh) == Fin(t.log(1.0 - z) + t.log(1.0 - e) + m)
  {
    ThreshedLognormValues(t, Fin(x), thresh, mu, variance);
    m := ThreshedLognormCell(t, Fin(x), thresh, mu, variance).r;
    LoglikModerate(t, x, z, e, xi, sigma, mu, variance, thresh, m);
  }

  /** LoglikAtThreshold with its log-density derived: at a positive sample equal to its
      threshold the threshed lognormal log-density m is finite, and the total is
      log(1 - z) + log e + m. */
  lemma {:induction false} LoglikAtThresholdValue(t: Elementary, a: real, z: real, e: real, xi: real, sigma: real,
                                                  mu: real, variance: real) returns (m: real)
    requires CdfFacts(t) && variance > 0.0
    requires a > 0.0 && 0.0 < z < 1.0 && 0.0 < e < 1.0
    ensures ThreshedLognormCell(t, Fin(a), Fin(a), mu, variance) == Fin(m)
    ensures LoglikCell(t, Fin(a), z, e, xi, sigma, mu, variance, Fin(a)) == Fin(t.log(1.0 - z) + t.log(e) + m)
  {
    ThreshedLognormValues(t, Fin(a), Fin(a), mu, variance);
    m := ThreshedLognormCell(t, Fin(a), Fin(a), mu, variance).r;
    LoglikAtThreshold(t, a, z, e, xi, sigma, mu, variance, m);
  }

  /** A sample x above a finite threshold a but beyond the GPD's support gets a NaN GPD term,
      which nan_to_num turns into 0: the total is the finite log(1 - z) + log e, as if the excess
      had density 1. */
  lemma {:induction false} LoglikBeyondSupport(t: Elementary, x: real, z: real, e: real, xi: real, sigma: real,
                                               mu: real, variance: real, a: real)
    requires 0.0 <= a < x && sigma > 0.0 && sigma + xi * (x - a) < 0.0
    requires 0.0 < z < 1.0 && 0.0 < e < 1.0
    ensures LoglikCell(t, Fin(x), z, e, xi, sigma, mu, variance, Fin(a)) == Fin(t.log(1.0 - z) + t.log(e))
  {
    BeyondSupportDensities(t, x, xi, sigma, mu, variance, a);
    HurdleOffZero(t, x, z);
    GateAbove(t, Fin(x), Fin(a), e);
    CombineNeither(x, 0.0, t.log(1.0 - z), 0.0, t.log(e));
  }

  /** Both density terms of a sample above the threshold but beyond the GPD's support are NaN:
      the moderate mask leaves it out, and the GPD takes the log of a negative number. */
  lemma {:induction false} BeyondSupportDensities(t: Elementary, x: real, xi: real, sigma: real, mu: real,
                                                  variance: real, a: real)
    requires 0.0 <= a < x && sigma > 0.0 && sigma + xi * (x - a) < 0.0
    ensures MainLoglik(t, Fin(x), Fin(a), mu, variance) == NaN
    ensures ExcessLoglik(t, Fin(x), Fin(a), xi, sigma) == NaN
  {
    GpdBeyondSupport(t, x - a, xi, sigma);
    assert ExcessOf(Fin(x), Fin(a)) == Fin(x - a);
  }

  /** At a non-NaN sample every summand of total_loglik is the term itself, or 0 where the
      term is NaN. */
  lemma {:induction false} TermValue(s: Num, v: Num)
    requires !s.NaN?
    ensures Term(s, v) == if v.NaN? then Fin(0.0) else v
  {
    AddZero(v);
  }

  /** The two hurdle terms of a non-NaN sample are finite for z in (0, 1). */
  lemma {:induction false} HurdleFinite(t: Elementary, s: Num, z: real)
    requires !s.NaN? && 0.0 < z < 1.0
    ensures ZeroLoglik(t, s, z).Fin? && NonzeroLoglik(t, s, z).Fin?
  {
    ZeroTermFinite(t, s, z);
    NonzeroTermFinite(t, s, z);
  }

  /** The first hurdle term of a non-NaN sample is finite for z > 0. */
  lemma {:induction false} ZeroTermFinite(t: Elementary, s: Num, z: real)
    requires !s.NaN? && z > 0.0
    ensures ZeroLoglik(t, s, z).Fin?
  {
    assert Log(t, Fin(z)) == Fin(t.log(z));
  }

  /** The second hurdle term of a non-NaN sample is finite for z < 1. */
  lemma {:induction false} NonzeroTermFinite(t: Elementary, s: Num, z: real)
    requires !s.NaN? && z < 1.0
    ensures NonzeroLoglik(t, s, z).Fin?
  {
    assert Log(t, Sub(Fin(1.0), Fin(z))) == Fin(t.log(1.0 - z));
  }

  /** The two gate terms of any sample are finite for e in (0, 1). */
  lemma {:induction false} GatesFinite(t: Elementary, s: Num, thresh: Num, e: real)
    requires 0.0 < e < 1.0
    ensures NonThreshLoglik(t, s, thresh, e).Fin? && ThreshLoglik(t, s, thresh, e).Fin?
  {
    assert Log(t, Sub(Fin(1.0), Fin(e))) == Fin(t.log(1.0 - e));
  }

  /** No cell is both moderate and an excess: the lognormal or the GPD term is NaN. */
  lemma {:induction false} DensitiesExclusive(t: Elementary, s: Num, thresh: Num, xi: real, sigma: real, mu: real,
                                              variance: real)
    ensures MainLoglik(t, s, thresh, mu, variance).NaN? || ExcessLoglik(t, s, thresh, xi, sigma).NaN?
  {
    if IsModerate(s, thresh) {
      ExcessLoglikOffMask(t, s, thresh, xi, sigma);
    }
  }

  /** Four finite summands and two more, one of them 0, never add up to NaN: a single infinity
      has nothing to cancel against. */
  lemma {:induction false} TotalNotNaN(a: real, b: real, c: real, m: Num, d: real, x: Num)
    requires !m.NaN? && !x.NaN? && (m == Fin(0.0) || x == Fin(0.0))
    ensures !Total(Fin(a), Fin(b), Fin(c), m, Fin(d), x).NaN?
  {
  }

  /** Combine at a non-NaN sample whose hurdle and gate terms are finite and of whose two
      densities at least one is NaN is never NaN. */
  lemma {:induction false} CombineNotNaN(s: Num, zero: Num, nonzero: Num, nonThresh: Num, main: Num, thresh: Num,
                                         excess: Num)
    requires !s.NaN? && zero.Fin? && nonzero.Fin? && nonThresh.Fin? && thresh.Fin?
    requires main.NaN? || excess.NaN?
    ensures !Combine(s, zero, nonzero, nonThresh, main, thresh, excess).NaN?
  {
    TermValue(s, zero);
    TermValue(s, nonzero);
    TermValue(s, nonThresh);
    TermValue(s, main);
    TermValue(s, thresh);
    TermValue(s, excess);
    TotalNotNaN(zero.r, nonzero.r, nonThresh.r, Term(s, main), thresh.r, Term(s, excess));
  }

  /** For z and e in (0, 1) the total is NaN exactly where the sample is NaN, whatever the
      threshold, the GPD and the lognormal parameters: every term is zeroed where it is NaN, the
      hurdle and gate terms are finite, and at most one density term is left to be infinite. */
  lemma {:induction false} LoglikNaNExactly(t: Elementary, s: Num, z: real, e: real, xi: real, sigma: real,
                                            mu: real, variance: real, thresh: Num)
    requires 0.0 < z < 1.0 && 0.0 < e < 1.0
    ensures LoglikCell(t, s, z, e, xi, sigma, mu, variance, thresh).NaN? <==> s.NaN?
  {
    if s.NaN? {
      LoglikNaNSample(t, z, e, xi, sigma, mu, variance, thresh);
    } else {
      HurdleFinite(t, s, z);
      GatesFinite(t, s, thresh, e);
      DensitiesExclusive(t, s, thresh, xi, sigma, mu, variance);
      CombineNotNaN(s, ZeroLoglik(t, s, z), NonzeroLoglik(t, s, z), NonThreshLoglik(t, s, thresh, e),
                    MainLoglik(t, s, thresh, mu, variance), ThreshLoglik(t, s, thresh, e),
                    ExcessLoglik(t, s, thresh, xi, sigma));
    }
  }
}
