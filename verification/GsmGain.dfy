/**
 * What the long-term gain of GSM 06.10 stands for (sections 4.2.11 and 4.2.12;
 * `crates/siphon-rtp-codec/src/gsm_fr.rs`): the decoded level of the chosen code against the ratio of
 * correlation to energy that it was chosen for, and what that makes of the prediction.
 */
module GsmGain {
  import opened Arithmetic
  import opened GsmLongTerm
  import opened GsmMath
  import opened GsmStream
  import opened PowersOfTwo

  // ---- The level of a code ------------------------------------------------------------------------------

  /** How far a level can be from a ratio that selects it, in parts of 32768. */
  const HALF_STEP: seq<nat> := [3279, 4917, 4917, 6555]

  /** The levels rise with the code, and each lies between the thresholds that select it. */
  lemma LevelsBetweenThresholds(bc: nat)
    requires bc <= 3
    ensures 0 < GSM_QLB[bc] <= GSM_DLB[bc]
    ensures bc > 0 ==> GSM_QLB[bc - 1] < GSM_DLB[bc - 1] < GSM_QLB[bc]
  {
  }

  /** One threshold, in terms of the unnormalized correlation and energy. */
  lemma ThresholdMeaning(max: nat, power: nat, p: nat, r: Word, s: Word, threshold: Word)
    requires 0 < max < power && p > 0 && threshold > 0 && 0x4000_0000 <= power * p <= 0x7FFF_FFFF
    requires r == max * p / 65536 && s == power * p / 65536
    ensures r > Mult(s, threshold) ==> 32768 * max > (threshold - 2) * power
    ensures r <= Mult(s, threshold) ==> 32768 * max < (threshold + 2) * power
  {
    hide Mult;
    var a, b := max * p, power * p;
    ProductOrder(max, power, p);
    FloorProduct(s, threshold);
    Regroup(32768, max, p);
    if r > Mult(s, threshold) {
      Regroup(threshold - 2, power, p);
      Above(a, b, r, s, threshold);
      CancelScale(32768 * max, (threshold - 2) * power, p, 32768 * a, (threshold - 2) * b);
    } else {
      Regroup(threshold + 2, power, p);
      Below(a, b, r, s, threshold);
      CancelScale((threshold + 2) * power, 32768 * max, p, (threshold + 2) * b, 32768 * a);
    }
  }

  lemma Regroup(c: int, x: int, p: int)
    ensures c * (x * p) == c * x * p
  {
  }

  lemma FloorProduct(s: Word, threshold: Word)
    requires s >= 0 && threshold > 0
    ensures var m := Mult(s, threshold);
            32768 * m <= s as int * threshold as int < 32768 * m + 32768
  {
  }

  lemma Above(a: int, b: int, r: int, s: int, threshold: int)
    requires b >= 0x4000_0000 && r == a / 65536 && s == b / 65536 && 0 < threshold <= 0x7FFF
    requires 32768 * r > s * threshold
    ensures 32768 * a > (threshold - 2) * b
  {
    ProductOrder(b - 65535, 65536 * s, threshold);
  }

  lemma Below(a: int, b: int, r: int, s: int, threshold: int)
    requires b >= 0x4000_0000 && r == a / 65536 && s == b / 65536 && 0 < threshold <= 0x7FFF
    requires 32768 * r <= s * threshold
    ensures 32768 * a < (threshold + 2) * b
  {
    ProductOrder(65536 * s, b, threshold);
  }

  lemma CancelScale(x: int, y: int, p: nat, px: int, py: int)
    requires p > 0 && px == x * p && py == y * p && px > py
    ensures x > y
  {
    if x <= y { ProductOrder(x, y, p); }
  }

  /** The ratio lies between the thresholds of its code, up to two parts in 32768 of rounding. */
  lemma RatioBetweenThresholds(max: int, power: int)
    requires 0 < max < 2 * power && power <= 0x2800_0000
    ensures var bc, energy := Gain(max, power), 2 * power;
            && (bc > 0 ==> 32768 * max > (GSM_DLB[bc - 1] - 2) * energy)
            && (bc < 3 ==> 32768 * max < (GSM_DLB[bc] + 2) * energy)
  {
    hide Mult;
    hide Norm;
    hide Pow2;
    var energy := 2 * power;
    NormFits(energy);
    PowerPositive(Norm(energy));
    var p := Pow2(Norm(energy));
    WordAfterShift(max, energy, p);
    WordAfterShift(energy, energy, p);
    var r: Word, s: Word := max * p / 65536, energy * p / 65536;
    var bc := GainIndex(r, s);
    if bc > 0 { ThresholdMeaning(max, energy, p, r, s, GSM_DLB[bc - 1]); }
    if bc < 3 { ThresholdMeaning(max, energy, p, r, s, GSM_DLB[bc]); }
  }

  /**
   * The decoded gain is close to correlation over energy: within half a step of the quantizer, for every
   * correlation below the energy. No correlation gets the lowest code, more than the energy the highest.
   */
  lemma GainIsClose(max: int, power: int)
    requires 0 <= power <= 0x2800_0000
    ensures var bc, energy := Gain(max, power), 2 * power;
            && (max <= 0 ==> bc == 0)
            && (0 < max && energy <= max ==> bc == 3)
            && (0 < max < energy ==> Abs(GSM_QLB[bc] * energy - 32768 * max) <= HALF_STEP[bc] * energy)
  {
    hide NormalizedGain;
    if 0 < max < 2 * power {
      RatioBetweenThresholds(max, power);
      hide Gain;
    }
  }

  /**
   * Subtracting the gain times the lagged words lowers the energy: the gain is below twice the ratio for
   * every code but the lowest.
   */
  lemma GainLowersEnergy(max: int, power: int)
    requires 0 <= power <= 0x2800_0000 && Gain(max, power) > 0
    ensures max > 0 && 2 * 32768 * max > GSM_QLB[Gain(max, power)] * (2 * power)
  {
    hide NormalizedGain;
    if max < 2 * power {
      RatioBetweenThresholds(max, power);
      hide Gain;
    }
  }

  // ---- The prediction of a sub-frame ----------------------------------------------------------------------

  /** A predicted word is the decoded gain times the lagged word, rounded to the nearest. */
  lemma PredictedWordIsNear(window: seq<Word>, lag: int, bc: int, k: nat)
    requires |window| == 120 && 40 <= lag <= 120 && 0 <= bc <= 3 && k < 40
    ensures Abs(32768 * PredictedWord(window, lag, bc, k) as int - GSM_QLB[bc] as int * window[120 + k - lag] as int)
         <= 16384
  {
    Rounded(GSM_QLB[bc], window[120 + k - lag]);
  }

  function Dot(x: seq<Word>, y: seq<Word>, n: nat): int
    requires n <= |x| && n <= |y|
  {
    if n == 0 then 0 else Dot(x, y, n - 1) + x[n - 1] as int * y[n - 1] as int
  }

  function TotalMagnitude(x: seq<Word>, n: nat): int
    requires n <= |x|
  {
    if n == 0 then 0 else TotalMagnitude(x, n - 1) + Abs(x[n - 1])
  }

  /** The words that a lag reaches back to. */
  function Lagged(window: seq<Word>, lag: int): (words: seq<Word>)
    requires |window| == 120 && 40 <= lag <= 120
    ensures |words| == 40
  {
    window[120 - lag..160 - lag]
  }

  /** A code above the lowest means that the weighted sub-frame correlates with the lagged words. */
  lemma CodeMeansCorrelation(d: seq<Word>, window: seq<Word>)
    requires |d| == 40 && |window| == 120
    ensures var p := LtpParams(d, window); p.bc > 0 ==> Dot(Weights(d), Lagged(window, p.nc), 40) > 0
  {
    hide BestLag;
    hide Power;
    hide NormalizedGain;
    hide Pow2;
    var p := LtpParams(d, window);
    CrossIsDot(Weights(d), window, p.nc, 40);
    PowerPositive(6 - LtpScale(Peak(d, |d|)));
    hide LtpScale;
    if Cross(Weights(d), window, p.nc, 40) <= 0 {
      NothingScaled(LtpScale(Peak(d, |d|)));
    }
  }

  lemma NothingScaled(scal: int)
    requires 0 <= scal <= 6
    ensures ScaledMax(0, scal) == 0
  {
    hide Pow2;
    PowerPositive(6 - scal);
  }

  lemma {:induction false} CrossIsDot(wt: seq<Word>, window: seq<Word>, lag: nat, n: nat)
    requires |wt| == 40 && |window| == 120 && 40 <= lag <= 120 && n <= 40
    ensures Cross(wt, window, lag, n) == Dot(wt, Lagged(window, lag), n)
  {
    if n > 0 { CrossIsDot(wt, window, lag, n - 1); }
  }

  /**
   * The scaled correlation is a thirty-second of the true one, and the doubled energy a thirty-second of the
   * true energy, so that their ratio is the optimal gain: up to the bits that scaling drops.
   */
  lemma ScaledMaxMeaning(c: nat, scal: int, max: int)
    requires 0 <= scal <= 6 && max == ScaledMax(c, scal)
    ensures 32 * max <= Pow2(scal) * c < 32 * (max + 1)
  {
    hide Pow2;
    PowerPositive(6 - scal);
    Pow2Add(6 - scal, scal);
    SixtyFour();
    ShiftMeaning(c, Pow2(6 - scal), Pow2(scal), max);
  }

  lemma SixtyFour()
    ensures Pow2(6) == 64
  {
  }

  lemma ShiftMeaning(c: nat, p: nat, q: nat, max: int)
    requires p > 0 && p * q == 64 && max == c * 2 / p
    ensures 32 * max <= q * c < 32 * (max + 1)
  {
    FloorBounds(c * 2, p);
    assert max * p <= c * 2 < max * p + p;
    ProductOrder(max * p, c * 2, q);
    ProductBelow(c * 2, max * p + p, q);
    Regroup(max, p, q);
    SumTimes(max * p, p, q);
    Regroup(c, 2, q);
  }

  /** A weighted sample times its scale is the sample, less the bits shifted out. */
  lemma {:induction false} WeightsMeaning(d: seq<Word>, y: seq<Word>, n: nat)
    requires |d| == |y| == 40 && n <= 40
    ensures var scale := Pow2(LtpScale(Peak(d, 40)));
            Abs(Dot(d, y, n) - scale * Dot(Weights(d), y, n)) <= (scale - 1) * TotalMagnitude(y, n)
  {
    hide Pow2;
    hide LtpScale;
    var scale := Pow2(LtpScale(Peak(d, 40)));
    if n > 0 {
      WeightsMeaning(d, y, n - 1);
      var x: int, w: int, z: int := d[n - 1], Weights(d)[n - 1], y[n - 1];
      ShiftLoss(d[n - 1], LtpScale(Peak(d, 40)));
      Remainder(x, w, z, scale);
      OneMoreTerm(scale, Dot(Weights(d), y, n - 1), w * z, TotalMagnitude(y, n - 1), Abs(z));
    }
  }

  lemma ShiftLoss(x: Word, scal: int)
    requires 0 <= scal <= 6
    ensures Pow2(scal) > 0 && 0 <= x as int - Pow2(scal) * ShiftRight(x, scal) as int <= Pow2(scal) - 1
  {
    hide Pow2;
    PowerPositive(scal);
  }

  lemma Remainder(x: int, w: int, z: int, scale: nat)
    requires scale > 0 && 0 <= x - scale * w <= scale - 1
    ensures Abs(x * z - scale * (w * z)) <= (scale - 1) * Abs(z)
  {
    SumTimes(x - scale * w, scale * w, z);
    Regroup(scale, w, z);
    BoundedProduct(x - scale * w, z, scale - 1, Abs(z));
  }

  lemma OneMoreTerm(scale: int, dot: int, term: int, total: int, more: int)
    ensures scale * (dot + term) == scale * dot + scale * term
    ensures (scale - 1) * (total + more) == (scale - 1) * total + (scale - 1) * more
  {
  }

  /** The energy of the lagged words, from the words without their three low bits. */
  lemma {:induction false} PowerMeaning(window: seq<Word>, lag: nat, n: nat)
    requires |window| == 120 && 40 <= lag <= 120 && n <= 40
    ensures var words := Lagged(window, lag);
            Abs(Dot(words, words, n) - 64 * Power(window, lag, n)) <= 14 * TotalMagnitude(words, n) + 161 * n
  {
    if n > 0 {
      PowerMeaning(window, lag, n - 1);
      SquareLoss(window[119 + n - lag]);
    }
  }

  lemma SquareLoss(w: int)
    ensures Abs(w * w - 64 * (w / 8 * (w / 8))) <= 14 * Abs(w) + 161
  {
    var q, r := w / 8, w % 8;
    assert w == 8 * q + r;
    assert w * w == 64 * (q * q) + 16 * (q * r) + r * r;
    BoundedProduct(q, r, Abs(q), 7);
    BoundedProduct(r, r, 7, 7);
  }

  lemma {:induction false} RoundingLoss(d: seq<Word>, window: seq<Word>, lag: int, bc: int, n: nat)
    requires |d| == 40 && |window| == 120 && 40 <= lag <= 120 && 0 <= bc <= 3 && n <= 40
    ensures Abs(32768 * Dot(d, Prediction(window, lag, bc), n) - GSM_QLB[bc] * Dot(d, Lagged(window, lag), n))
         <= 16384 * TotalMagnitude(d, n)
  {
    hide MultR;
    if n > 0 {
      RoundingLoss(d, window, lag, bc, n - 1);
      PredictedWordIsNear(window, lag, bc, n - 1);
      hide PredictedWord;
      var gain: int, x: int, y: int, w: int :=
        GSM_QLB[bc], d[n - 1], PredictedWord(window, lag, bc, n - 1), window[119 + n - lag];
      ErrorTerm(x, 32768 * y - gain * w);
      Spread(x, y, w, gain);
      OneMore(gain, Dot(d, Prediction(window, lag, bc), n - 1), x * y, Dot(d, Lagged(window, lag), n - 1), x * w);
    }
  }

  lemma OneMore(gain: int, dp: int, xy: int, dw: int, xw: int)
    ensures 32768 * (dp + xy) - gain * (dw + xw) == 32768 * dp - gain * dw + (32768 * xy - gain * xw)
  {
  }

  lemma ErrorTerm(x: int, error: int)
    requires Abs(error) <= 16384
    ensures Abs(x * error) <= 16384 * Abs(x)
  {
    BoundedProduct(x, error, Abs(x), 16384);
  }

  lemma Spread(x: int, y: int, w: int, gain: int)
    ensures x * (32768 * y - gain * w) == 32768 * (x * y) - gain * (x * w)
  {
  }

  /** The prediction correlates with the sub-frame wherever the lagged words do so beyond what rounding takes. */
  lemma PredictionCorrelates(d: seq<Word>, window: seq<Word>, lag: int, bc: int)
    requires |d| == 40 && |window| == 120 && 40 <= lag <= 120 && 0 <= bc <= 3
    requires GSM_QLB[bc] * Dot(d, Lagged(window, lag), 40) > 16384 * TotalMagnitude(d, 40)
    ensures Dot(d, Prediction(window, lag, bc), 40) > 0
  {
    RoundingLoss(d, window, lag, bc, 40);
  }

  // ---- Why the margin is needed -----------------------------------------------------------------------------

  /** A sub-frame with two samples, and a window with three words, too faint for the gain of code 1. */
  predicate Faint(d: seq<Word>, window: seq<Word>) {
    && |d| == 40 && d[0] == 511 && d[1] == -200 && (forall k :: 2 <= k < 40 ==> d[k] == 0)
    && |window| == 120 && window[80] == 1 && window[81] == 2 && window[82] == 16
    && forall k :: 0 <= k < 120 && !(80 <= k <= 82) ==> window[k] == 0
  }

  lemma {:induction false} TwoTerms(d: seq<Word>, y: seq<Word>, n: nat)
    requires |d| == |y| == 40 && 2 <= n <= 40 && forall k :: 2 <= k < 40 ==> d[k] == 0
    ensures Dot(d, y, n) == d[0] as int * y[0] as int + d[1] as int * y[1] as int
  {
    if n > 2 { TwoTerms(d, y, n - 1); } else { assert Dot(d, y, 1) == d[0] as int * y[0] as int; }
  }

  lemma FaintCross(d: seq<Word>, window: seq<Word>, lag: nat)
    requires Faint(d, window) && 40 <= lag <= 120
    ensures Cross(d, window, lag, 40) == if lag == 40 then 111 else if lag == 41 then -200 else 0
  {
    CrossIsDot(d, window, lag, 40);
    TwoTerms(d, Lagged(window, lag), 40);
  }

  lemma {:induction false} FaintLag(d: seq<Word>, window: seq<Word>, n: nat)
    requires Faint(d, window) && 41 <= n <= 121
    ensures BestLag(d, window, n) == 40
  {
    hide Cross;
    FaintCross(d, window, 40);
    if n > 41 {
      FaintLag(d, window, n - 1);
      FaintCross(d, window, n - 1);
    }
  }

  lemma {:induction false} FaintPower(window: seq<Word>, n: nat)
    requires |window| == 120 && window[80] == 1 && window[81] == 2 && window[82] == 16 && n <= 40
    requires forall k :: 0 <= k < 120 && !(80 <= k <= 82) ==> window[k] == 0
    ensures Power(window, 40, n) == if n < 3 then 0 else 4
  {
    if n > 0 { FaintPower(window, n - 1); }
  }

  /** A peak below 512 is not scaled down. */
  lemma FaintWeights(d: seq<Word>, window: seq<Word>)
    requires Faint(d, window)
    ensures LtpScale(Peak(d, 40)) == 0 && Weights(d) == d
  {
    var peak := Peak(d, 40);
    assert Magnitude(d[0]) == 511 && peak >= 511;
    LtpScaleFits(peak);
    hide LtpScale;
    hide Pow2;
    PowerAtLeastTwo(LtpScale(peak));
  }

  lemma PowerAtLeastTwo(e: nat)
    ensures e > 0 ==> Pow2(e) >= 2
  {
    if e > 0 { PowerPositive(e - 1); }
  }

  lemma FaintGain(max: int, power: int)
    requires max == 3 && power == 4
    ensures Gain(max, power) == 1
  {
    hide NormalizedGain;
    RatioBetweenThresholds(max, power);
  }

  /**
   * Without that margin rounding can turn the prediction around: the lagged words correlate with this
   * sub-frame, the encoder picks code 1 for them, and the words it predicts do the opposite.
   */
  lemma RoundingCanFlip(d: seq<Word>, window: seq<Word>)
    requires Faint(d, window)
    ensures LtpParams(d, window) == LagAndGain(40, 1)
    ensures Dot(d, Lagged(window, 40), 40) == 111 && Dot(d, Prediction(window, 40, 1), 40) == -200
  {
    FaintParams(d, window);
    hide LtpParams;
    hide Cross;
    hide MultR;
    FaintCross(d, window, 40);
    CrossIsDot(d, window, 40, 40);
    FaintProducts();
    TwoTerms(d, Prediction(window, 40, 1), 40);
  }

  lemma FaintProducts()
    ensures MultR(11469, 1) == 0 && MultR(11469, 2) == 1
  {
  }

  lemma FaintParams(d: seq<Word>, window: seq<Word>)
    requires |d| == 40 && |window| == 120 && Faint(d, window)
    ensures LtpParams(d, window) == LagAndGain(40, 1)
  {
    hide Faint;
    hide BestLag;
    hide Cross;
    hide Gain;
    hide Power;
    hide Weights;
    hide Peak;
    hide LtpScale;
    FaintWeights(d, window);
    FaintLag(d, window, 121);
    FaintCross(d, window, 40);
    FaintEnergy(d, window);
    FaintGain(3, 4);
    assert Pow2(6) == 64;
  }

  lemma FaintEnergy(d: seq<Word>, window: seq<Word>)
    requires |window| == 120 && Faint(d, window)
    ensures Power(window, 40, 40) == 4
  {
    FaintPower(window, 40);
  }
}
