/**
 * When the reconstructed sample of G.726 (`crates/siphon-rtp-codec/src/g726.rs`) wraps. Only 40 kbit/s
 * can wrap at all: there a codeword is safe next to every estimate up to an exact step size, and the
 * codewords that an encoder picks are safe beyond it as well.
 */
module G726Wrap {
  import opened Arithmetic
  import opened FixedPoint
  import opened PowersOfTwo
  import opened G726

  /** The largest log magnitude whose difference fits next to every 15-bit estimate. */
  const SAFE_LEVEL := 14 * 128

  predicate FitsEstimate(se: int, difference: int) {
    InI16(se + difference)
  }

  /** The difference fits next to every estimate a predictor can make. */
  ghost predicate FitsEveryEstimate(difference: int) {
    forall se :: -0x4000 <= se < 0x4000 ==> FitsEstimate(se, difference)
  }

  lemma FitsEveryEstimateIff(difference: int)
    ensures FitsEveryEstimate(difference) <==> -0x4000 <= difference <= 0x4000
  {
    if FitsEveryEstimate(difference) {
      assert FitsEstimate(-0x4000, difference) && FitsEstimate(0x3FFF, difference);
    }
  }

  lemma AntilogSafeIff(dql: nat)
    requires dql / 128 <= 14
    ensures AntilogOf(dql) <= 0x4000 <==> dql <= SAFE_LEVEL
  {
    hide AntilogOf;
    if dql / 128 <= 13 {
      AntilogBounds(dql);
    } else {
      TopOctave(dql);
    }
  }

  lemma TopOctave(dql: nat)
    requires dql / 128 == 14
    ensures AntilogOf(dql) == (dql - 13 * 128) * 128
  {
    assert Pow2(0) == 1;
  }

  /** The step size decides: up to this bound no estimate makes the codeword wrap, beyond it some do. */
  lemma SafeStepIff(rate: Rate, code: int, y: int)
    requires IsCode(rate, code) && 544 <= y <= 5120
    ensures |Dqlntab(rate)| == 2 * SignBit(rate)
    ensures FitsEveryEstimate(Difference(rate, code, y)) <==> Dqlntab(rate)[code] + y / 4 <= SAFE_LEVEL
  {
    LevelBounds(rate, code);
    hide Dqlntab;
    hide AntilogOf;
    hide FitsEveryEstimate;
    var dql := Dqlntab(rate)[code] + y / 4;
    if dql >= 0 {
      AntilogSafeIff(dql);
      AntilogBounds(dql);
    }
    FitsEveryEstimateIff(Difference(rate, code, y));
  }

  /** Below a step size of 4908 nothing wraps, whatever the codeword. */
  lemma SmallStepIsSafe(rate: Rate, s: State, code: int)
    requires IsCode(rate, code) && Ok(s) && (rate == R40 ==> StepSize(s) < 4908)
    ensures var core := Core(rate, s, code); core.sr == core.se + Difference(rate, code, core.y)
  {
    LevelBounds(rate, code);
    hide Dqlntab;
    hide Update;
    hide Reconstruct;
    hide Difference;
    hide PredictorZero;
    hide PredictorPole;
    hide StepSize;
    hide NextA2;
    StepSizeBounds(s);
    SampleIsEstimatePlusDifference(rate, s, code);
    SafeStepIff(rate, code, StepSize(s));
    assert FitsEstimate(Estimate(s), Difference(rate, code, StepSize(s)));
  }

  // ---- A state that wraps -------------------------------------------------------------------------------------

  /** Full step size, and a predictor with one strong pole behind a loud sample. */
  const LOUD := State(
    327680, 5120, 0, 0, 256, 15360, 0, [0, 0, 0, 0, 0, 0], 0, 0, [32, 32, 32, 32, 32, 32], 1023, 32, false)

  lemma SilentTap(srn: int)
    requires srn == 32
    ensures Fmult(0, srn) == 0
  {
    hide Pow2;
    PowerAbove(19);
    QuotientBetween(67, Pow2(19), 0, 1);
  }

  lemma PowerAbove(e: nat)
    requires e >= 7
    ensures Pow2(e) >= 128
  {
    if e == 7 { assert Pow2(3) == 8; } else { PowerAbove(e - 1); }
  }

  /** A tap whose product is scaled up. */
  lemma LoudTap(an: nat, srn: nat, e: nat)
    requires an > 0 && TopBit(an) == e >= 5 && e + srn / 64 % 16 >= 18
    ensures Fmult(an, srn)
         == Wrap16((an / Pow2(e - 5) * (srn % 64) + 0x30) / 16 * Pow2(e + srn / 64 % 16 - 18) % 0x8000)
  {
    hide Pow2;
    hide TopBit;
    hide Wrap16;
  }

  lemma TopBitIs(n: nat, e: nat)
    requires Pow2(e) <= n < Pow2(e + 1)
    ensures TopBit(n) == e
  {
    if e > 0 { TopBitIs(n / 2, e - 1); }
  }

  lemma StrongPole(an: nat, srn: nat)
    requires an == 3840 && srn == 1023
    ensures Fmult(an, srn) == 28416
  {
    hide Fmult;
    hide TopBit;
    EighthPower();
    hide Pow2;
    TopBitIs(an, 11);
    LoudTap(an, srn, 11);
  }

  lemma EighthPower()
    ensures Pow2(6) == 64 && Pow2(8) == 256 && Pow2(11) == 2048 && Pow2(12) == 4096
  {
    assert Pow2(3) == 8;
  }

  lemma {:induction false} SilentZeros(s: State, k: nat)
    requires |s.b| == |s.dq| == 6 && k <= 6 && forall i :: 0 <= i < 6 ==> s.b[i] == 0 && s.dq[i] == 32
    ensures ZeroSum(s, k) == 0
  {
    hide Fmult;
    if k > 0 {
      SilentZeros(s, k - 1);
      SilentTap(s.dq[k - 1]);
    }
  }

  lemma LoudEstimate(s: State)
    requires s == LOUD
    ensures |s.b| == |s.dq| == 6 && PredictorZero(s) == 0 && Estimate(s) == 14208
  {
    hide Fmult;
    hide ZeroSum;
    SilentZeros(s, 6);
    SilentTap(s.sr2);
    StrongPole(s.a1 / 4, s.sr1);
  }

  /** Inside the bounds of a run, the outermost codeword on a large estimate of its own sign wraps. */
  lemma LoudWraps(s: State)
    requires s == LOUD
    ensures Ok(s)
    ensures var core := Core(R40, s, 15);
            core.sr == -28032 && core.se + Difference(R40, 15, core.y) == 37504
  {
    hide Update;
    hide Estimate;
    hide PredictorZero;
    hide NextA2;
    hide Reconstruct;
    hide AntilogOf;
    LoudEstimate(s);
    ReconstructByLevel(false, 566, 5120);
    TopOctave(566 + 1280);
  }

  // ---- The codewords of an encoder -------------------------------------------------------------------------

  /** The three outermost levels lie close to the thresholds that select them. */
  lemma OuterLevels(i: nat, negative: bool)
    requires i <= |Qtab(R40)|
    ensures |Qtab(R40)| == 15 && |Dqlntab(R40)| == 32
    ensures IsCode(R40, CodeAt(R40, i, negative)) && (i > 0 ==> (CodeAt(R40, i, negative) >= 16 <==> negative))
    ensures Dqlntab(R40)[CodeAt(R40, i, negative)] > 512
        ==> i >= 13 && Dqlntab(R40)[CodeAt(R40, i, negative)] <= Qtab(R40)[i - 1] + 13
  {
    assert i == 0 || i == 1 || i == 2 || i == 3 || i == 4 || i == 5 || i == 6 || i == 7 || i >= 8;
  }

  lemma LogOfLarge(m: nat)
    requires LogOf(m) >= 13 * 128
    ensures m >= 0x2000
  {
    if m < 0x2000 {
      assert Pow2(12) == 0x1000;
      TopBitBelow(m / 2, 12);
    }
  }

  /** A codeword beyond the bound stands for a difference of at least 8192, of the same sign. */
  lemma OuterDifference(d: int, y: int)
    requires Abs(d) <= 0x7FFF && 544 <= y <= 5120
    ensures IsCode(R40, Quantize(R40, d, y))
    ensures Dqlntab(R40)[Quantize(R40, d, y)] + y / 4 > SAFE_LEVEL
        ==> Abs(d) >= 0x2000 && (Quantize(R40, d, y) >= SignBit(R40) <==> d < 0)
  {
    hide LogOf;
    hide Passed;
    hide Qtab;
    hide Dqlntab;
    var i := Passed(Qtab(R40), LogOf(Abs(d)) - y / 4);
    OuterLevels(i, d < 0);
    if Dqlntab(R40)[Quantize(R40, d, y)] + y / 4 > SAFE_LEVEL {
      assert Qtab(R40)[i - 1] <= LogOf(Abs(d)) - y / 4;
      LogOfLarge(Abs(d));
    }
  }

  /** At 40 kbit/s, for any estimate. */
  lemma EncodedDifferenceFits(se: int, sample: int, y: int)
    requires -0x4000 <= se < 0x4000 && InI16(sample) && 544 <= y <= 5120
    ensures IsCode(R40, Quantize(R40, sample / 4 - se, y))
    ensures InI16(se + Difference(R40, Quantize(R40, sample / 4 - se, y), y))
  {
    hide Dqlntab;
    hide Quantize;
    hide Magnitude;
    var d := sample / 4 - se;
    OuterDifference(d, y);
    var code := Quantize(R40, d, y);
    ReconstructionLossless(R40, code, y);
    SafeStepIff(R40, code, y);
    if Dqlntab(R40)[code] + y / 4 <= SAFE_LEVEL {
      assert FitsEstimate(se, Difference(R40, code, y));
    }
  }

  /**
   * The encoder's own codeword never wraps, at any rate, in any state and for any sample: where it is
   * large enough to, the estimate is on the other side of zero.
   */
  lemma EncodedSampleFits(rate: Rate, s: State, sample: int)
    requires Ok(s) && InI16(sample)
    ensures IsCode(rate, CodeFor(rate, s, sample))
    ensures var core := Core(rate, s, CodeFor(rate, s, sample));
            core.sr == core.se + Difference(rate, CodeFor(rate, s, sample), core.y)
  {
    hide Update;
    hide Reconstruct;
    hide Difference;
    hide Dqlntab;
    hide PredictorZero;
    hide PredictorPole;
    hide StepSize;
    hide NextA2;
    hide Quantize;
    QuantizeIsCode(rate, sample / 4 - Estimate(s), StepSize(s));
    StepSizeBounds(s);
    SampleIsEstimatePlusDifference(rate, s, CodeFor(rate, s, sample));
    if rate == R40 { EncodedDifferenceFits(Estimate(s), sample, StepSize(s)); }
  }
}
