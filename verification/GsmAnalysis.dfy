/**
 * Autocorrelation of GSM 06.10 (section 4.2.4; `crates/siphon-rtp-codec/src/gsm_fr.rs`): the frame is
 * scaled down in place, correlated at nine lags, and scaled up again.
 */
module GsmAnalysis {
  import opened Arithmetic
  import opened FixedPoint
  import opened GsmMath
  import opened PowersOfTwo

  // ---- Auto-scaling ---------------------------------------------------------------------------------

  function ScaleBits(peak: Word): int
    requires peak >= 0
  {
    if peak == 0 then 0 else 4 - Norm(peak * 65536)
  }

  /** Four bits at most are dropped, and what is left of the peak is below 2048. */
  lemma ScaleBitsFit(peak: Word)
    requires peak >= 0
    ensures ScaleBits(peak) <= 4
    ensures ScaleBits(peak) <= 0 ==> peak < 2048
    ensures ScaleBits(peak) > 0 ==> 1024 * Pow2(ScaleBits(peak)) <= peak < 2048 * Pow2(ScaleBits(peak))
  {
    hide Norm;
    hide Pow2;
    if peak > 0 {
      var n := Norm(peak * 65536);
      NormFits(peak * 65536);
      SmallPowers();
      if n >= 4 {
        Pow2Order(4, n);
        ProductOrder(16, Pow2(n), peak * 65536);
      } else if n == 0 {
        assert ScaleBits(peak) == 4;
      } else if n == 1 {
        assert ScaleBits(peak) == 3;
      } else if n == 2 {
        assert ScaleBits(peak) == 2;
      } else {
        assert ScaleBits(peak) == 1;
      }
    }
  }

  function Scaled(v: Word, bits: int): Word
    requires bits <= 4
  {
    if bits > 0 then MultR(v, 16384 / Pow2(bits - 1)) else v
  }

  /** Scaling rounds to the nearest multiple of the dropped bits. */
  lemma ScaledRounds(v: Word, bits: int)
    requires 0 < bits <= 4
    ensures Scaled(v, bits) == (v + Pow2(bits - 1)) / Pow2(bits)
  {
    SmallPowers();
  }

  /** After scaling by its own peak, a frame lies within plus or minus 2048. */
  lemma ScaledBelow(v: Word, peak: Word)
    requires Magnitude(v) <= peak
    ensures ScaleBits(peak) <= 4 && -2048 <= Scaled(v, ScaleBits(peak)) <= 2048
  {
    hide ScaleBits;
    hide MultR;
    ScaleBitsFit(peak);
    var bits := ScaleBits(peak);
    SmallPowers();
    if bits > 0 { ScaledRounds(v, bits); }
  }

  /** Scaling a whole frame, as the method does in place. */
  function ScaledFrame(s: seq<Word>, bits: int): (r: seq<Word>)
    requires bits <= 4
    ensures |r| == |s|
  {
    seq(|s|, i requires 0 <= i < |s| => Scaled(s[i], bits))
  }

  function Restored(v: Word, bits: int): Word
    requires bits <= 4
  {
    if bits > 0 then
      SmallPowers();
      Wrap16(I32(v * Pow2(bits)))
    else v
  }

  /**
   * Undoing the scaling gives the sample back to within half of the dropped bits, except that a sample
   * at the very top of the range rounds past it and wraps to the most negative word.
   */
  lemma RestoreWraps(v: Word, peak: Word)
    requires Magnitude(v) <= peak
    ensures var bits := ScaleBits(peak);
            bits <= 4 &&
            (bits > 0 ==>
               (Abs(Restored(Scaled(v, bits), bits) - v) <= Pow2(bits - 1) <==> !(bits == 4 && v >= 32760)))
  {
    hide ScaleBits;
    hide MultR;
    hide Scaled;
    ScaleBitsFit(peak);
    ScaledBelow(v, peak);
    var bits := ScaleBits(peak);
    SmallPowers();
    if bits > 0 { ScaledRounds(v, bits); }
  }

  // ---- Autocorrelation ------------------------------------------------------------------------------

  const FRAME_SAMPLES: nat := 160

  /** Sum of the products at distance `lag` over the first `n` samples. */
  function Corr(s: seq<Word>, lag: nat, n: nat): int
    requires n <= |s|
  {
    if n == 0 then 0 else Corr(s, lag, n - 1) + if lag < n then s[n - 1] as int * s[n - 1 - lag] as int else 0
  }

  predicate Within(s: seq<Word>, bound: int) {
    forall i :: 0 <= i < |s| ==> -bound <= s[i] <= bound
  }

  /** A sum of at most 160 products of scaled samples, doubled, still fits 32 bits. */
  lemma {:induction false} CorrBounded(s: seq<Word>, lag: nat, n: nat)
    requires n <= |s| && Within(s, 2048)
    ensures -(0x40_0000 * n) <= Corr(s, lag, n) <= 0x40_0000 * n
  {
    if n > 0 {
      CorrBounded(s, lag, n - 1);
      if lag < n { BoundedProduct(s[n - 1], s[n - 1 - lag], 2048, 2048); }
    }
  }

  lemma {:induction false} EnergyGrows(s: seq<Word>, m: nat, n: nat)
    requires m <= n <= |s|
    ensures 0 <= Corr(s, 0, m) <= Corr(s, 0, n)
  {
    if m < n {
      EnergyGrows(s, m, n - 1);
      SquareIsPositive(s[n - 1]);
    } else if n > 0 {
      EnergyGrows(s, n - 1, n - 1);
      SquareIsPositive(s[n - 1]);
    }
  }

  lemma SquareIsPositive(x: int)
    ensures 0 <= x * x
  {
  }

  lemma TwiceProduct(x: int, y: int)
    ensures -(x * x + y * y) <= 2 * (x * y) <= x * x + y * y
  {
    SquareIsPositive(x - y);
    SquareIsPositive(x + y);
    assert (x - y) * (x - y) == x * x - 2 * (x * y) + y * y;
    assert (x + y) * (x + y) == x * x + 2 * (x * y) + y * y;
  }

  lemma {:induction false} TwiceCorr(s: seq<Word>, lag: nat, n: nat)
    requires n <= |s|
    ensures var tail := Corr(s, 0, n) + Corr(s, 0, if lag < n then n - lag else 0);
            -tail <= 2 * Corr(s, lag, n) <= tail
  {
    if n > 0 {
      TwiceCorr(s, lag, n - 1);
      if lag < n {
        TwiceProduct(s[n - 1], s[n - 1 - lag]);
      } else {
        EnergyGrows(s, n - 1, n);
      }
    }
  }

  /** No lag correlates more than the frame's own energy. */
  lemma EnergyDominates(s: seq<Word>, lag: nat)
    ensures -Corr(s, 0, |s|) <= Corr(s, lag, |s|) <= Corr(s, 0, |s|)
  {
    TwiceCorr(s, lag, |s|);
    EnergyGrows(s, if lag < |s| then |s| - lag else 0, |s|);
  }

  /** The nine doubled sums. */
  function Sums(s: seq<Word>): (acf: seq<int>)
    ensures |acf| == 9
  {
    seq(9, lag requires 0 <= lag < 9 => 2 * Corr(s, lag, |s|))
  }

  method ScaleDown(s: array<Word>, bits: int)
    requires 0 < bits <= 4
    modifies s
    ensures s[..] == ScaledFrame(old(s[..]), bits)
  {
    SmallPowers();
    hide MultR;
    var factor: Word := 16384 / Pow2(bits - 1);
    for i := 0 to s.Length
      invariant s[i..] == old(s[i..])
      invariant forall k :: 0 <= k < i ==> s[k] == Scaled(old(s[..])[k], bits)
    {
      assert s[i] == s[i..][0] == old(s[..])[i];
      s[i] := MultR(s[i], factor);
    }
  }

  method ScaleUp(s: array<Word>, bits: int)
    requires 0 < bits <= 4
    modifies s
    ensures s[..] == seq(|old(s[..])|, i requires 0 <= i < |old(s[..])| => Restored(old(s[..])[i], bits))
  {
    SmallPowers();
    hide Wrap16;
    for i := 0 to s.Length
      invariant s[i..] == old(s[i..])
      invariant forall k :: 0 <= k < i ==> s[k] == Restored(old(s[..])[k], bits)
    {
      assert s[i] == s[i..][0] == old(s[..])[i];
      s[i] := Wrap16(I32(s[i] * Pow2(bits)));
    }
  }

  method Accumulate(s: array<Word>) returns (acf: seq<int>)
    requires s.Length == FRAME_SAMPLES && Within(s[..], 2048)
    ensures acf == Sums(s[..])
  {
    hide Corr;
    ghost var frame := s[..];
    var sums := new int[9](_ => 0);
    forall lag: nat ensures Corr(frame, lag, 0) == 0 { CorrEmpty(frame, lag); }
    for i := 0 to FRAME_SAMPLES
      invariant forall lag :: 0 <= lag < 9 ==> sums[lag] == Corr(frame, lag, i)
    {
      var taps := if i + 1 < 9 then i + 1 else 9;
      for k := 0 to taps
        invariant forall lag :: 0 <= lag < k ==> sums[lag] == Corr(frame, lag, i + 1)
        invariant forall lag :: k <= lag < 9 ==> sums[lag] == Corr(frame, lag, i)
      {
        CorrStep(frame, k, i);
        CorrBounded(frame, k, i + 1);
        CorrBounded(frame, k, i);
        sums[k] := I32(sums[k] + I32(s[i] as int * s[i - k] as int));
      }
      forall lag | taps <= lag < 9 ensures Corr(frame, lag, i + 1) == Corr(frame, lag, i) {
        CorrStep(frame, lag, i);
      }
    }
    for k := 0 to 9
      invariant forall lag :: 0 <= lag < k ==> sums[lag] == 2 * Corr(frame, lag, FRAME_SAMPLES)
      invariant forall lag :: k <= lag < 9 ==> sums[lag] == Corr(frame, lag, FRAME_SAMPLES)
    {
      CorrBounded(frame, k, FRAME_SAMPLES);
      sums[k] := I32(sums[k] * 2);
    }
    acf := sums[..];
  }

  lemma CorrEmpty(s: seq<Word>, lag: nat)
    ensures Corr(s, lag, 0) == 0
  {
  }

  lemma CorrStep(s: seq<Word>, lag: nat, n: nat)
    requires n < |s|
    ensures Corr(s, lag, n + 1) == Corr(s, lag, n) + if lag < n + 1 then s[n] as int * s[n - lag] as int else 0
  {
  }

  /** Autocorrelation of a frame, which is scaled down and back up in place around the sums. */
  method Autocorrelation(s: array<Word>) returns (acf: seq<int>)
    requires s.Length == FRAME_SAMPLES
    modifies s
    ensures var bits := ScaleBits(Peak(old(s[..]), FRAME_SAMPLES));
            && bits <= 4 && acf == Sums(ScaledFrame(old(s[..]), bits))
            && Within(ScaledFrame(old(s[..]), bits), 2048)
            && s[..] == AfterAnalysis(old(s[..]))
  {
    hide ScaleBits;
    hide Sums;
    ghost var before := s[..];
    var peak := FindPeak(s[..]);
    ScaleBitsFit(peak);
    var bits := ScaleBits(peak);
    ScaledWithin(before);
    if bits > 0 {
      ScaleDown(s, bits);
    } else {
      assert s[..] == ScaledFrame(before, bits);
    }
    acf := Accumulate(s);
    if bits > 0 { ScaleUp(s, bits); }
  }

  /** What the analysis leaves in the frame: the samples without the bits it dropped. */
  function AfterAnalysis(s: seq<Word>): (r: seq<Word>)
    ensures |r| == |s|
  {
    ScaleBitsFit(Peak(s, |s|));
    var bits := ScaleBits(Peak(s, |s|));
    seq(|s|, i requires 0 <= i < |s| => Restored(Scaled(s[i], bits), bits))
  }

  lemma ScaledWithin(s: seq<Word>)
    ensures ScaleBits(Peak(s, |s|)) <= 4 && Within(ScaledFrame(s, ScaleBits(Peak(s, |s|))), 2048)
  {
    hide ScaleBits;
    hide Scaled;
    var peak := Peak(s, |s|);
    ScaleBitsFit(peak);
    forall i | 0 <= i < |s| ensures -2048 <= Scaled(s[i], ScaleBits(peak)) <= 2048 {
      ScaledBelow(s[i], peak);
    }
  }
}
