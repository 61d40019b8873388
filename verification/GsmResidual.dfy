/**
 * How the pieces of a GSM 06.10 sub-frame and frame fit together (`crates/siphon-rtp-codec/src/gsm_fr.rs`):
 * the weighting filter against its impulse response, the local decoder against the residual it codes, and
 * the two sets of ratios that a frame is interpolated between.
 */
module GsmResidual {
  import opened Arithmetic
  import opened FixedPoint
  import opened GsmApcm
  import opened GsmFrame
  import opened GsmLar
  import opened GsmLongTerm
  import opened GsmMath
  import opened GsmStream

  // ---- The weighting filter -----------------------------------------------------------------------------------

  /** The whole impulse response of section 4.2.13, with its two zeros. */
  const RESPONSE: seq<int> := [-134, -374, 0, 2054, 5741, 8192, 5741, 2054, 0, -374, -134]

  /** The response is symmetric, so the filter delays all frequencies alike. */
  lemma ResponseIsSymmetric(i: nat)
    requires i <= 10
    ensures RESPONSE[10 - i] == RESPONSE[i]
  {
  }

  /** Convolution with the first `n` values of the response. */
  function Convolved(e: seq<Word>, k: nat, n: nat): int
    requires |e| == 50 && k < 40 && n <= 11
  {
    if n == 0 then 0 else Convolved(e, k, n - 1) + RESPONSE[n - 1] * e[k + n - 1]
  }

  lemma ConvolvedStep(e: seq<Word>, k: nat, n: nat, h: int)
    requires |e| == 50 && k < 40 && 1 <= n <= 11 && h == RESPONSE[n - 1]
    ensures Convolved(e, k, 0) == 0 && Convolved(e, k, n) == Convolved(e, k, n - 1) + h * e[k + n - 1]
  {
  }

  lemma WeightedStep(e: seq<Word>, k: nat, n: nat, at: nat, h: int)
    requires |e| == 50 && k < 40 && 1 <= n <= 9 && at == TAP_AT[n - 1] && h == TAP[n - 1]
    ensures Weighted(e, k, 0) == 4096 && Weighted(e, k, n) == Weighted(e, k, n - 1) + h * e[k + at]
  {
    hide TapTotal;
    var x: int := e[k + at];
    Commuted(x, h);
  }

  lemma FirstHalf(e: seq<Word>, k: nat)
    requires |e| == 50 && k < 40
    ensures Weighted(e, k, 5) == Convolved(e, k, 6) + 4096
  {
    hide Weighted;
    hide Convolved;
    ConvolvedStep(e, k, 1, -134); ConvolvedStep(e, k, 2, -374); ConvolvedStep(e, k, 3, 0);
    ConvolvedStep(e, k, 4, 2054); ConvolvedStep(e, k, 5, 5741); ConvolvedStep(e, k, 6, 8192);
    WeightedStep(e, k, 1, 0, -134); WeightedStep(e, k, 2, 1, -374); WeightedStep(e, k, 3, 3, 2054);
    WeightedStep(e, k, 4, 4, 5741); WeightedStep(e, k, 5, 5, 8192);
  }

  /** The nine products and the rounding are a convolution with the response. */
  lemma WeightingIsConvolution(e: seq<Word>, k: nat)
    requires |e| == 50 && k < 40
    ensures Weighted(e, k, 9) == Convolved(e, k, 11) + 4096
    ensures WeightedBlock(e)[k] == Saturate((Convolved(e, k, 11) + 4096) / 8192)
  {
    hide Weighted;
    hide Convolved;
    FirstHalf(e, k);
    ConvolvedStep(e, k, 7, 5741); ConvolvedStep(e, k, 8, 2054); ConvolvedStep(e, k, 9, 0);
    ConvolvedStep(e, k, 10, -374); ConvolvedStep(e, k, 11, -134);
    WeightedStep(e, k, 6, 6, 5741); WeightedStep(e, k, 7, 7, 2054);
    WeightedStep(e, k, 8, 9, -374); WeightedStep(e, k, 9, 10, -134);
  }

  // ---- The local decoder ----------------------------------------------------------------------------------------

  /**
   * What both ends reconstruct of a sub-frame is off by no more than what its pulses are off from the
   * prediction error they code, word for word, where that error fits 16 bits.
   */
  lemma ReconstructionError(d: seq<Word>, window: seq<Word>, p: Pulses, k: nat)
    requires |d| == 40 && |window| == 120 && p == SubFrameFor(d, window) && k < 40
    ensures var prediction := Prediction(window, p.nc, p.bc);
            InI16(d[k] as int - prediction[k] as int) ==>
              Abs(Reconstructed(window, p.nc, p)[k] as int - d[k] as int)
                <= Abs(Excitation(p)[k] as int - LtpResidual(d, prediction)[k] as int)
  {
    hide SubFrameFor;
    hide Excitation;
    hide PredictedWord;
  }

  /** Off its grid a sub-frame has no pulses; on it, the decoded ones. */
  lemma ExcitationOnGrid(p: Pulses, k: nat)
    requires PulsesFit(p) && k < 40
    ensures var pulses := DecodedPulses(p.x, p.xmaxc);
            if k >= p.mc && (k - p.mc) % 3 == 0 && (k - p.mc) / 3 < 13
            then Excitation(p)[k] == pulses[(k - p.mc) / 3] else Excitation(p)[k] == 0
  {
    hide DecodedPulses;
  }

  // ---- The ratios of successive frames ----------------------------------------------------------------------------

  /** A frame is interpolated from the ratios of the frame before it to its own. */
  lemma FramesInterpolate(r: Ratios, before: seq<Word>, larc: seq<Word>, region: nat)
    requires RatiosOk(r) && |before| == |larc| == 8 && region < 4
    ensures FrameCoefficients(NextRatios(r, before), larc)[region]
         == RegionCoefficients(DecodedLars(before), DecodedLars(larc), region)
  {
    hide DecodedLars;
    hide RegionCoefficients;
  }
}
