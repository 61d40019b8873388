/**
 * One sub-band sample of G.722 (`crates/siphon-rtp-codec/src/g722.rs`) as functions on values. Every
 * product, shift and sum that the source computes in `i32` goes through `I32`, whose precondition is
 * that it fits: these definitions are well formed only because no intermediate overflows.
 */
module G722 {
  import opened Arithmetic
  import opened FixedPoint
  import opened PowersOfTwo

  const QMF_COEFFS := [3, -11, 12, 32, -210, 951, 3876, -805, 362, -156, 53, -11]

  const Q6 := [
    0, 35, 72, 110, 150, 190, 233, 276, 323, 370, 422, 473, 530, 587, 650, 714, 786, 858, 940,
    1023, 1121, 1219, 1339, 1458, 1612, 1765, 1980, 2195, 2557, 2919, 0, 0]
  const ILN := [
    0, 63, 62, 31, 30, 29, 28, 27, 26, 25, 24, 23, 22, 21, 20, 19, 18, 17, 16, 15, 14, 13, 12, 11,
    10, 9, 8, 7, 6, 5, 4, 0]
  const ILP := [
    0, 61, 60, 59, 58, 57, 56, 55, 54, 53, 52, 51, 50, 49, 48, 47, 46, 45, 44, 43, 42, 41, 40, 39,
    38, 37, 36, 35, 34, 33, 32, 0]
  const WL := [-60, -30, 58, 172, 334, 538, 1198, 3042]
  const RL42 := [0, 7, 6, 5, 4, 3, 2, 1, 7, 6, 5, 4, 3, 2, 1, 0]
  const ILB := [
    2048, 2093, 2139, 2186, 2233, 2282, 2332, 2383, 2435, 2489, 2543, 2599, 2656, 2714, 2774, 2834,
    2896, 2960, 3025, 3091, 3158, 3228, 3298, 3371, 3444, 3520, 3597, 3676, 3756, 3838, 3922, 4008]
  const QM4 := [
    0, -20456, -12896, -8968, -6288, -4240, -2584, -1200, 20456, 12896, 8968, 6288, 4240, 2584, 1200, 0]
  const QM6_NEGATIVE := [
    -136, -136, -136, -136, -24808, -21904, -19008, -16704, -14984, -13512, -12280, -11192, -10232, -9360, -8576, -7856,
    -7192, -6576, -6000, -5456, -4944, -4464, -4008, -3576, -3168, -2776, -2400, -2032, -1688, -1360, -1040, -728]
  const QM6_POSITIVE := [
    24808, 21904, 19008, 16704, 14984, 13512, 12280, 11192, 10232, 9360, 8576, 7856, 7192, 6576, 6000, 5456,
    4944, 4464, 4008, 3576, 3168, 2776, 2400, 2032, 1688, 1360, 1040, 728, 432, 136, -432, -136]
  const QM6 := QM6_NEGATIVE + QM6_POSITIVE
  const IHN := [0, 1, 0]
  const IHP := [0, 3, 2]
  const WH := [0, -214, 798]
  const RH2 := [2, 1, 2, 1]
  const QM2 := [-7408, -1616, 7408, 1616]

  // ---- One band ----------------------------------------------------------------------------------

  /** Adaptive state of one sub-band. `a` and `b` leave index 0 unused, as in the Recommendation. */
  datatype Band = Band(
    s: int, sp: int, sz: int, nb: int, det: int,
    r: seq<int>, a: seq<int>, p: seq<int>, d: seq<int>, b: seq<int>)

  function NewBand(det: int): Band {
    Band(0, 0, 0, 0, det, [0, 0, 0], [0, 0, 0], [0, 0, 0], [0, 0, 0, 0, 0, 0, 0], [0, 0, 0, 0, 0, 0, 0])
  }

  predicate AllI16(x: seq<int>) {
    forall i :: 0 <= i < |x| ==> InI16(x[i])
  }

  /** What every reachable predictor satisfies, in either band. */
  predicate PredictorOk(band: Band) {
    && |band.r| == |band.a| == |band.p| == 3 && |band.d| == |band.b| == 7
    && InI16(band.s) && InI16(band.sp) && InI16(band.sz)
    && AllI16(band.r) && AllI16(band.p) && AllI16(band.d) && AllI16(band.b)
    && -12288 <= band.a[2] <= 12288 && -(15360 - band.a[2]) <= band.a[1] <= 15360 - band.a[2]
  }

  predicate LowOk(band: Band) {
    PredictorOk(band) && 0 <= band.nb <= 18432 && 32 <= band.det <= 16384
  }

  predicate HighOk(band: Band) {
    PredictorOk(band) && 0 <= band.nb <= 22528 && 8 <= band.det <= 16384
  }

  /** UPPOL2: the second pole coefficient from the signs of the partial reconstructions. */
  function NextA2(band: Band, p0: int): (a2: int)
    requires PredictorOk(band)
    ensures -12288 <= a2 <= 12288
  {
    var sg0, sg1, sg2 := p0 / 32768, band.p[1] / 32768, band.p[2] / 32768;
    var wd1 := Saturate(I32(band.a[1] * 4));
    var wd2 := if sg0 == sg1 then -wd1 else wd1;
    var clipped := if wd2 > 32767 then 32767 else wd2;
    var wd3 := clipped / 128 + if sg0 == sg2 then 128 else -128;
    Clamp(I32(wd3 + I32(band.a[2] * 32512) / 32768), -12288, 12288)
  }

  /** UPPOL1: the first pole coefficient, kept inside the triangle the second one leaves. */
  function NextA1(band: Band, p0: int, a2: int): (a1: int)
    requires PredictorOk(band) && -12288 <= a2 <= 12288
    ensures -(15360 - a2) <= a1 <= 15360 - a2
  {
    var wd1 := if p0 / 32768 == band.p[1] / 32768 then 192 else -192;
    var wd2 := I32(band.a[1] * 32640) / 32768;
    var wd3 := Saturate(15360 - a2);
    Clamp(Saturate(I32(wd1 + wd2)), -wd3, wd3)
  }

  /** UPZERO: one zero coefficient. */
  function NextB(b: int, past: int, difference: int): (next: int)
    requires InI16(b)
    ensures InI16(next)
  {
    var leak := if difference == 0 then 0 else 128;
    var term := if past / 32768 == difference / 32768 then leak else -leak;
    Saturate(I32(term + I32(b * 32640) / 32768))
  }

  function NextZeros(band: Band, difference: int): (b: seq<int>)
    requires PredictorOk(band)
    ensures |b| == 7 && AllI16(b)
  {
    seq(7, i requires 0 <= i < 7 => if i == 0 then band.b[0] else NextB(band.b[i], band.d[i], difference))
  }

  /** FILTEP. */
  function Poles(a1: int, a2: int, r1: int, r2: int): (sp: int)
    requires -27648 <= a1 <= 27648 && -12288 <= a2 <= 12288 && InI16(r1) && InI16(r2)
    ensures InI16(sp)
  {
    PoleProduct(a1, Saturate(r1 + r1));
    PoleProduct(a2, Saturate(r2 + r2));
    Saturate(I32(I32(a1 * Saturate(I32(r1 + r1))) / 32768 + I32(a2 * Saturate(I32(r2 + r2))) / 32768))
  }

  lemma PoleProduct(a: int, x: int)
    requires -32768 <= a <= 32767 && InI16(x)
    ensures -0x4000_0000 <= a * x <= 0x4000_0000
  {
    BoundedProduct(a, x, 32768, 32768);
  }

  /** FILTEZ: the first `k` taps of the zero predictor, accumulated in 32 bits. */
  function Zeros(b: seq<int>, d: seq<int>, k: nat): (sz: int)
    requires |b| == |d| == 7 && AllI16(b) && AllI16(d) && k <= 6
    ensures -32768 * k <= sz <= 32768 * k
  {
    if k == 0 then 0
    else
      PoleProduct(b[k], Saturate(d[k] + d[k]));
      I32(Zeros(b, d, k - 1) + I32(b[k] * Saturate(I32(d[k] + d[k]))) / 32768)
  }

  /** The shared predictor update of one band for its reconstructed difference. */
  function Block4(band: Band, difference: int): (next: Band)
    requires PredictorOk(band) && InI16(difference)
    ensures PredictorOk(next) && next.nb == band.nb && next.det == band.det
  {
    var r0, p0 := Saturate(I32(band.s + difference)), Saturate(I32(band.sz + difference));
    var a2 := NextA2(band, p0);
    var a1 := NextA1(band, p0, a2);
    var b := NextZeros(band, difference);
    var d := [difference, difference] + band.d[1..6];
    var sp := Poles(a1, a2, r0, band.r[1]);
    var sz := Saturate(Zeros(b, d, 6));
    Band(Saturate(I32(sp + sz)), sp, sz, band.nb, band.det,
         [r0, r0, band.r[1]], [band.a[0], a1, a2], [p0, p0, band.p[1]], d, b)
  }

  // ---- Scale factors --------------------------------------------------------------------------------

  /** The linear scale factor of a log scale factor (SCALEL with shift 8, SCALEH with shift 10). */
  function Scale(nb: int, shift: int): int
    requires 0 <= nb <= 2048 * (shift + 1) && 0 <= shift <= 10
  {
    var amount := shift - nb / 2048;
    var level := ILB[nb / 64 % 32];
    (if amount < 0 then level * Pow2(-amount) else level / Pow2(amount)) * 4
  }

  lemma ScaleBounds(nb: int, shift: int)
    requires 0 <= nb <= 2048 * (shift + 1) && (shift == 8 || shift == 10)
    ensures (if shift == 8 then 32 else 8) <= Scale(nb, shift) <= 16384
  {
    hide Pow2;
    SmallPowers();
    var amount := shift - nb / 2048;
    ScaleLevels(nb / 64 % 32);
    if amount < 0 {
      assert nb == 2048 * (shift + 1);
    } else {
      Pow2Order(amount, shift);
      QuotientBetween(ILB[nb / 64 % 32], Pow2(amount), if shift == 8 then 8 else 2, 4096);
    }
  }

  lemma ScaleLevels(i: int)
    requires 0 <= i < 32
    ensures 2048 <= ILB[i] <= 4008 && ILB[0] == 2048
  {
  }

  // ---- Codes and adaptation of a band ----------------------------------------------------------------

  function FoldedMagnitude(e: int): (m: int)
    requires InI16(e)
    ensures 0 <= m <= 32767
  {
    if e >= 0 then e else -(e + 1)
  }

  /** QUANTL: the first decision interval from `from` on whose upper edge exceeds the magnitude. */
  function LowInterval(magnitude: int, det: int, from: nat): (i: nat)
    requires 1 <= from <= 30 && 0 <= det <= 16384
    ensures from <= i <= 30
    ensures forall k :: from <= k < i ==> Q6[k] * det / 4096 <= magnitude
    ensures i < 30 ==> magnitude < Q6[i] * det / 4096
    decreases 30 - from
  {
    if from == 30 || magnitude < Edge(from, det) then from else LowInterval(magnitude, det, from + 1)
  }

  function Edge(interval: nat, det: int): int
    requires interval < 30 && 0 <= det <= 16384
  {
    BoundedProduct(Q6[interval], det, 2919, 16384);
    I32(Q6[interval] * det) / 4096
  }

  lemma LowCodewords(interval: nat)
    requires 1 <= interval <= 30
    ensures 4 <= ILN[interval] < 64 && 4 <= ILP[interval] < 64
  {
  }

  /** QUANTL's codeword of a decision interval, by the sign of the difference. */
  function Codeword(interval: nat, negative: bool): (code: int)
    requires 1 <= interval <= 30
    ensures 4 <= code < 64
  {
    LowCodewords(interval);
    if negative then ILN[interval] else ILP[interval]
  }

  /** INVQBL's level of a six-bit code. */
  function FineLevel(code: int): (level: int)
    requires 0 <= code < 64
    ensures -24808 <= level <= 24808
  {
    FineLevels(code);
    QM6[code]
  }

  lemma FineLevels(code: int)
    requires 0 <= code < 64
    ensures -24808 <= QM6[code] <= 24808
  {
    assert forall k :: 0 <= k < 32 ==> -24808 <= QM6_NEGATIVE[k] <= 24808;
    assert forall k :: 0 <= k < 32 ==> -24808 <= QM6_POSITIVE[k] <= 24808;
  }

  function LowCode(band: Band, xlow: int): (code: int)
    requires LowOk(band) && -65536 <= xlow <= 65536
    ensures 4 <= code < 64
  {
    var el := Saturate(I32(xlow - band.s));
    Codeword(LowInterval(FoldedMagnitude(el), band.det, 1), el < 0)
  }

  function HighCode(band: Band, xhigh: int): (code: int)
    requires HighOk(band) && -65536 <= xhigh <= 65536
    ensures 0 <= code < 4
  {
    var eh := Saturate(I32(xhigh - band.s));
    var mih := if FoldedMagnitude(eh) >= I32(564 * band.det) / 4096 then 2 else 1;
    if eh < 0 then IHN[mih] else IHP[mih]
  }

  function LowDifference(band: Band, code: int): (d: int)
    requires LowOk(band) && 0 <= code < 64
    ensures InI16(d)
  {
    BoundedProduct(band.det, QM4[code / 4], 16384, 20456);
    I32(band.det * QM4[code / 4]) / 32768
  }

  function HighDifference(band: Band, code: int): (d: int)
    requires HighOk(band) && 0 <= code < 4
    ensures InI16(d)
  {
    BoundedProduct(band.det, QM2[code], 16384, 7408);
    I32(band.det * QM2[code]) / 32768
  }

  function NextLowNb(nb: int, code: int): (next: int)
    requires 0 <= nb <= 18432 && 0 <= code < 64
    ensures 0 <= next <= 18432
  {
    Clamp(I32(I32(nb * 127) / 128 + WL[RL42[code / 4]]), 0, 18432)
  }

  function NextHighNb(nb: int, code: int): (next: int)
    requires 0 <= nb <= 22528 && 0 <= code < 4
    ensures 0 <= next <= 22528
  {
    Clamp(I32(I32(nb * 127) / 128 + WH[RH2[code]]), 0, 22528)
  }

  /** The low band after a 6-bit code: only its top four bits drive the adaptation. */
  function LowStep(band: Band, code: int): (next: Band)
    requires LowOk(band) && 0 <= code < 64
    ensures LowOk(next)
  {
    var nb := NextLowNb(band.nb, code);
    ScaleBounds(nb, 8);
    Block4(band.(nb := nb, det := Scale(nb, 8)), LowDifference(band, code))
  }

  function HighStep(band: Band, code: int): (next: Band)
    requires HighOk(band) && 0 <= code < 4
    ensures HighOk(next)
  {
    var nb := NextHighNb(band.nb, code);
    ScaleBounds(nb, 10);
    Block4(band.(nb := nb, det := Scale(nb, 10)), HighDifference(band, code))
  }

  /** The reconstructed low-band sample: all six bits, limited to 15. */
  function LowSample(band: Band, code: int): (r: int)
    requires LowOk(band) && 0 <= code < 64
    ensures -16384 <= r <= 16383
  {
    BoundedProduct(band.det, FineLevel(code), 16384, 24808);
    Clamp(I32(band.s + I32(band.det * FineLevel(code)) / 32768), -16384, 16383)
  }

  function HighSample(band: Band, code: int): (r: int)
    requires HighOk(band) && 0 <= code < 4
    ensures -16384 <= r <= 16383
  {
    Clamp(I32(HighDifference(band, code) + band.s), -16384, 16383)
  }

  // ---- What a code tells the decoder -----------------------------------------------------------------

  /** Each fine level lies between the two decision levels of its own interval, on both signs. */
  lemma LevelsInIntervals(i: nat)
    requires 1 <= i <= 30
    ensures FineLevel(Codeword(i, true)) == -FineLevel(Codeword(i, false))
    ensures 8 * Q6[i - 1] <= FineLevel(Codeword(i, false)) && (i < 30 ==> FineLevel(Codeword(i, false)) <= 8 * Q6[i])
    ensures i == 30 ==> FineLevel(Codeword(i, false)) == 24808
  {
    hide FineLevel;
    hide Codeword;
    LevelOfInterval(i);
    LevelsAbove(i);
    if i < 30 { LevelsBelow(i); }
  }

  lemma LevelOfInterval(i: nat)
    requires 1 <= i <= 30
    ensures FineLevel(Codeword(i, false)) == QM6_POSITIVE[30 - i]
    ensures FineLevel(Codeword(i, true)) == -QM6_POSITIVE[30 - i]
  {
    hide FineLevel;
    PositiveCodes(i);
    NegativeCodes(i);
    LevelOfCode(62 - i);
    LevelOfCode(Codeword(i, true));
    if i >= 3 { LevelsMirrored(34 - i); }
  }

  lemma LevelOfCode(code: int)
    requires 0 <= code < 64
    ensures FineLevel(code) == if code < 32 then QM6_NEGATIVE[code] else QM6_POSITIVE[code - 32]
  {
  }

  lemma PositiveCodes(i: nat)
    requires 1 <= i <= 30
    ensures ILP[i] == 62 - i
  {
  }

  lemma NegativeCodes(i: nat)
    requires 1 <= i <= 30
    ensures ILN[i] == if i < 3 then 64 - i else 34 - i
  {
  }

  lemma LevelsAbove(i: nat)
    requires 1 <= i <= 30
    ensures 8 * Q6[i - 1] <= QM6_POSITIVE[30 - i]
  {
  }

  lemma LevelsBelow(i: nat)
    requires 1 <= i < 30
    ensures QM6_POSITIVE[30 - i] <= 8 * Q6[i]
  {
  }

  lemma LevelsMirrored(code: nat)
    requires 4 <= code < 32
    ensures QM6_NEGATIVE[code] == -QM6_POSITIVE[code - 4]
  {
  }

  /** Scaling keeps the order: a level above a decision level stays at or above its edge, on both signs. */
  lemma ScaledLevel(level: int, det: nat, q: int)
    requires 8 * q <= level
    ensures q * det / 4096 <= det * level / 32768 && -(det * level) / 32768 <= -(q * det / 4096)
  {
    assert det * level == 8 * (q * det) + det * (level - 8 * q);
    assert det * (level - 8 * q) >= 0;
  }

  lemma ScaledLevelBelow(level: int, det: nat, q: int)
    requires level <= 8 * q
    ensures det * level / 32768 <= q * det / 4096 && -(q * det / 4096) - 1 <= -(det * level) / 32768
  {
    assert 8 * (q * det) == det * level + det * (8 * q - level);
    assert det * (8 * q - level) >= 0;
  }

  /**
   * How far a difference can be from its code's level: the width of its decision interval, and in the
   * open outermost one the larger of the difference and the top level, measured from its inner edge.
   */
  function Reach(e: int, det: int): int
    requires InI16(e) && 0 <= det <= 16384
  {
    var i := LowInterval(FoldedMagnitude(e), det, 1);
    if i < 30 then Edge(i, det) - Edge(i - 1, det)
    else Larger(FoldedMagnitude(e), det * 24808 / 32768) - Edge(29, det)
  }

  function Larger(x: int, y: int): int {
    if x < y then y else x
  }

  /**
   * The decoder's fine difference lands in the decision interval the encoder's own difference fell in,
   * so for every input the two are no further apart than that interval reaches, plus one for the sign.
   */
  lemma LowDifferenceError(band: Band, xlow: int)
    requires LowOk(band) && -65536 <= xlow <= 65536
    ensures InI16(Saturate(xlow - band.s))
    ensures var e := Saturate(xlow - band.s);
            Abs(e - band.det * FineLevel(LowCode(band, xlow)) / 32768) <= Reach(e, band.det) + 1
  {
    hide PredictorOk;
    hide LowInterval;
    hide Edge;
    hide Codeword;
    hide FineLevel;
    PredictionInRange(band);
    var e := Saturate(xlow - band.s);
    var i := LowInterval(FoldedMagnitude(e), band.det, 1);
    IntervalStart(FoldedMagnitude(e), band.det, i);
    if i < 30 { WithinInterval(e, band.det, i); } else { WithinOverload(e, band.det); }
  }

  /** A difference and its interval's level differ by at most the interval's width, up to rounding. */
  lemma WithinInterval(e: int, det: int, i: nat)
    requires InI16(e) && 0 <= det <= 16384 && 1 <= i < 30
    requires Edge(i - 1, det) <= FoldedMagnitude(e) < Edge(i, det)
    ensures Abs(e - det * FineLevel(Codeword(i, e < 0)) / 32768) <= Edge(i, det) - Edge(i - 1, det) + 1
  {
    hide Codeword;
    hide FineLevel;
    var level := FineLevel(Codeword(i, false));
    LevelsInIntervals(i);
    ScaledLevel(level, det, Q6[i - 1]);
    ScaledLevelBelow(level, det, Q6[i]);
    NegatedProduct(det, level);
  }

  /** In overload both lie beyond the last edge. */
  lemma WithinOverload(e: int, det: int)
    requires InI16(e) && 0 <= det <= 16384 && Edge(29, det) <= FoldedMagnitude(e)
    ensures Abs(e - det * FineLevel(Codeword(30, e < 0)) / 32768)
         <= Larger(FoldedMagnitude(e), det * 24808 / 32768) - Edge(29, det) + 1
  {
    hide Codeword;
    hide FineLevel;
    LevelsInIntervals(30);
    ScaledLevel(24808, det, Q6[29]);
    NegatedProduct(det, 24808);
  }

  lemma PredictionInRange(band: Band)
    requires PredictorOk(band)
    ensures InI16(band.s)
  {
  }

  lemma IntervalStart(magnitude: int, det: int, i: nat)
    requires 0 <= magnitude && 0 <= det <= 16384 && i == LowInterval(magnitude, det, 1)
    ensures Edge(i - 1, det) <= magnitude && (i < 30 ==> magnitude < Edge(i, det))
  {
    hide LowInterval;
  }

  /**
   * The decoded low-band sample follows the (limited) input: for every band state and input it is off by
   * no more than the interval's reach, plus whatever the 16-bit difference itself had to cut off.
   */
  lemma LowSampleTracksInput(band: Band, xlow: int)
    requires LowOk(band) && -65536 <= xlow <= 65536
    ensures InI16(Saturate(xlow - band.s))
    ensures var e := Saturate(xlow - band.s);
            Abs(Clamp(xlow, -16384, 16383) - LowSample(band, LowCode(band, xlow)))
              <= Reach(e, band.det) + 1 + Abs(xlow - band.s - e)
  {
    LowDifferenceError(band, xlow);
    hide FineLevel;
    hide LowCode;
    hide Reach;
    hide LowOk;
  }

  /** The same for the two intervals of the high band. */
  function HighReach(e: int, det: int): int
    requires InI16(e) && 0 <= det <= 16384
  {
    var edge := 564 * det / 4096;
    if FoldedMagnitude(e) < edge then edge else Larger(FoldedMagnitude(e), det * 7408 / 32768) - edge
  }

  lemma HighDifferenceError(band: Band, xhigh: int)
    requires HighOk(band) && -65536 <= xhigh <= 65536
    ensures InI16(Saturate(xhigh - band.s))
    ensures var e := Saturate(xhigh - band.s);
            Abs(e - HighDifference(band, HighCode(band, xhigh))) <= HighReach(e, band.det) + 1
  {
    hide PredictorOk;
    PredictionInRange(band);
    var det := band.det;
    ScaledLevel(1616, det, 0);
    ScaledLevelBelow(1616, det, 564);
    ScaledLevel(7408, det, 564);
    NegatedProduct(det, 1616);
    NegatedProduct(det, 7408);
  }

  lemma HighSampleTracksInput(band: Band, xhigh: int)
    requires HighOk(band) && -65536 <= xhigh <= 65536
    ensures InI16(Saturate(xhigh - band.s))
    ensures var e := Saturate(xhigh - band.s);
            Abs(Clamp(xhigh, -16384, 16383) - HighSample(band, HighCode(band, xhigh)))
              <= HighReach(e, band.det) + 1 + Abs(xhigh - band.s - e)
  {
    HighDifferenceError(band, xhigh);
    hide HighDifference;
    hide HighCode;
    hide HighReach;
    hide HighOk;
  }

  // ---- Both bands and the QMF --------------------------------------------------------------------------

  datatype Bands = Bands(low: Band, high: Band)

  const RESET := Bands(NewBand(32), NewBand(8))

  predicate BandsOk(bands: Bands) {
    LowOk(bands.low) && HighOk(bands.high)
  }

  /** Both bands after one code byte: six low-band bits, two high-band bits on top. */
  function BandsAfter(bands: Bands, code: int): (next: Bands)
    requires BandsOk(bands) && 0 <= code < 256
    ensures BandsOk(next)
  {
    Bands(LowStep(bands.low, code % 64), HighStep(bands.high, code / 64))
  }

  function CodeFor(bands: Bands, xlow: int, xhigh: int): int
    requires BandsOk(bands) && -65536 <= xlow <= 65536 && -65536 <= xhigh <= 65536
  {
    HighCode(bands.high, xhigh) * 64 + LowCode(bands.low, xlow)
  }

  /** The decoder's mask and shift take the byte apart into the two codes the encoder chose. */
  lemma CodeSplits(bands: Bands, xlow: int, xhigh: int)
    requires BandsOk(bands) && -65536 <= xlow <= 65536 && -65536 <= xhigh <= 65536
    ensures 0 <= CodeFor(bands, xlow, xhigh) < 256
    ensures CodeFor(bands, xlow, xhigh) % 64 == LowCode(bands.low, xlow)
    ensures CodeFor(bands, xlow, xhigh) / 64 == HighCode(bands.high, xhigh)
  {
    hide LowCode;
    hide HighCode;
    hide LowOk;
    hide HighOk;
  }

  /** Sum of the first `k` coefficient magnitudes, from either end of the table. */
  function CoeffSum(k: nat, reversed: bool): nat
    requires k <= 12
  {
    if k == 0 then 0 else CoeffSum(k - 1, reversed) + Abs(QMF_COEFFS[if reversed then 12 - k else k - 1])
  }

  lemma CoeffTotal(k: nat, reversed: bool)
    requires k <= 12
    ensures CoeffSum(k, reversed) <= 6482
  {
    CoeffForward();
    CoeffBackward();
    CoeffGrows(k, reversed);
  }

  lemma CoeffForward()
    ensures CoeffSum(12, false) == 6482
  {
    assert CoeffSum(4, false) == 58;
    assert CoeffSum(8, false) == 5900;
  }

  lemma CoeffBackward()
    ensures CoeffSum(12, true) == 6482
  {
    assert CoeffSum(4, true) == 582;
    assert CoeffSum(8, true) == 6424;
  }

  lemma {:induction false} CoeffGrows(k: nat, reversed: bool)
    requires k <= 12
    ensures CoeffSum(k, reversed) <= CoeffSum(12, reversed)
    decreases 12 - k
  {
    if k < 12 { CoeffGrows(k + 1, reversed); }
  }

  /** One polyphase sum of the QMF delay line: even slots with the table, odd slots with it reversed. */
  function QmfSum(history: seq<int>, odd: bool, k: nat): (sum: int)
    requires |history| == 24 && AllI16(history) && k <= 12
    ensures -32768 * CoeffSum(k, odd) <= sum <= 32768 * CoeffSum(k, odd)
  {
    if k == 0 then 0
    else
      var c := QMF_COEFFS[if odd then 12 - k else k - 1];
      var x := history[2 * (k - 1) + if odd then 1 else 0];
      BoundedProduct(x, c, 32768, Abs(c));
      CoeffTotal(k, odd);
      I32(QmfSum(history, odd, k - 1) + I32(x * c))
  }

  lemma QmfBounds(history: seq<int>, odd: bool)
    requires |history| == 24 && AllI16(history)
    ensures -32768 * 6482 <= QmfSum(history, odd, 12) <= 32768 * 6482
  {
    CoeffTotal(12, odd);
  }

  /** The delay line after two new samples. */
  function Shifted(history: seq<int>, first: int, second: int): (h: seq<int>)
    requires |history| == 24 && AllI16(history) && InI16(first) && InI16(second)
    ensures |h| == 24 && AllI16(h)
  {
    history[2..] + [first, second]
  }

  function LowInput(history: seq<int>): (x: int)
    requires |history| == 24 && AllI16(history)
    ensures -65536 <= x <= 65536
  {
    QmfBounds(history, true);
    QmfBounds(history, false);
    I32(QmfSum(history, true, 12) + QmfSum(history, false, 12)) / 16384
  }

  function HighInput(history: seq<int>): (x: int)
    requires |history| == 24 && AllI16(history)
    ensures -65536 <= x <= 65536
  {
    QmfBounds(history, true);
    QmfBounds(history, false);
    I32(QmfSum(history, true, 12) - QmfSum(history, false, 12)) / 16384
  }
}
