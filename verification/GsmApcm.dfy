/**
 * Adaptive quantization of the RPE pulses of GSM 06.10 (sections 4.2.15 and 4.2.16;
 * `crates/siphon-rtp-codec/src/gsm_fr.rs`): the block maximum with its exponent and mantissa, the
 * three-bit pulse codes, and the decoder's pulses.
 */
module GsmApcm {
  import opened Arithmetic
  import opened FixedPoint
  import opened GsmMath
  import opened PowersOfTwo

  const GSM_NRFAC: seq<Word> := [29128, 26215, 23832, 21846, 20165, 18725, 17476, 16384]
  const GSM_FAC: seq<Word> := [18431, 20479, 22527, 24575, 26623, 28671, 30719, 32767]

  // ---- The block maximum ------------------------------------------------------------------------------

  /** Octaves of the maximum above 512. */
  function BlockExponent(xmax: int): (e: nat)
    requires 0 <= xmax < 0x8000
    ensures e <= 6
  {
    if xmax < 512 then 0 else if xmax < 1024 then 1 else if xmax < 2048 then 2 else if xmax < 4096 then 3
    else if xmax < 8192 then 4 else if xmax < 16384 then 5 else 6
  }

  function BlockCode(xmax: int): (c: int)
    requires 0 <= xmax < 0x8000
    ensures 0 <= c <= 63
  {
    SmallPowers();
    xmax / Pow2(BlockExponent(xmax) + 5) + 8 * BlockExponent(xmax)
  }

  /** Exponent and mantissa of a block code; codes below 8 are normalized upwards. */
  function Exponent(c: int): (e: int)
    requires 0 <= c <= 63
    ensures -4 <= e <= 6
  {
    if c > 15 then c / 8 - 1
    else if c >= 8 then 0 else if c >= 4 then -1 else if c >= 2 then -2 else if c == 1 then -3 else -4
  }

  function Mantissa(c: int): (m: int)
    requires 0 <= c <= 63
    ensures 0 <= m <= 7
  {
    if c > 15 then c % 8
    else if c >= 8 then c - 8 else if c >= 4 then 2 * c - 7 else if c >= 2 then 4 * c - 5 else 7
  }

  /** The unit of the pulses before normalization: `2^(6 - exponent)` brings them to a common scale. */
  function Shift(c: int): (s: nat)
    requires 0 <= c <= 63
    ensures 1 <= s <= 1024
  {
    SmallPowers();
    Pow2(6 - Exponent(c))
  }

  /** The maximum of a block lies below the ceiling its code stands for, in normalized units. */
  lemma BlockBelowCeiling(xmax: int)
    requires 0 <= xmax < 0x8000
    ensures var c := BlockCode(xmax); (xmax + 1) * Shift(c) <= (Mantissa(c) + 9) * 2048
  {
    if xmax < 512 { SmallBlock(xmax); } else { LargeBlock(xmax); }
  }

  lemma SmallBlock(xmax: int)
    requires 0 <= xmax < 512
    ensures var c := BlockCode(xmax); (xmax + 1) * Shift(c) <= (Mantissa(c) + 9) * 2048
  {
    SmallPowers();
    assert BlockCode(xmax) == xmax / 32;
  }

  lemma LargeBlock(xmax: int)
    requires 512 <= xmax < 0x8000
    ensures var c := BlockCode(xmax); (xmax + 1) * Shift(c) <= (Mantissa(c) + 9) * 2048
  {
    hide Shift;
    hide Pow2;
    var e, c := BlockExponent(xmax), BlockCode(xmax);
    Leading(xmax);
    OctaveShift(c, e);
    QuotientCeiling(xmax, Pow2(e + 5), Shift(c));
  }

  lemma QuotientCeiling(x: int, unit: nat, s: nat)
    requires unit > 0 && unit * s == 2048
    ensures (x + 1) * s <= (x / unit + 1) * 2048
  {
    var q := x / unit;
    assert x == q * unit + x % unit;
    assert (q + 1) * unit == q * unit + unit;
    ProductOrder(x + 1, (q + 1) * unit, s);
    Regroup(q + 1, unit, s);
  }

  lemma Regroup(a: int, b: int, c: int)
    ensures a * b * c == a * (b * c)
  {
  }

  lemma Leading(xmax: int)
    requires 512 <= xmax < 0x8000
    ensures var e := BlockExponent(xmax);
            1 <= e && 8 <= xmax / Pow2(e + 5) < 16 && BlockCode(xmax) == xmax / Pow2(e + 5) + 8 * e
  {
    SmallPowers();
  }

  lemma OctaveShift(c: int, e: nat)
    requires 1 <= e <= 6 && 8 * e + 8 <= c < 8 * e + 16
    ensures Exponent(c) == e && Mantissa(c) == c - 8 * e - 8 && Pow2(e + 5) * Shift(c) == 2048
  {
    SmallPowers();
  }

  /** A larger maximum never gets a smaller code: the code is a monotone scale. */
  lemma BlockCodeMonotone(x: int, y: int)
    requires 0 <= x <= y < 0x8000
    ensures BlockCode(x) <= BlockCode(y)
  {
    SmallPowers();
    if BlockExponent(x) < BlockExponent(y) { BlockCodeRange(x); BlockCodeRange(y); }
  }

  lemma BlockCodeRange(x: int)
    requires 0 <= x < 0x8000
    ensures var e := BlockExponent(x); BlockCode(x) <= 8 * e + 15 && (e > 0 ==> 8 * e + 8 <= BlockCode(x))
  {
    SmallPowers();
  }

  /** The exponent by the source's counting loop. */
  method FindExponent(xmax: Word) returns (exp: nat)
    requires xmax >= 0
    ensures exp == BlockExponent(xmax)
  {
    hide Pow2;
    exp := 0;
    var temp := xmax / 512;
    var itest := false;
    SmallPowers();
    for i := 0 to 6
      invariant exp <= i && temp == xmax / 512 / Pow2(i)
      invariant !itest ==> exp == i && (i > 0 ==> xmax >= 256 * Pow2(i))
      invariant itest ==> xmax < 512 * Pow2(exp) && (exp > 0 ==> xmax >= 256 * Pow2(exp))
    {
      Halving(xmax, i);
      itest := itest || temp <= 0;
      temp := temp / 2;
      if !itest { exp := exp + 1; }
    }
    Octave(xmax, exp);
  }

  lemma Halving(xmax: int, i: nat)
    requires 0 <= xmax && i < 6
    ensures xmax / 512 / Pow2(i) / 2 == xmax / 512 / Pow2(i + 1) && Pow2(i + 1) == 2 * Pow2(i)
    ensures xmax / 512 / Pow2(i) <= 0 <==> xmax < 512 * Pow2(i)
  {
    SmallPowers();
  }

  lemma Octave(xmax: int, e: nat)
    requires 0 <= xmax < 0x8000 && e <= 6 && xmax < 512 * Pow2(e) && (e > 0 ==> xmax >= 256 * Pow2(e))
    ensures e == BlockExponent(xmax)
  {
    SmallPowers();
  }

  /** How far a small code has been shifted up. */
  predicate Halfway(c: int, exp: int, mant: int) {
    || (exp == 0 && mant == c)
    || (exp == -1 && mant == 2 * c + 1 && c <= 7)
    || (exp == -2 && mant == 4 * c + 3 && c <= 3)
    || (exp == -3 && mant == 15 && c == 1)
  }

  /** Exponent and mantissa by the source's normalizing loop. */
  method ToExponentAndMantissa(c: int) returns (exp: int, mant: int)
    requires 0 <= c <= 63
    ensures exp == Exponent(c) && mant == Mantissa(c)
  {
    exp := 0;
    if c > 15 { exp := c / 8 - 1; }
    mant := c - exp * 8;
    if mant == 0 {
      return -4, 7;
    }
    while mant <= 7
      invariant c > 15 ==> exp == c / 8 - 1 && mant == c - exp * 8
      invariant c <= 15 ==> 1 <= mant <= 15 && Halfway(c, exp, mant)
      decreases 16 - mant
    {
      mant := mant * 2 + 1;
      exp := exp - 1;
    }
    mant := mant - 8;
  }

  // ---- Pulses -----------------------------------------------------------------------------------------

  /** The three-bit code of a pulse in a block. */
  function PulseCode(x: Word, c: int): Word
    requires 0 <= c <= 63
  {
    BoundedProduct(x, Shift(c), 0x8000, 1024);
    Mult(Wrap16(I32(x * Shift(c))), GSM_NRFAC[Mantissa(c)]) / 4096 + 4
  }

  /** The decoder's pulse for a code. */
  function Pulse(code: Word, c: int): Word
    requires 0 <= c <= 63 && 0 <= code <= 7
  {
    var shift := Sub(6, Exponent(c));
    var half := Asl(1, Sub(shift, 1));
    Asr(Add(MultR(GSM_FAC[Mantissa(c)], Wrap16(I32((code * 2 - 7) * 4096))), half), shift)
  }

  /** A pulse no larger than its block's maximum normalizes without wrapping. */
  lemma PulseNormalizes(x: Word, xmax: Word)
    requires Magnitude(x) <= xmax
    ensures var c := BlockCode(xmax);
            var ceiling := (Mantissa(c) + 9) * 2048;
            && -ceiling <= x * Shift(c) && (x != -0x8000 ==> -ceiling + Shift(c) <= x * Shift(c))
            && x * Shift(c) <= ceiling - Shift(c) && ceiling <= 0x8000 && InI16(x * Shift(c))
  {
    hide BlockCode;
    hide Shift;
    hide Mantissa;
    BlockBelowCeiling(xmax);
    var c := BlockCode(xmax);
    var s := Shift(c);
    ProductOrder(x, xmax, s);
    ProductOrder(-(xmax + 1), x, s);
    if x != -0x8000 { ProductOrder(-xmax, x, s); NegatedProduct(s, xmax); }
    NegatedProduct(s, xmax + 1);
    assert (xmax + 1) * s == xmax * s + s;
  }

  /** The full-scale block is the only one that holds the most negative word. */
  lemma FullScale()
    ensures BlockCode(0x7FFF) == 63 && Mantissa(63) == 7 && Exponent(63) == 6 && Shift(63) == 1
  {
    SmallPowers();
  }

  /** Each mantissa's factor is the reciprocal of its ceiling, to within what one unit of pulse leaves. */
  lemma Reciprocal(m: int, t: int, unit: int)
    requires 0 <= m <= 7 && unit >= 1
    requires -(m + 9) * 2048 + unit <= t <= (m + 9) * 2048 - unit
    ensures -0x2000_0000 <= t * GSM_NRFAC[m] < 0x2000_0000
  {
    if m == 0 {} else if m == 1 {} else if m == 2 {} else if m == 3 {}
    else if m == 4 {} else if m == 5 {} else if m == 6 {} else {}
  }

  /** Every pulse of every block gets a code of three bits. */
  lemma PulseCodeFits(x: Word, xmax: Word)
    requires Magnitude(x) <= xmax
    ensures 0 <= PulseCode(x, BlockCode(xmax)) <= 7
  {
    hide BlockCode;
    hide Shift;
    hide Mantissa;
    var c := BlockCode(xmax);
    PulseNormalizes(x, xmax);
    if x == -0x8000 {
      FullScale();
    } else {
      Reciprocal(Mantissa(c), x * Shift(c), Shift(c));
    }
  }

  // ---- How close the decoder comes ----------------------------------------------------------------------

  /** The decoder's level of cell `k` before it is scaled down again. */
  function CellCentre(m: int, k: int): int
    requires 0 <= m <= 7 && -4 <= k <= 3
  {
    (GSM_FAC[m] as int * ((2 * k + 1) * 4096) + 16384) / 32768
  }

  /** A normalized pulse lies within half a cell of its cell's centre. */
  lemma CentreOfCell(m: int, t: int, k: int)
    requires 0 <= m <= 7 && -4 <= k <= 3
    requires k * 0x800_0000 <= t * GSM_NRFAC[m] as int < (k + 1) * 0x800_0000
    ensures Abs(t - CellCentre(m, k)) <= 256 * (m + 9) + 1
  {
    if m == 0 {} else if m == 1 {} else if m == 2 {} else if m == 3 {}
    else if m == 4 {} else if m == 5 {} else if m == 6 {} else {}
  }

  lemma CentreBounds(m: int, k: int)
    requires 0 <= m <= 7 && -4 <= k <= 3
    ensures -28672 <= CellCentre(m, k) <= 28672
    ensures CellCentre(m, k) == MultR(GSM_FAC[m], (2 * k + 1) * 4096)
  {
    var product := GSM_FAC[m] as int * ((2 * k + 1) * 4096);
    BoundedProduct(GSM_FAC[m], (2 * k + 1) * 4096, 0x7FFF, 28672);
  }

  lemma HalfUnit(shift: nat)
    requires shift <= 10
    ensures Asl(1, shift - 1) == if shift == 0 then 0 else Pow2(shift - 1)
  {
    SmallPowers();
  }

  /** A pulse is its cell's centre, rounded to the block's unit. */
  lemma PulseIsRoundedCentre(code: Word, c: int)
    requires 0 <= c <= 63 && 0 <= code <= 7
    ensures Pulse(code, c) == (CellCentre(Mantissa(c), code - 4) + Shift(c) / 2) / Shift(c)
  {
    hide MultR;
    hide CellCentre;
    hide Asl;
    hide Pow2;
    hide Mantissa;
    hide Exponent;
    CentreBounds(Mantissa(c), code - 4);
    var shift := 6 - Exponent(c);
    HalfUnit(shift);
    UnitHalves(shift);
  }

  lemma UnitHalves(shift: nat)
    requires shift <= 10
    ensures Pow2(shift) / 2 == if shift == 0 then 0 else Pow2(shift - 1)
    ensures Pow2(shift) <= 1024
  {
    SmallPowers();
  }

  lemma RoundedQuotient(z: int, s: nat)
    requires s > 0 && (s == 1 || s % 2 == 0)
    ensures 2 * Abs(z - s * ((z + s / 2) / s)) <= if s == 1 then 0 else s
  {
    var q := (z + s / 2) / s;
    assert z + s / 2 == s * q + (z + s / 2) % s;
  }

  lemma UnitIsEven(c: int)
    requires 0 <= c <= 63
    ensures Shift(c) == 1 || Shift(c) % 2 == 0
  {
    SmallPowers();
  }

  /** Normalizing a pulse and cutting it to three bits finds its cell. */
  lemma CellOfPulse(x: Word, xmax: Word)
    requires Magnitude(x) <= xmax
    ensures var c := BlockCode(xmax);
            var k, t := PulseCode(x, c) - 4, x * Shift(c);
            -4 <= k <= 3 && k * 0x800_0000 <= t * GSM_NRFAC[Mantissa(c)] as int < (k + 1) * 0x800_0000
  {
    hide BlockCode;
    hide Shift;
    hide Mantissa;
    PulseNormalizes(x, xmax);
    PulseCodeFits(x, xmax);
    var c := BlockCode(xmax);
    TwoShifts(x * Shift(c), GSM_NRFAC[Mantissa(c)]);
  }

  lemma TwoShifts(t: Word, f: Word)
    requires f > 0
    ensures var k := Mult(t, f) / 4096; k * 0x800_0000 <= t as int * f as int < (k + 1) * 0x800_0000
  {
    hide *;
    MultIsQuotient(t, f);
    var product := t as int * f as int;
  }

  lemma MultIsQuotient(t: Word, f: Word)
    requires f > 0
    ensures Mult(t, f) == t as int * f as int / 32768
  {
  }

  /**
   * Every pulse comes back within half a quantizer step: in a block of mantissa `m` whose unit is
   * `1 / s` the eight levels are `(m + 9) * 512 / s` apart, and the decoded pulse is off by at most
   * half of that, and at most one more for rounding.
   */
  lemma PulseErrorBounded(x: Word, xmax: Word)
    requires Magnitude(x) <= xmax
    ensures var c := BlockCode(xmax);
            && 0 <= PulseCode(x, c) <= 7
            && Shift(c) * Abs(x - Pulse(PulseCode(x, c), c)) <= (Mantissa(c) + 9) * 256 + Shift(c)
  {
    hide BlockCode;
    hide Shift;
    hide Mantissa;
    hide Pulse;
    hide PulseCode;
    hide CellCentre;
    var c := BlockCode(xmax);
    PulseCodeFits(x, xmax);
    CellOfPulse(x, xmax);
    var code, s := PulseCode(x, c), Shift(c);
    CentreOfCell(Mantissa(c), x * s, code - 4);
    PulseIsRoundedCentre(code, c);
    UnitIsEven(c);
    RoundedQuotient(CellCentre(Mantissa(c), code - 4), s);
    ScaledDistance(x, Pulse(code, c), s);
  }

  lemma ScaledDistance(x: int, y: int, s: nat)
    ensures s * Abs(x - y) == Abs(x * s - s * y)
  {
    if x >= y {
      ProductOrder(y, x, s);
      assert s * (x - y) == x * s - s * y;
    } else {
      ProductOrder(x, y, s);
      assert s * (y - x) == s * y - x * s;
    }
  }

  // ---- A block of thirteen pulses -------------------------------------------------------------------------

  function BlockOf(xm: seq<Word>): (c: int)
    ensures 0 <= c <= 63
  {
    BlockCode(Peak(xm, |xm|))
  }

  function PulseCodes(xm: seq<Word>): (xmc: seq<Word>)
    ensures |xmc| == |xm|
  {
    seq(|xm|, i requires 0 <= i < |xm| => PulseCode(xm[i], BlockOf(xm)))
  }

  predicate ThreeBits(xmc: seq<Word>) {
    forall i :: 0 <= i < |xmc| ==> 0 <= xmc[i] <= 7
  }

  lemma CodesFit(xm: seq<Word>)
    ensures ThreeBits(PulseCodes(xm))
  {
    hide PulseCode;
    forall i | 0 <= i < |xm| ensures 0 <= PulseCode(xm[i], BlockOf(xm)) <= 7 {
      PulseCodeFits(xm[i], Peak(xm, |xm|));
    }
  }

  function DecodedPulses(xmc: seq<Word>, c: int): (xmp: seq<Word>)
    requires 0 <= c <= 63 && ThreeBits(xmc)
    ensures |xmp| == |xmc|
  {
    seq(|xmc|, i requires 0 <= i < |xmc| => Pulse(xmc[i], c))
  }

  method QuantizePulses(xm: seq<Word>) returns (xmc: seq<Word>, xmaxc: Word)
    ensures xmaxc == BlockOf(xm) && xmc == PulseCodes(xm)
  {
    hide Mult;
    hide Pow2;
    hide Wrap16;
    hide Mantissa;
    hide Exponent;
    hide BlockCode;
    hide BlockExponent;
    var xmax := FindPeak(xm);
    var exp := FindExponent(xmax);
    xmaxc := SaturatedCode(xmax, exp);
    var e, mant := ToExponentAndMantissa(xmaxc);
    var factor := GSM_NRFAC[mant];
    xmc := [];
    for i := 0 to |xm|
      invariant xmc == PulseCodes(xm)[..i]
    {
      BoundedProduct(xm[i], Shift(xmaxc), 0x8000, 1024);
      var t := Wrap16(I32(xm[i] * Pow2(6 - e)));
      t := Mult(t, factor);
      xmc := xmc + [t / 4096 + 4];
    }
  }

  method SaturatedCode(xmax: Word, exp: nat) returns (xmaxc: Word)
    requires xmax >= 0 && exp == BlockExponent(xmax)
    ensures xmaxc == BlockCode(xmax)
  {
    SmallPowers();
    xmaxc := Add(ShiftRight(xmax, exp + 5), exp * 8);
  }

  method DecodePulses(xmc: seq<Word>, c: int) returns (xmp: seq<Word>)
    requires 0 <= c <= 63 && ThreeBits(xmc)
    ensures xmp == DecodedPulses(xmc, c)
  {
    hide MultR;
    hide Asl;
    hide Asr;
    hide Add;
    hide Wrap16;
    var exp, mant := ToExponentAndMantissa(c);
    var factor := GSM_FAC[mant];
    var shift := Sub(6, exp);
    var half := Asl(1, Sub(shift, 1));
    xmp := [];
    for i := 0 to |xmc|
      invariant xmp == DecodedPulses(xmc, c)[..i]
    {
      var temp := xmc[i] * 2 - 7;
      temp := Wrap16(I32(temp * 4096));
      temp := MultR(factor, temp);
      temp := Add(temp, half);
      xmp := xmp + [Asr(temp, shift)];
    }
  }
}
