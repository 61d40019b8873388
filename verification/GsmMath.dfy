/**
 * The 16-bit basic operations of GSM 06.10 (`crates/siphon-rtp-codec/src/gsm_fr.rs`). A function whose
 * result is a `Word` and whose body does not wrap proves that the source's `as i16` loses nothing.
 */
module GsmMath {
  import opened Arithmetic
  import opened FixedPoint
  import opened PowersOfTwo

  /** A 16-bit signed word. */
  type Word = x: int | -0x8000 <= x <= 0x7FFF

  function Add(a: Word, b: Word): Word {
    Saturate(I32(a + b))
  }

  function Sub(a: Word, b: Word): Word {
    Saturate(I32(a - b))
  }

  /** Only the one product of two minima does not fit after the shift, and that one is replaced. */
  lemma WordProduct(a: Word, b: Word)
    requires a != -0x8000 || b != -0x8000
    ensures -0x8000 * 0x8000 <= a * b <= 0x7FFF * 0x8000
  {
    if a == -0x8000 {
      assert a * b == -0x8000 * b;
    } else {
      BoundedProduct(a, b, 0x7FFF, 0x8000);
    }
  }

  function Mult(a: Word, b: Word): Word {
    if a == -0x8000 && b == -0x8000 then 0x7FFF
    else
      WordProduct(a, b);
      I32(a * b) / 0x8000
  }

  function MultR(a: Word, b: Word): Word {
    if a == -0x8000 && b == -0x8000 then 0x7FFF
    else
      WordProduct(a, b);
      I32(I32(a * b) + 16384) / 0x8000
  }

  /** But for that one pair, the rounded product is the nearest. */
  lemma Rounded(a: Word, b: Word)
    requires a != -0x8000 || b != -0x8000
    ensures Abs(32768 * MultR(a, b) as int - a as int * b as int) <= 16384
  {
    WordProduct(a, b);
  }

  function Magnitude(a: Word): (m: Word)
    ensures m >= 0
  {
    if a == -0x8000 then 0x7FFF else Abs(a)
  }

  /** The largest magnitude among the first `n` samples. */
  function Peak(s: seq<Word>, n: nat): (peak: Word)
    requires n <= |s|
    ensures 0 <= peak && forall i :: 0 <= i < n ==> Magnitude(s[i]) <= peak
    ensures peak > 0 ==> exists i :: 0 <= i < n && Magnitude(s[i]) == peak
  {
    if n == 0 then 0
    else
      var before := Peak(s, n - 1);
      if Magnitude(s[n - 1]) > before then Magnitude(s[n - 1]) else before
  }

  method FindPeak(s: seq<Word>) returns (peak: Word)
    ensures peak == Peak(s, |s|)
  {
    peak := 0;
    for i := 0 to |s|
      invariant peak == Peak(s, i)
    {
      var temp := Magnitude(s[i]);
      if temp > peak { peak := temp; }
    }
  }

  /** The normalization shift of a 32-bit value, from its leading zeros. */
  function Norm(value: int): int
    requires InI32(value) && value != 0
  {
    if value < 0 then
      if value <= -0x4000_0000 then 0 else 30 - TopBit(-value - 1)
    else 30 - TopBit(value)
  }

  /** Shifting by `Norm` brings a value just below the sign bit and never past it. */
  lemma NormFits(value: int)
    requires InI32(value) && value != 0
    ensures 0 <= Norm(value) <= 31
    ensures value > 0 ==> 0x4000_0000 <= value * Pow2(Norm(value)) <= 0x7FFF_FFFF
    ensures value < 0 ==> -0x8000_0000 <= value * Pow2(Norm(value)) <= -0x4000_0000
  {
    if value > 0 {
      NormPositive(value);
    } else if value > -0x4000_0000 {
      NormNegative(-value - 1);
    } else {
      PowerZero();
    }
  }

  lemma NormNegative(v: nat)
    requires 0 <= v < 0x3FFF_FFFF
    ensures 0 <= 30 - TopBit(v) <= 31
    ensures 0x4000_0000 <= (v + 1) * Pow2(30 - TopBit(v)) <= 0x8000_0000
  {
    hide Pow2;
    ThirtyBits();
    if v > 0 {
      NormPositive(v);
      NormCeiling(v);
      ProductOrder(v, v + 1, Pow2(30 - TopBit(v)));
    }
  }

  lemma NormPositive(v: nat)
    requires 0 < v <= 0x7FFF_FFFF
    ensures 0 <= 30 - TopBit(v) <= 30
    ensures 0x4000_0000 <= v * Pow2(30 - TopBit(v)) <= 0x7FFF_FFFF
  {
    hide Pow2;
    NormCeiling(v);
    var t, p := TopBit(v), Pow2(30 - TopBit(v));
    TopBitBounds(v);
    Pow2Add(t, 30 - t);
    ThirtyBits();
    ProductOrder(Pow2(t), v, p);
    hide *;
  }

  lemma NormCeiling(v: nat)
    requires 0 < v <= 0x7FFF_FFFF
    ensures 0 <= 30 - TopBit(v) && (v + 1) * Pow2(30 - TopBit(v)) <= 0x8000_0000
  {
    hide Pow2;
    ThirtyBits();
    TopBitBounds(v);
    TopBitBelow(v, 31);
    var t, p := TopBit(v), Pow2(30 - TopBit(v));
    Pow2Add(t + 1, 30 - t);
    ProductOrder(v + 1, Pow2(t + 1), p);
  }

  lemma ThirtyBits()
    ensures Pow2(30) == 0x4000_0000 && Pow2(31) == 0x8000_0000
  {
    assert Pow2(8) == 256;
    Pow2Add(8, 8);
    Pow2Add(16, 8);
    assert Pow2(6) == 64;
    Pow2Add(24, 6);
  }

  /** The 15-bit fraction `num / den`, the largest word when they are equal. */
  function Fraction(num: int, den: int): (q: Word)
    requires 0 <= num <= den <= 0x7FFF
  {
    if num == 0 then 0
    else if num == den then 0x7FFF
    else FractionFits(num, den); num * 0x8000 / den
  }

  lemma FractionFits(num: int, den: int)
    requires 0 <= num < den
    ensures 0 <= num * 0x8000 / den < 0x8000
  {
    QuotientBetween(num * 0x8000, den, 0, 0x8000);
  }

  /** Restoring division: fifteen quotient bits, most significant first. */
  method Div(num: Word, denum: Word) returns (div: Word)
    requires 0 <= num <= denum
    ensures div == Fraction(num, denum)
  {
    hide Pow2;
    if num == 0 {
      return 0;
    }
    var lNum := num;
    div := 0;
    var k := 15;
    assert Pow2(0) == 1 by { PowerZero(); }
    while k > 0
      invariant 0 <= k <= 15 && 0 <= lNum <= denum && (num < denum ==> lNum < denum)
      invariant 0 <= div < Pow2(15 - k)
      invariant num == denum ==> lNum == denum && div == Pow2(15 - k) - 1
      invariant num * Pow2(15 - k) == div * denum + lNum
    {
      ghost var p := Pow2(15 - k);
      PowerStep(15 - k);
      PowerFits(16 - k);
      k := k - 1;
      div := div * 2;
      lNum := I32(lNum * 2);
      assert num * (2 * p) == div * denum + lNum by { DoubleLaw(num, p, div / 2, denum, lNum / 2); }
      if lNum >= denum {
        lNum := lNum - denum;
        div := div + 1;
      }
    }
    PowerFits(15);
    if num < denum {
      RestoredQuotient(num, denum, div, lNum);
    }
  }

  lemma PowerFits(e: nat)
    requires e <= 15
    ensures Pow2(e) <= 0x8000 && Pow2(15) == 0x8000
  {
    assert Pow2(8) == 256;
    Pow2Add(8, 7);
    Pow2Order(e, 15);
  }

  lemma DoubleLaw(num: int, p: int, q: int, den: int, rest: int)
    requires num * p == q * den + rest
    ensures num * (2 * p) == 2 * q * den + 2 * rest
  {
  }

  /** A quotient and a remainder below the divisor are the quotient. */
  lemma RestoredQuotient(num: int, den: int, q: int, rest: int)
    requires num * 0x8000 == q * den + rest && 0 <= rest < den && 0 <= q
    ensures q == num * 0x8000 / den
  {
    var n := q * den + rest;
    if q < n / den {
      ProductBelow(q, n / den, den);
    } else if q > n / den {
      ProductBelow(n / den, q, den);
    }
  }

  /** Arithmetic shift right by a count of either sign. */
  function Asr(a: Word, n: int): Word {
    if n >= 16 then (if a < 0 then -1 else 0)
    else if n <= -16 then 0
    else if n < 0 then Wrap16(I32ShiftLeft(a, -n))
    else ShiftRight(a, n)
  }

  /** Arithmetic shift left by a count of either sign. */
  function Asl(a: Word, n: int): Word {
    if n >= 16 then 0
    else if n <= -16 then (if a < 0 then -1 else 0)
    else if n < 0 then Asr(a, -n)
    else Wrap16(I32ShiftLeft(a, n))
  }

  function I32ShiftLeft(a: Word, n: nat): int
    requires n <= 15
  {
    PowerFits(n);
    BoundedProduct(a, Pow2(n), 0x8000, 0x8000);
    I32(a * Pow2(n))
  }

  /** `a >> n` on a word. */
  function ShiftRight(a: Word, n: nat): (r: Word)
    ensures a >= 0 ==> 0 <= r <= a
    ensures a < 0 ==> a <= r < 0
  {
    ShiftShrinks(a, Pow2(n));
    a / Pow2(n)
  }

  lemma ShiftShrinks(a: int, p: nat)
    requires p > 0
    ensures a >= 0 ==> 0 <= a / p <= a
    ensures a < 0 ==> a <= a / p < 0
  {
    if a >= 0 {
      ProductOrder(1, p, a + 1);
      QuotientBetween(a, p, 0, a + 1);
    } else {
      ProductOrder(1, p, -a);
      QuotientBetween(a, p, a, 0);
    }
  }
}
