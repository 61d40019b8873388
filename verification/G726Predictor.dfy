/**
 * What the predictor arithmetic of G.726 (`crates/siphon-rtp-codec/src/g726.rs`) computes: its floating-point
 * product is the product of coefficient and stored signal to within a few percent, the stored floats are the
 * signals to within one part in 32, and the step size lies between its fast and its slow estimate.
 */
module G726Predictor {
  import opened Arithmetic
  import opened FixedPoint
  import opened G726
  import opened PowersOfTwo

  // ---- Stored floats ----------------------------------------------------------------------------------------

  /** 64 times the magnitude that a stored float stands for: six bits of mantissa, four of exponent. */
  function ValueOf(srn: int): nat {
    srn % 64 * Pow2(srn / 64 % 16)
  }

  /** Storing a magnitude keeps its leading six bits. */
  lemma FloatKeepsMagnitude(mag: nat)
    requires 0 < mag < 0x8000
    ensures ValueOf(FloatOf(mag)) <= 64 * mag && 33 * ValueOf(FloatOf(mag)) > 32 * (64 * mag)
    ensures ValueOf(FloatOf(mag) - 0x400) == ValueOf(FloatOf(mag))
  {
    hide Pow2;
    hide TopBit;
    FloatIsNormalised(mag);
    var exp := TopBit(mag) + 1;
    PowerPositive(exp);
    FloatParts(exp, mag * 64 / Pow2(exp));
    FloatBounds(mag, Pow2(exp), mag * 64 / Pow2(exp));
  }

  lemma FloatParts(exp: int, mantissa: int)
    requires 0 <= exp <= 15 && 32 <= mantissa < 64
    ensures var f := exp * 64 + mantissa;
            && f % 64 == (f - 0x400) % 64 == mantissa && f / 64 % 16 == (f - 0x400) / 64 % 16 == exp
  {
  }

  lemma FloatBounds(mag: nat, p: nat, mantissa: nat)
    requires p > 0 && mantissa == mag * 64 / p && mantissa >= 32
    ensures mantissa * p <= 64 * mag && 33 * (mantissa * p) > 32 * (64 * mag)
  {
    FloorBounds(mag * 64, p);
    ProductOrder(32, mantissa, p);
  }

  /** The two stored forms of a difference and of a sample carry their magnitudes. */
  lemma StoredDifference(dq: int)
    requires InI16(dq) && dq % 0x8000 != 0
    ensures var mag := dq % 0x8000;
            ValueOf(FloatA(dq)) <= 64 * mag && 33 * ValueOf(FloatA(dq)) > 32 * (64 * mag)
    ensures FloatA(dq) < 0 <==> dq < 0
  {
    hide ValueOf;
    hide FloatOf;
    FloatIsNormalised(dq % 0x8000);
    FloatKeepsMagnitude(dq % 0x8000);
  }

  lemma StoredSample(sr: int)
    requires -0x8000 < sr <= 0x7FFF && sr != 0
    ensures ValueOf(FloatB(sr)) <= 64 * Abs(sr) && 33 * ValueOf(FloatB(sr)) > 32 * (64 * Abs(sr))
    ensures FloatB(sr) < 0 <==> sr < 0
  {
    hide ValueOf;
    hide FloatOf;
    FloatIsNormalised(Abs(sr));
    FloatKeepsMagnitude(Abs(sr));
  }

  // ---- The product --------------------------------------------------------------------------------------------

  /** The six leading bits of a coefficient. */
  function LeadingBits(mag: nat): nat
    requires mag > 0
  {
    var exp := TopBit(mag) - 5;
    if exp >= 0 then mag / Pow2(exp) else mag * Pow2(-exp)
  }

  lemma LeadingBitsMeaning(mag: nat)
    requires mag > 0
    ensures var top, m := Pow2(TopBit(mag)), LeadingBits(mag);
            32 <= m < 64 && m * top <= 32 * mag < (m + 1) * top
  {
    TopBitBounds(mag);
    var t := TopBit(mag);
    hide TopBit;
    hide Pow2;
    PowerStep(t);
    ThirtyTwo();
    if t >= 5 {
      Pow2Add(t - 5, 5);
      ShiftedDown(mag, Pow2(t - 5), Pow2(t));
    } else {
      Pow2Add(t, 5 - t);
      ShiftedUp(mag, Pow2(5 - t), Pow2(t));
    }
  }

  lemma ThirtyTwo()
    ensures Pow2(5) == 32
  {
  }

  lemma ShiftedDown(mag: nat, p: nat, top: nat)
    requires p > 0 && top == 32 * p && top <= mag < 2 * top
    ensures var m := mag / p; 32 <= m < 64 && m * top <= 32 * mag < (m + 1) * top
  {
    var m := mag / p;
    FloorBounds(mag, p);
    QuotientBetween(mag, p, 32, 64);
    Scaled(m, p, top);
    Scaled(m + 1, p, top);
  }

  lemma Scaled(m: nat, p: nat, top: nat)
    requires top == 32 * p
    ensures m * top == 32 * (m * p)
  {
  }

  lemma ShiftedUp(mag: nat, p: nat, top: nat)
    requires top * p == 32 && top <= mag < 2 * top
    ensures var m := mag * p; 32 <= m < 64 && m * top <= 32 * mag < (m + 1) * top
  {
    assert mag * p * top == mag * (top * p);
    ProductOrder(top, mag, p);
    ProductBelow(mag, 2 * top, p);
    assert 2 * top * p == 2 * (top * p);
  }

  /** The mantissa product, scaled back: `top` and `x` are the weights of coefficient and float. */
  lemma ProductMeaning(mag: nat, m: nat, mantissa: nat, wm: nat, top: nat, x: nat, r: nat)
    requires 32 <= m < 64 && 32 <= mantissa < 64 && wm == (m * mantissa + 0x30) / 16
    requires m * top <= 32 * mag < (m + 1) * top && top > 0 && x > 0
    requires 0x40_0000 * r <= 16 * wm * (top * x) < 0x40_0000 * (r + 1)
    ensures 64 * 0x2_0000 * r <= 67 * (mag * (mantissa * x))
    ensures 33 * 0x2_0000 * (r + 1) > 32 * (mag * (mantissa * x))
  {
    var weight, mm := top * x, m * mantissa;
    ProductOrder(32, m, mantissa);
    assert mm >= 1024 && 16 * wm <= mm + 48 && mm + 33 <= 16 * wm;
    PositiveProduct(top, x);
    ProductOrder(64 * (16 * wm), 67 * mm, weight);
    ProductOrder(mm, 16 * wm, weight);
    Regrouped(m, mantissa, top, x);
    var mt, v := m * top, mantissa * x;
    PositiveProduct(mantissa, x);
    ProductOrder(mt, 32 * mag, v);
    LowerBits(m, top, mag);
    ProductBelow(32 * (32 * mag), 33 * mt, v);
    Associates(32, mag, v);
    Associates(67, mm, weight);
    Associates(64, 16 * wm, weight);
    Associates(33, mt, v);
    Associates(32 * 32, mag, v);
  }

  lemma PositiveProduct(a: nat, b: nat)
    requires a > 0 && b > 0
    ensures a * b > 0
  {
  }

  lemma Associates(a: int, b: int, c: int)
    ensures a * b * c == a * (b * c)
  {
  }

  lemma Regrouped(m: nat, mantissa: nat, top: nat, x: nat)
    ensures m * mantissa * (top * x) == m * top * (mantissa * x)
  {
  }

  lemma LowerBits(m: nat, top: nat, mag: nat)
    requires 32 <= m && 32 * mag < (m + 1) * top
    ensures 32 * (32 * mag) < 33 * (m * top)
  {
    ProductOrder(32, m, top);
    assert (m + 1) * top == m * top + top;
  }

  /** Shifting the mantissa product by what the two exponents leave. */
  function Shifted(wm: int, exp: int): int {
    hide Pow2;
    PowerPositive(if exp >= 0 then exp else -exp);
    if exp >= 0 then wm * Pow2(exp) else wm / Pow2(-exp)
  }

  lemma ShiftMeaning(wm: nat, top: nat, e: nat, x: nat, r: int)
    requires top == Pow2(e) && r == Shifted(wm, e + x - 18)
    ensures r >= 0 && 0x40_0000 * r <= 16 * wm * (top * Pow2(x)) < 0x40_0000 * (r + 1)
  {
    hide Pow2;
    Pow2Add(e, x);
    EighteenBits();
    PowerPositive(e + x);
    var weight := top * Pow2(x);
    if e + x >= 18 {
      Pow2Add(18, e + x - 18);
      ShiftedIn(wm, Pow2(e + x - 18), weight);
    } else {
      Pow2Add(18 - e - x, e + x);
      PowerPositive(18 - e - x);
      var w := Pow2(18 - e - x);
      FloorBounds(wm, w);
      ShiftedOut(wm, w, weight, r);
    }
  }

  lemma EighteenBits()
    ensures Pow2(18) == 0x4_0000
  {
    assert Pow2(9) == 512;
    Pow2Add(9, 9);
  }

  lemma ShiftedIn(wm: nat, w: nat, weight: nat)
    requires weight == 0x4_0000 * w
    ensures wm * w >= 0 && 0x40_0000 * (wm * w) == 16 * wm * weight
  {
  }

  lemma ShiftedOut(wm: nat, w: nat, weight: nat, r: int)
    requires w > 0 && w * weight == 0x4_0000 && weight > 0 && r * w <= wm < r * w + w
    ensures r >= 0 && 0x40_0000 * r <= 16 * wm * weight < 0x40_0000 * (r + 1)
  {
    hide *;
    if r < 0 { ProductBelow(r, 0, w); }
    ProductOrder(r * w, wm, weight);
    ProductBelow(wm, r * w + w, weight);
    Associates(r, w, weight);
    SumTimes(r * w, w, weight);
    Associates(16, wm, weight);
  }

  lemma FmultUnfolds(an: int, srn: int, mag: nat, e: int, m: nat, wm: int, r: int)
    requires 0 < mag < 0x2000 && mag == Abs(an) && e == TopBit(mag) && m == LeadingBits(mag)
    requires wm == (m * (srn % 64) + 0x30) / 16 && r == Shifted(wm, e + srn / 64 % 16 - 18) && 0 <= r < 0x8000
    ensures Fmult(an, srn) == if (an < 0) != (srn < 0) then -r else r
  {
    hide Pow2;
    hide TopBit;
    assert an < 0 ==> (-an) % 0x2000 == -an;
  }

  /**
   * A coefficient times a stored signal, in the eleven bits that the format drops: the sign is that of the
   * product, and the magnitude is at most 67/64 of it and more than 32/33 of it, less one.
   */
  lemma FmultIsProduct(an: int, srn: int)
    requires 0 < Abs(an) < 0x2000 && srn % 64 >= 32
    requires 67 * (Abs(an) * ValueOf(srn)) < 64 * 0x2_0000 * 0x8000
    ensures var r, exact := Abs(Fmult(an, srn)), Abs(an) * ValueOf(srn);
            64 * 0x2_0000 * r <= 67 * exact && 33 * 0x2_0000 * (r + 1) > 32 * exact
    ensures Fmult(an, srn) != 0 ==> (Fmult(an, srn) < 0 <==> (an < 0) != (srn < 0))
  {
    hide Fmult;
    hide Shifted;
    hide Pow2;
    hide TopBit;
    hide LeadingBits;
    var mag := Abs(an);
    var e, m := TopBit(mag), LeadingBits(mag);
    var mantissa, x := srn % 64, srn / 64 % 16;
    var wm := (m * mantissa + 0x30) / 16;
    var r := Shifted(wm, e + x - 18);
    ProductParts(mag, e, m, mantissa, x, wm, r);
    FmultUnfolds(an, srn, mag, e, m, wm, r);
  }

  lemma ProductParts(mag: nat, e: int, m: nat, mantissa: nat, x: nat, wm: int, r: int)
    requires mag > 0 && e == TopBit(mag) && m == LeadingBits(mag) && 32 <= mantissa < 64
    requires wm == (m * mantissa + 0x30) / 16 && r == Shifted(wm, e + x - 18)
    ensures r >= 0 && 64 * 0x2_0000 * r <= 67 * (mag * (mantissa * Pow2(x)))
    ensures 33 * 0x2_0000 * (r + 1) > 32 * (mag * (mantissa * Pow2(x)))
  {
    hide Shifted;
    hide Pow2;
    hide LeadingBits;
    LeadingBitsMeaning(mag);
    PowerPositive(e);
    PowerPositive(x);
    ProductOrder(0, m, mantissa);
    ShiftMeaning(wm, Pow2(e), e, x, r);
    ProductMeaning(mag, m, mantissa, wm, Pow2(e), Pow2(x), r);
  }

  // ---- The step size --------------------------------------------------------------------------------------------

  /** The step size lies between the slow and the fast scale factor, at the fast one when adaptation is fast. */
  lemma StepBetweenScales(s: State)
    requires Ok(s)
    ensures var slow := s.yl / 64;
            && (slow <= s.yu ==> slow <= StepSize(s) <= s.yu)
            && (s.yu <= slow ==> s.yu <= StepSize(s) <= slow)
            && (s.ap >= 256 ==> StepSize(s) == s.yu) && (s.ap < 4 ==> StepSize(s) == slow)
  {
    var dif := s.yu - s.yl / 64;
    if s.ap < 256 && dif != 0 { Interpolates(dif, s.ap / 4); }
  }

  /** It rises with the speed control towards the fast one. */
  lemma StepFollowsSpeed(s: State, t: State)
    requires Ok(s) && t == s.(ap := t.ap) && s.ap <= t.ap <= 512
    ensures s.yl / 64 <= s.yu ==> StepSize(s) <= StepSize(t)
    ensures s.yu <= s.yl / 64 ==> StepSize(t) <= StepSize(s)
  {
    StepBetweenScales(s);
    StepBetweenScales(t);
    if t.ap < 256 { InterpolationRises(s.yu - s.yl / 64, s.ap / 4, t.ap / 4); }
  }

  lemma InterpolationRises(dif: int, al: int, faster: int)
    requires 0 <= al <= faster
    ensures dif > 0 ==> dif * al / 64 <= dif * faster / 64
    ensures dif < 0 ==> (dif * faster + 0x3F) / 64 <= (dif * al + 0x3F) / 64
  {
    if dif > 0 {
      ProductOrder(al, faster, dif);
    } else {
      ProductOrder(al, faster, -dif);
      NegatedProduct(al, -dif);
      NegatedProduct(faster, -dif);
    }
  }

  /** In between it is the point that the speed control names, in sixty-fourths, to within one. */
  lemma StepInterpolates(s: State)
    requires Ok(s) && s.ap < 256
    ensures var slow := s.yl / 64;
            Abs(64 * (StepSize(s) - slow) - (s.yu - slow) * (s.ap / 4)) <= 63
  {
  }

  // ---- Logarithm and antilogarithm --------------------------------------------------------------------------------

  /** The logarithm of a difference: whole octaves, and a linear fraction of 128 steps between them. */
  lemma LogMeaning(m: nat)
    requires m > 0
    ensures var l := LogOf(m);
            l >= 0 && (128 + l % 128) * Pow2(l / 128) <= 128 * m < (129 + l % 128) * Pow2(l / 128)
  {
    var e, p := TopBit(m), Pow2(TopBit(m));
    LogUnfolds(m);
    TopBitBounds(m);
    PowerStep(e);
    hide *;
    FloorBounds(m * 128, p);
    QuotientBetween(m * 128, p, 128, 256);
    LogParts(e, m * 128 / p);
    SumTimes(m * 128 / p, 1, p);
  }

  lemma LogUnfolds(m: nat)
    requires m > 0
    ensures LogOf(m) == TopBit(m) * 128 + m * 128 / Pow2(TopBit(m)) % 128
  {
    hide Pow2;
  }

  lemma LogParts(e: nat, mantissa: int)
    requires 128 <= mantissa < 256
    ensures var l := e * 128 + mantissa % 128; l / 128 == e && l % 128 == mantissa - 128
  {
  }

  /** The antilogarithm undoes it, dropping the bits below one. */
  lemma AntilogMeaning(dql: nat)
    requires dql / 128 <= 14
    ensures var weight := (128 + dql % 128) * Pow2(dql / 128);
            128 * AntilogOf(dql) <= weight < 128 * (AntilogOf(dql) + 1)
  {
    var e := dql / 128;
    Pow2Add(14 - e, e);
    FourteenBits();
    hide Pow2;
    PowerPositive(14 - e);
    PowerPositive(e);
    ShiftedWeight(128 + dql % 128, Pow2(14 - e), Pow2(e), AntilogOf(dql));
  }

  lemma FourteenBits()
    ensures Pow2(14) == 0x4000
  {
    assert Pow2(7) == 128;
    Pow2Add(7, 7);
  }

  lemma ShiftedWeight(n: nat, p: nat, q: nat, a: int)
    requires p > 0 && q > 0 && p * q == 0x4000 && a == n * 128 / p
    ensures 128 * a <= n * q < 128 * (a + 1)
  {
    FloorBounds(n * 128, p);
    ProductOrder(a * p, n * 128, q);
    ProductBelow(n * 128, a * p + p, q);
    Associates(a, p, q);
    SumTimes(a * p, p, q);
    Associates(n, 128, q);
    Associates(128, n, q);
  }

  // ---- The prediction ----------------------------------------------------------------------------------------------

  /** The estimate is half the sum of the two predictions, wherever that fits fifteen bits. */
  lemma EstimateIsHalf(s: State)
    requires |s.b| == |s.dq| == 6
    ensures var half := (PredictorZero(s) + PredictorPole(s)) / 2;
            -0x4000 <= half < 0x4000 ==> Estimate(s) == half
  {
    hide PredictorZero;
    hide PredictorPole;
  }

  /** A stored float has a whole mantissa: what every state of a run holds. */
  predicate Normalised(s: State) {
    && |s.dq| == 6 && (forall i :: 0 <= i < 6 ==> s.dq[i] % 64 >= 32)
    && s.sr1 % 64 >= 32 && s.sr2 % 64 >= 32
  }

  lemma FloatsNormalised(dq: int, sr: int)
    requires InI16(dq) && InI16(sr)
    ensures FloatA(dq) % 64 >= 32 && FloatB(sr) % 64 >= 32
  {
    hide FloatOf;
    if dq % 0x8000 != 0 { MantissaKept(dq % 0x8000); }
    if sr != 0 && sr != -0x8000 { MantissaKept(Abs(sr)); }
  }

  /** Silence is stored as the least normalised float, and so is the one sample that has no opposite. */
  lemma SilenceIsLeast(srn: int)
    requires srn % 64 >= 32
    ensures ValueOf(FloatA(0)) == ValueOf(FloatB(0)) == ValueOf(FloatB(-0x8000)) <= ValueOf(srn)
    ensures FloatA(0) >= 0 && FloatB(0) >= 0 && FloatB(-0x8000) < 0
  {
    hide FloatOf;
    hide Pow2;
    assert Pow2(0) == 1 by { PowerZero(); }
    PowerPositive(srn / 64 % 16);
    AtLeast(srn % 64, Pow2(srn / 64 % 16));
  }

  lemma AtLeast(mantissa: nat, octave: nat)
    requires mantissa >= 32 && octave >= 1
    ensures mantissa * octave >= 32
  {
    ProductOrder(32, mantissa, octave);
  }

  lemma MantissaKept(mag: nat)
    requires 0 < mag < 0x8000
    ensures Wrap16(FloatOf(mag)) == FloatOf(mag) && Wrap16(FloatOf(mag) - 0x400) == FloatOf(mag) - 0x400
    ensures FloatOf(mag) % 64 >= 32 && (FloatOf(mag) - 0x400) % 64 >= 32
  {
    FloatIsNormalised(mag);
    hide FloatOf;
    hide Wrap16;
  }

  /** The exact product of a coefficient and a stored signal, in the units of the format. */
  function Exact(coefficient: int, srn: int): int {
    var magnitude := Abs(coefficient) * ValueOf(srn);
    if (coefficient < 0) != (srn < 0) then -magnitude else magnitude
  }

  /** The product of a tap does not leave fifteen bits. */
  predicate TapFits(coefficient: int, srn: int) {
    Abs(coefficient) < 0x2000 && 67 * (Abs(coefficient) * ValueOf(srn)) < 64 * 0x2_0000 * 0x8000
  }

  /** A tap is the exact product to within a sixteenth of it and a constant. */
  lemma TapIsNear(coefficient: int, srn: int)
    requires TapFits(coefficient, srn) && srn % 64 >= 32
    ensures 16 * Abs(0x2_0000 * Fmult(coefficient, srn) - Exact(coefficient, srn))
         <= Abs(Exact(coefficient, srn)) + 16 * 0x10_0000
  {
    hide ValueOf;
    hide Fmult;
    hide TapFits;
    if coefficient == 0 { ZeroTap(srn); } else { NonzeroTap(coefficient, srn); }
  }

  lemma NonzeroTap(coefficient: int, srn: int)
    requires coefficient != 0 && TapFits(coefficient, srn) && srn % 64 >= 32
    ensures 16 * Abs(0x2_0000 * Fmult(coefficient, srn) - Exact(coefficient, srn))
         <= Abs(Exact(coefficient, srn)) + 16 * 0x10_0000
  {
    hide ValueOf;
    hide Fmult;
    FmultIsProduct(coefficient, srn);
    var exact := Abs(coefficient) * ValueOf(srn);
    ProductOrder(0, Abs(coefficient), ValueOf(srn));
    NearMagnitude(Abs(Fmult(coefficient, srn)), exact);
    SignedNear(Fmult(coefficient, srn), exact, (coefficient < 0) != (srn < 0));
  }

  lemma NearMagnitude(r: nat, exact: int)
    requires 64 * 0x2_0000 * r <= 67 * exact && 33 * 0x2_0000 * (r + 1) > 32 * exact
    ensures 16 * Abs(0x2_0000 * r - exact) <= exact + 16 * 0x10_0000
  {
  }

  lemma SignedNear(product: int, exact: int, negative: bool)
    requires exact >= 0 && 16 * Abs(0x2_0000 * Abs(product) - exact) <= exact + 16 * 0x10_0000
    requires product != 0 ==> (product < 0 <==> negative)
    ensures 16 * Abs(0x2_0000 * product - (if negative then -exact else exact)) <= exact + 16 * 0x10_0000
  {
  }

  lemma ZeroTap(srn: int)
    ensures Abs(Fmult(0, srn)) <= 8
  {
    var wm := (32 * (srn % 64) + 0x30) / 16;
    var exp := srn / 64 % 16 - 19;
    assert wm <= 129;
    SixteenOrMore(-exp);
    hide Pow2;
    QuotientBetween(wm, Pow2(-exp), 0, 9);
  }

  lemma SixteenOrMore(e: nat)
    requires e >= 4
    ensures Pow2(e) >= 16
  {
    if e == 4 { assert Pow2(4) == 16; } else { SixteenOrMore(e - 1); }
  }

  /** The exact zero prediction over the first `k` taps, and the sum of its magnitudes. */
  function ExactZeros(s: State, k: nat): int
    requires |s.b| == |s.dq| == 6 && k <= 6
  {
    if k == 0 then 0 else ExactZeros(s, k - 1) + Exact(s.b[k - 1] / 4, s.dq[k - 1])
  }

  function ExactTotal(s: State, k: nat): int
    requires |s.b| == |s.dq| == 6 && k <= 6
  {
    if k == 0 then 0 else ExactTotal(s, k - 1) + Abs(Exact(s.b[k - 1] / 4, s.dq[k - 1]))
  }

  /** The zero predictor is linear: each of its taps contributes its exact product, to within a sixteenth. */
  lemma {:induction false} ZerosAreLinear(s: State, k: nat)
    requires |s.b| == |s.dq| == 6 && Normalised(s) && k <= 6
    requires forall i :: 0 <= i < 6 ==> TapFits(s.b[i] / 4, s.dq[i])
    ensures 16 * Abs(0x2_0000 * ZeroSum(s, k) - ExactZeros(s, k)) <= ExactTotal(s, k) + 16 * 0x10_0000 * k
  {
    hide *;
    if k == 0 {
      NoTaps(s);
    } else {
      ZerosAreLinear(s, k - 1);
      SignalsNormalised(s, k - 1);
      SumsUnfold(s, k);
      OneMoreTap(s.b[k - 1] / 4, s.dq[k - 1], ZeroSum(s, k - 1), ExactZeros(s, k - 1), ExactTotal(s, k - 1), k);
    }
  }

  lemma NoTaps(s: State)
    requires |s.b| == |s.dq| == 6
    ensures ZeroSum(s, 0) == ExactZeros(s, 0) == ExactTotal(s, 0) == 0 && Abs(0) == 0
  {
  }

  lemma OneMoreTap(coefficient: int, srn: int, sum: int, exact: int, total: int, k: nat)
    requires TapFits(coefficient, srn) && srn % 64 >= 32 && k > 0
    requires 16 * Abs(0x2_0000 * sum - exact) <= total + 16 * 0x10_0000 * (k - 1)
    ensures 16 * Abs(0x2_0000 * (sum + Fmult(coefficient, srn)) - (exact + Exact(coefficient, srn)))
         <= total + Abs(Exact(coefficient, srn)) + 16 * 0x10_0000 * k
  {
    hide *;
    TapIsNear(coefficient, srn);
    Accumulates(sum, Fmult(coefficient, srn), exact, Exact(coefficient, srn),
                total + 16 * 0x10_0000 * (k - 1), Abs(Exact(coefficient, srn)) + 16 * 0x10_0000);
  }

  lemma SignalsNormalised(s: State, i: nat)
    requires Normalised(s) && i < 6
    ensures s.dq[i] % 64 >= 32
  {
  }

  lemma SumsUnfold(s: State, k: nat)
    requires |s.b| == |s.dq| == 6 && 1 <= k <= 6
    ensures var coefficient, srn := s.b[k - 1] / 4, s.dq[k - 1];
            && ZeroSum(s, k) == ZeroSum(s, k - 1) + Fmult(coefficient, srn)
            && ExactZeros(s, k) == ExactZeros(s, k - 1) + Exact(coefficient, srn)
            && ExactTotal(s, k) == ExactTotal(s, k - 1) + Abs(Exact(coefficient, srn))
  {
    hide Fmult;
    hide Exact;
  }

  lemma Accumulates(sum: int, more: int, exact: int, term: int, bound: int, step: int)
    requires 16 * Abs(0x2_0000 * sum - exact) <= bound && 16 * Abs(0x2_0000 * more - term) <= step
    ensures 16 * Abs(0x2_0000 * (sum + more) - (exact + term)) <= bound + step
  {
  }

  /** So is the pole predictor. */
  lemma PolesAreLinear(s: State)
    requires Normalised(s) && TapFits(s.a1 / 4, s.sr1) && TapFits(s.a2 / 4, s.sr2)
    ensures var sum := Fmult(s.a2 / 4, s.sr2) + Fmult(s.a1 / 4, s.sr1);
            var one, two := Exact(s.a1 / 4, s.sr1), Exact(s.a2 / 4, s.sr2);
            && PredictorPole(s) == Wrap16(sum)
            && 16 * Abs(0x2_0000 * sum - (one + two)) <= Abs(one) + Abs(two) + 16 * 0x20_0000
  {
    hide Fmult;
    hide Exact;
    TapIsNear(s.a1 / 4, s.sr1);
    TapIsNear(s.a2 / 4, s.sr2);
  }
}
