/**
 * Reflection coefficients and log-area ratios of GSM 06.10 (sections 4.2.5 to 4.2.9;
 * `crates/siphon-rtp-codec/src/gsm_fr.rs`): the Schur recursion, the piecewise logarithm and its
 * inverse, the quantizer and its decoder, and the interpolation over a frame.
 */
module GsmLar {
  import opened Arithmetic
  import opened FixedPoint
  import opened GsmAnalysis
  import opened GsmFrame
  import opened GsmMath
  import opened PowersOfTwo

  const GSM_A: seq<Word> := [20480, 20480, 20480, 20480, 13964, 15360, 8534, 9036]
  const GSM_B: seq<Word> := [0, 0, 2048, -2560, 94, -1792, -341, -1144]
  const GSM_MIC: seq<Word> := [-32, -32, -16, -16, -8, -8, -4, -4]
  const GSM_MAC: seq<Word> := [31, 31, 15, 15, 7, 7, 3, 3]
  const GSM_INVA: seq<Word> := [13107, 13107, 13107, 13107, 19223, 17476, 31454, 29708]
  const GSM_B_TIMES_TWO: seq<Word> := [0, 0, 4096, -5120, 188, -3584, -682, -2288]

  // ---- The Schur recursion --------------------------------------------------------------------------

  /** What a frame's energy-dominated correlations look like. */
  predicate Dominated(acf: seq<int>) {
    && |acf| == 9 && 0 <= acf[0] <= 0x7FFF_FFFF
    && forall i :: 0 <= i < 9 ==> -acf[0] <= acf[i] <= acf[0]
  }

  /** Sums of a scaled frame are dominated, so normalizing them by the first shifts none out of range. */
  lemma SumsDominated(s: seq<Word>)
    requires |s| == FRAME_SAMPLES && Within(s, 2048)
    ensures Dominated(Sums(s))
  {
    hide Corr;
    CorrBounded(s, 0, |s|);
    EnergyGrows(s, |s|, |s|);
    forall i | 0 <= i < 9 ensures -Corr(s, 0, |s|) <= Corr(s, i, |s|) <= Corr(s, 0, |s|) {
      EnergyDominates(s, i);
    }
  }

  /** One normalized correlation: shifted up to the sign bit in 32 bits, its upper word kept. */
  function Normalized(acf: seq<int>, i: nat): Word
    requires Dominated(acf) && acf[0] != 0 && i < 9
  {
    NormFits(acf[0]);
    ShiftInRange(acf[i], acf[0], Pow2(Norm(acf[0])));
    I32(acf[i] * Pow2(Norm(acf[0]))) / 65536
  }

  lemma ShiftInRange(x: int, top: int, p: nat)
    requires -top <= x <= top && top * p <= 0x7FFF_FFFF
    ensures InI32(x * p) && InI16(x * p / 65536)
  {
    ProductOrder(x, top, p);
    ProductOrder(-top, x, p);
    assert -top * p == -(top * p);
  }

  /** The reflection coefficient of one stage, signed against the correlation. */
  function Coefficient(p0: Word, p1: Word): (r: Word)
    requires Magnitude(p1) <= p0
    ensures -0x7FFF <= r <= 0x7FFF
  {
    var q := Fraction(Magnitude(p1), p0);
    assert q >= 0 by { hide Fraction; FractionPositive(Magnitude(p1), p0); }
    if p1 > 0 then -q else q
  }

  lemma FractionPositive(num: int, den: int)
    requires 0 <= num <= den <= 0x7FFF
    ensures Fraction(num, den) >= 0
  {
    if 0 < num < den { FractionFits(num, den); }
  }

  /** Row `p` after stage `n`: all its new entries come from the old rows. */
  function NextP(k: seq<Word>, p: seq<Word>, rn: Word, n: nat): (q: seq<Word>)
    requires |k| == |p| == 9 && 1 <= n < 8
    ensures |q| == 9
  {
    seq(9, m requires 0 <= m < 9 =>
      if m == 0 then Add(p[0], MultR(p[1], rn))
      else if m <= 8 - n then Add(p[m + 1], MultR(k[m], rn))
      else p[m])
  }

  function NextK(k: seq<Word>, p: seq<Word>, rn: Word, n: nat): (q: seq<Word>)
    requires |k| == |p| == 9 && 1 <= n < 8
    ensures |q| == 9
  {
    seq(9, m requires 0 <= m < 9 => if 1 <= m <= 8 - n then Add(k[m], MultR(p[m + 1], rn)) else k[m])
  }

  /** Coefficients `n` to 8. A stage whose correlation exceeds its energy ends the recursion in zeros. */
  function Reflections(k: seq<Word>, p: seq<Word>, n: nat): (r: seq<Word>)
    requires |k| == |p| == 9 && 1 <= n <= 8
    ensures |r| == 9 - n
    decreases 8 - n
  {
    if Magnitude(p[1]) > p[0] then seq(9 - n, _ => 0)
    else
      var rn := Coefficient(p[0], p[1]);
      if n == 8 then [rn] else [rn] + Reflections(NextK(k, p, rn, n), NextP(k, p, rn, n), n + 1)
  }

  function Correlations(acf: seq<int>): (p: seq<Word>)
    requires Dominated(acf) && acf[0] != 0
    ensures |p| == 9
  {
    seq(9, i requires 0 <= i < 9 => Normalized(acf, i))
  }

  function ReflectionCoefficients(acf: seq<int>): (r: seq<Word>)
    requires Dominated(acf)
    ensures |r| == 8
  {
    if acf[0] == 0 then [0, 0, 0, 0, 0, 0, 0, 0]
    else
      var p := Correlations(acf);
      Reflections([0] + p[1..8] + [0], p, 1)
  }

  /** One stage, updating both rows in place from left to right. */
  method SchurStage(k: array<Word>, p: array<Word>, rn: Word, n: nat)
    requires k.Length == p.Length == 9 && k != p && 1 <= n < 8
    modifies k, p
    ensures p[..] == NextP(old(k[..]), old(p[..]), rn, n) && k[..] == NextK(old(k[..]), old(p[..]), rn, n)
  {
    hide MultR;
    hide Add;
    ghost var k0, p0 := k[..], p[..];
    var temp := MultR(p[1], rn);
    p[0] := Add(p[0], temp);
    for m := 1 to 9 - n
      invariant p[0] == Add(p0[0], MultR(p0[1], rn)) && k[0] == k0[0]
      invariant forall i :: 1 <= i < m ==> p[i] == NextP(k0, p0, rn, n)[i] && k[i] == NextK(k0, p0, rn, n)[i]
      invariant forall i :: m <= i < 9 ==> p[i] == p0[i] && k[i] == k0[i]
    {
      var t1 := MultR(k[m], rn);
      var pm := Add(p[m + 1], t1);
      var t2 := MultR(p[m + 1], rn);
      k[m] := Add(k[m], t2);
      p[m] := pm;
    }
  }

  lemma ReflectionsUnfold(k: seq<Word>, p: seq<Word>, n: nat)
    requires |k| == |p| == 9 && 1 <= n <= 8
    ensures Magnitude(p[1]) > p[0] ==> Reflections(k, p, n) == seq(9 - n, _ => 0)
    ensures Magnitude(p[1]) <= p[0] ==>
              var rn := Coefficient(p[0], p[1]);
              Reflections(k, p, n)
              == if n == 8 then [rn] else [rn] + Reflections(NextK(k, p, rn, n), NextP(k, p, rn, n), n + 1)
  {
  }

  lemma CoefficientByDivision(p0: Word, p1: Word)
    requires Magnitude(p1) <= p0
    ensures Fraction(Magnitude(p1), p0) >= 0
    ensures Coefficient(p0, p1) == if p1 > 0 then -Fraction(Magnitude(p1), p0) else Fraction(Magnitude(p1), p0)
  {
    hide Fraction;
    FractionPositive(Magnitude(p1), p0);
  }

  method Reflected(p0: Word, p1: Word) returns (rn: Word)
    requires Magnitude(p1) <= p0
    ensures rn == Coefficient(p0, p1)
  {
    hide Fraction;
    hide Coefficient;
    rn := Div(Magnitude(p1), p0);
    CoefficientByDivision(p0, p1);
    if p1 > 0 { rn := -rn; }
  }

  lemma Regroup<T>(a: seq<T>, b: seq<T>, c: seq<T>)
    ensures a + (b + c) == a + b + c
  {
  }

  /** The recursion as a loop over the two rows. */
  method Schur(row: seq<Word>) returns (r: seq<Word>)
    requires |row| == 9
    ensures r == Reflections([0] + row[1..8] + [0], row, 1)
  {
    hide NextP;
    hide NextK;
    hide Fraction;
    hide Reflections;
    hide Coefficient;
    hide Magnitude;
    var k := new Word[9](i requires 0 <= i < 9 => if 1 <= i < 8 then row[i] else 0);
    var p := new Word[9](i requires 0 <= i < 9 => row[i]);
    assert p[..] == row && k[..] == [0] + row[1..8] + [0];
    ghost var whole := Reflections([0] + row[1..8] + [0], row, 1);
    r := [];
    for n := 1 to 9
      invariant n < 9 ==> |r| == n - 1 && r + Reflections(k[..], p[..], n) == whole
      invariant n == 9 ==> r == whole
    {
      ReflectionsUnfold(k[..], p[..], n);
      var temp := Magnitude(p[1]);
      if p[0] < temp {
        r := r + seq(9 - n, _ => 0);
        return;
      }
      var rn := Reflected(p[0], p[1]);
      if n == 8 {
        r := r + [rn];
        return;
      }
      SchurStage(k, p, rn, n);
      Regroup(r, [rn], Reflections(k[..], p[..], n + 1));
      r := r + [rn];
    }
  }

  method Reflect(acf: seq<int>) returns (r: seq<Word>)
    requires Dominated(acf)
    ensures r == ReflectionCoefficients(acf)
  {
    hide Normalized;
    hide Reflections;
    if acf[0] == 0 {
      return [0, 0, 0, 0, 0, 0, 0, 0];
    }
    var row := Normalize(acf);
    r := Schur(row);
  }

  method Normalize(acf: seq<int>) returns (row: seq<Word>)
    requires Dominated(acf) && acf[0] != 0
    ensures row == Correlations(acf)
  {
    hide Norm;
    hide Pow2;
    NormFits(acf[0]);
    var shift := Norm(acf[0]);
    row := [];
    for i := 0 to 9
      invariant row == Correlations(acf)[..i]
    {
      ShiftInRange(acf[i], acf[0], Pow2(shift));
      row := row + [I32(acf[i] * Pow2(shift)) / 65536];
    }
  }

  // ---- Log-area ratios ------------------------------------------------------------------------------

  /** The piecewise-linear logarithm of a reflection coefficient. */
  function Lar(r: Word): (lar: Word)
    ensures -26620 <= lar <= 26620
  {
    var m := Magnitude(r);
    var mapped := if m < 22118 then m / 2 else if m < 31130 then m - 11059 else (m - 26112) * 4;
    if r < 0 then -mapped else mapped
  }

  /** The decoder's inverse of the same map. */
  function Unlar(larp: Word): (r: Word)
    ensures -0x7FFF <= r
  {
    var m := Magnitude(larp);
    var mapped := if m < 11059 then m * 2 else if m < 20070 then m + 11059 else Add(m / 4, 26112);
    if larp < 0 then -mapped else mapped
  }

  /** The logarithm is undone exactly, but for the low bit of a small coefficient and the lone minimum. */
  lemma UnlarOfLarIff(r: Word)
    ensures Unlar(Lar(r)) == r <==> r != -0x8000 && (Magnitude(r) >= 22118 || r % 2 == 0)
    ensures Abs(Unlar(Lar(r)) - r) <= 1
  {
  }

  // ---- The quantizer ---------------------------------------------------------------------------------

  /** The rounded level of one ratio before it is limited to its code range. */
  function Level(i: nat, lar: Word): Word
    requires i < 8
  {
    Add(Add(Mult(GSM_A[i], lar), GSM_B[i]), 256) / 512
  }

  /** Every code fits the width its index has on the wire. */
  function LarCode(i: nat, lar: Word): (code: Word)
    requires i < 8
    ensures 0 <= code < LAR_LEVELS[i]
  {
    var level := Level(i, lar);
    if level > GSM_MAC[i] then GSM_MAC[i] - GSM_MIC[i]
    else if level < GSM_MIC[i] then 0
    else level - GSM_MIC[i]
  }

  /** The decoder's ratio of a code, its shift truncated to 16 bits. */
  function DecodedLar(i: nat, code: Word): Word
    requires i < 8
  {
    var shifted := Wrap16(I32(Add(code, GSM_MIC[i]) * 1024));
    var scaled := MultR(GSM_INVA[i], Sub(shifted, GSM_B_TIMES_TWO[i]));
    Add(scaled, scaled)
  }

  /** Half a quantizer step of each index, with the decoder's own rounding. */
  const HALF_STEP := [411, 411, 411, 411, 601, 547, 984, 929]

  /** The decoder's rounded product `m` for the 15-bit centre `y` of a level; twice `m` is the decoded ratio. */
  predicate Rounds(inva: int, y: int, m: int) {
    2 * (inva * y) - 16384 < 32768 * m <= 2 * (inva * y) + 16384
  }

  /** A scaled ratio lies within half a level of the centre `y`. */
  predicate Near(a: int, lar: int, y: int) {
    32768 * (y - 256) <= a * lar < 32768 * (y + 256)
  }

  /** The five pairs of factors, with the centres their levels can have. */
  predicate FactorPair(a: int, inva: int, y: int, half: int) {
    || (a == 20480 && inva == 13107 && half == 411 && Abs(y) <= 16384)
    || (a == 13964 && inva == 19223 && half == 601 && Abs(y) <= 5376)
    || (a == 15360 && inva == 17476 && half == 547 && Abs(y) <= 5376)
    || (a == 8534 && inva == 31454 && half == 984 && Abs(y) <= 2389)
    || (a == 9036 && inva == 29708 && half == 929 && Abs(y) <= 2680)
  }

  /** What the decoded ratio `2 * m` says about a ratio near, above or below the centre. */
  predicate DecodesAs(a: int, half: int, lar: int, y: int, m: int) {
    && (Near(a, lar, y) ==> Abs(2 * m - lar) <= half)
    && (32768 * (y + 256) <= a * lar ==> 2 * m < lar)
    && (a * lar < 32768 * (y - 256) ==> 2 * m > lar)
  }

  lemma HalfSteps(a: int, inva: int, half: int, lar: int, y: int, m: int)
    requires FactorPair(a, inva, y, half) && Rounds(inva, y, m)
    ensures DecodesAs(a, half, lar, y, m)
  {
    hide DecodesAs;
    hide Rounds;
    if a == 20480 {
      Steps20480(lar, y, m);
    } else if a == 13964 {
      Steps13964(lar, y, m);
    } else if a == 15360 {
      Steps15360(lar, y, m);
    } else if a == 8534 {
      Steps8534(lar, y, m);
    } else {
      Steps9036(lar, y, m);
    }
  }

  lemma Steps20480(lar: int, y: int, m: int)
    requires Rounds(13107, y, m) && Abs(y) <= 16384
    ensures DecodesAs(20480, 411, lar, y, m)
  {
  }

  lemma Steps13964(lar: int, y: int, m: int)
    requires Rounds(19223, y, m) && Abs(y) <= 5376
    ensures DecodesAs(13964, 601, lar, y, m)
  {
  }

  lemma Steps15360(lar: int, y: int, m: int)
    requires Rounds(17476, y, m) && Abs(y) <= 5376
    ensures DecodesAs(15360, 547, lar, y, m)
  {
  }

  lemma Steps8534(lar: int, y: int, m: int)
    requires Rounds(31454, y, m) && Abs(y) <= 2389
    ensures DecodesAs(8534, 984, lar, y, m)
  {
  }

  lemma Steps9036(lar: int, y: int, m: int)
    requires Rounds(29708, y, m) && Abs(y) <= 2680
    ensures DecodesAs(9036, 929, lar, y, m)
  {
  }

  /**
   * A ratio whose level is in range is decoded to within half a quantizer step of itself; one beyond the
   * range gets the last code on its side, which falls short of it.
   */
  lemma DecodedLarIsClose(i: nat, lar: Word)
    requires i < 8
    ensures var level, code := Level(i, lar), LarCode(i, lar);
            && (GSM_MIC[i] <= level <= GSM_MAC[i] ==> Abs(DecodedLar(i, code) - lar) <= HALF_STEP[i])
            && (level > GSM_MAC[i] ==> code == GSM_MAC[i] - GSM_MIC[i] && DecodedLar(i, code) < lar)
            && (level < GSM_MIC[i] ==> code == 0 && DecodedLar(i, code) > lar)
  {
    hide DecodedLar;
    hide Level;
    hide Near;
    hide Rounds;
    hide FactorPair;
    hide LarCode;
    var level, kept := Level(i, lar), Kept(i, lar);
    var y: int := 512 * kept as int - GSM_B[i] as int;
    KeptIsCoded(i, lar);
    LevelIsNear(i, lar);
    DecodedIsNear(i, kept);
    CentreBounds(i, kept);
    FactorsOf(i, y);
    HalfSteps(GSM_A[i], GSM_INVA[i], HALF_STEP[i], lar, y, DecodedLar(i, kept - GSM_MIC[i]) / 2);
    if level > GSM_MAC[i] {
      BeyondTop(GSM_A[i], lar, 512 * level as int - GSM_B[i] as int, y);
    } else if level < GSM_MIC[i] {
      BeyondBottom(GSM_A[i], lar, 512 * level as int - GSM_B[i] as int, y);
    }
  }

  /** The level limited to the code range. */
  function Kept(i: nat, lar: Word): Word
    requires i < 8
  {
    var level := Level(i, lar);
    if level > GSM_MAC[i] then GSM_MAC[i] else if level < GSM_MIC[i] then GSM_MIC[i] else level
  }

  lemma KeptIsCoded(i: nat, lar: Word)
    requires i < 8
    ensures GSM_MIC[i] <= Kept(i, lar) <= GSM_MAC[i] && LarCode(i, lar) == Kept(i, lar) - GSM_MIC[i]
  {
    hide Level;
  }

  lemma BeyondTop(a: int, lar: int, at: int, y: int)
    requires Near(a, lar, at) && at >= y + 512
    ensures 32768 * (y + 256) <= a * lar
  {
  }

  lemma BeyondBottom(a: int, lar: int, at: int, y: int)
    requires Near(a, lar, at) && at <= y - 512
    ensures a * lar < 32768 * (y - 256)
  {
  }

  lemma FactorsOf(i: nat, y: int)
    requires i < 8 && -16384 <= y <= 16383
    requires (4 <= i < 6 ==> Abs(y) <= 5376) && (i == 6 ==> Abs(y) <= 2389) && (i == 7 ==> Abs(y) <= 2680)
    ensures FactorPair(GSM_A[i], GSM_INVA[i], y, HALF_STEP[i])
  {
  }

  /** The level's centre is the scaled ratio to within half a level. */
  lemma LevelIsNear(i: nat, lar: Word)
    requires i < 8
    ensures Near(GSM_A[i], lar, 512 * Level(i, lar) as int - GSM_B[i] as int)
  {
    var product := GSM_A[i] as int * lar as int;
    BoundedProduct(GSM_A[i], lar, 20480, 32768);
    assert Mult(GSM_A[i], lar) == product / 32768;
  }

  /** The decoder's product for that centre, which neither wraps nor saturates. */
  lemma DecodedIsNear(i: nat, level: Word)
    requires i < 8 && GSM_MIC[i] <= level <= GSM_MAC[i]
    ensures var y := 512 * level as int - GSM_B[i] as int;
            var d := DecodedLar(i, level - GSM_MIC[i]);
            d % 2 == 0 && Rounds(GSM_INVA[i], y, d / 2)
  {
    var y := 512 * level as int - GSM_B[i] as int;
    CentreBounds(i, level);
    var product := GSM_INVA[i] as int * (2 * y);
    assert GSM_INVA[i] as int * (2 * y) == 2 * (GSM_INVA[i] as int * y);
    assert Sub(Wrap16(I32(Add(level - GSM_MIC[i], GSM_MIC[i]) * 1024)), GSM_B_TIMES_TWO[i]) == 2 * y;
    assert MultR(GSM_INVA[i], 2 * y) == (product + 16384) / 32768;
  }

  lemma CentreBounds(i: nat, level: Word)
    requires i < 8 && GSM_MIC[i] <= level <= GSM_MAC[i]
    ensures var y := 512 * level as int - GSM_B[i] as int;
            && -16384 <= y <= 16383 && -0x1000_0000 + 32768 <= GSM_INVA[i] as int * y <= 0x1000_0000 - 32768
            && (4 <= i < 6 ==> Abs(y) <= 5376) && (i == 6 ==> Abs(y) <= 2389) && (i == 7 ==> Abs(y) <= 2680)
            && GSM_B_TIMES_TWO[i] == 2 * GSM_B[i]
  {
    var y := 512 * level as int - GSM_B[i] as int;
    if i < 4 {
      assert -16384 <= y <= 16383;
      BoundedProduct(GSM_INVA[i], y, 13107, 16384);
    } else if i < 6 {
      assert -4190 <= y <= 5376;
      BoundedProduct(GSM_INVA[i], y, 19223, 5376);
    } else {
      assert -2389 <= y <= 2680;
      BoundedProduct(GSM_INVA[i], y, 31454, 2680);
    }
  }

  // ---- Analysis of a frame, and the ratios both ends interpolate --------------------------------------

  /** The eight codes of a pre-processed frame. */
  function LarCodes(s: seq<Word>): (larc: seq<Word>)
    requires |s| == FRAME_SAMPLES
    ensures LarsFit(larc)
  {
    ScaledWithin(s);
    var scaled := ScaledFrame(s, ScaleBits(Peak(s, |s|)));
    SumsDominated(scaled);
    CodesOf(ReflectionCoefficients(Sums(scaled)))
  }

  function CodesOf(r: seq<Word>): (larc: seq<Word>)
    requires |r| == 8
    ensures LarsFit(larc)
  {
    seq(8, i requires 0 <= i < 8 => LarCode(i, Lar(r[i])))
  }

  method ToLar(r: Word) returns (lar: Word)
    ensures lar == Lar(r)
  {
    var temp := Magnitude(r);
    if temp < 22118 {
      temp := temp / 2;
    } else if temp < 31130 {
      temp := temp - 11059;
    } else {
      temp := (temp - 26112) * 4;
    }
    lar := if r < 0 then -temp else temp;
  }

  method CodeLar(i: nat, lar: Word) returns (code: Word)
    requires i < 8
    ensures code == LarCode(i, lar)
  {
    hide Mult;
    var temp := Mult(GSM_A[i], lar);
    temp := Add(temp, GSM_B[i]);
    temp := Add(temp, 256);
    temp := temp / 512;
    if temp > GSM_MAC[i] {
      code := GSM_MAC[i] - GSM_MIC[i];
    } else if temp < GSM_MIC[i] {
      code := 0;
    } else {
      code := temp - GSM_MIC[i];
    }
  }

  method LpcAnalysis(so: array<Word>) returns (larc: seq<Word>)
    requires so.Length == FRAME_SAMPLES
    modifies so
    ensures so[..] == AfterAnalysis(old(so[..])) && larc == LarCodes(old(so[..]))
  {
    hide Sums;
    hide Scaled;
    hide ReflectionCoefficients;
    hide LarCode;
    hide Lar;
    hide AfterAnalysis;
    hide Dominated;
    hide Within;
    ghost var before := so[..];
    ScaledWithin(before);
    var acf := Autocorrelation(so);
    SumsDominated(ScaledFrame(before, ScaleBits(Peak(before, FRAME_SAMPLES))));
    var r := Reflect(acf);
    larc := [];
    for i := 0 to 8
      invariant larc == CodesOf(r)[..i] && so[..] == AfterAnalysis(before)
    {
      var lar := ToLar(r[i]);
      var code := CodeLar(i, lar);
      larc := larc + [code];
    }
    assert larc == CodesOf(r);
  }

  function DecodedLars(larc: seq<Word>): (larpp: seq<Word>)
    requires |larc| == 8
    ensures |larpp| == 8
  {
    seq(8, i requires 0 <= i < 8 => DecodedLar(i, larc[i]))
  }

  method DecodeLars(larc: seq<Word>) returns (larpp: seq<Word>)
    requires |larc| == 8
    ensures larpp == DecodedLars(larc)
  {
    hide MultR;
    hide Wrap16;
    larpp := [];
    for i := 0 to 8
      invariant larpp == DecodedLars(larc)[..i]
    {
      var temp: Word := Wrap16(I32(Add(larc[i], GSM_MIC[i]) * 1024));
      temp := Sub(temp, GSM_B_TIMES_TWO[i]);
      temp := MultR(GSM_INVA[i], temp);
      larpp := larpp + [Add(temp, temp)];
    }
  }

  /** One ratio in one of the four regions of a frame, between the previous frame's and this one's. */
  function Interpolated(prev: Word, cur: Word, region: nat): Word {
    match region
    case 0 => Add(Add(prev / 4, cur / 4), prev / 2)
    case 1 => Add(prev / 2, cur / 2)
    case 2 => Add(Add(prev / 4, cur / 4), cur / 2)
    case _ => cur
  }

  /** The weights of the four regions are 3/4, 1/2, 1/4 and none of the previous frame's ratio, rounded down. */
  lemma InterpolationWeights(prev: Word, cur: Word)
    ensures 3 * prev + cur - 8 <= 4 * Interpolated(prev, cur, 0) <= 3 * prev + cur
    ensures prev + cur - 2 <= 2 * Interpolated(prev, cur, 1) <= prev + cur
    ensures prev + 3 * cur - 8 <= 4 * Interpolated(prev, cur, 2) <= prev + 3 * cur
    ensures Interpolated(prev, cur, 3) == cur
  {
  }

  /** The filter coefficients of one region. */
  function RegionCoefficients(prev: seq<Word>, cur: seq<Word>, region: nat): (rp: seq<Word>)
    requires |prev| == |cur| == 8
    ensures |rp| == 8
  {
    seq(8, i requires 0 <= i < 8 => Unlar(Interpolated(prev[i], cur[i], region)))
  }

  method InterpolateOne(prev: Word, cur: Word, region: nat) returns (larp: Word)
    ensures larp == Interpolated(prev, cur, region)
  {
    if region == 0 {
      var t := Add(prev / 4, cur / 4);
      larp := Add(t, prev / 2);
    } else if region == 1 {
      larp := Add(prev / 2, cur / 2);
    } else if region == 2 {
      var t := Add(prev / 4, cur / 4);
      larp := Add(t, cur / 2);
    } else {
      larp := cur;
    }
  }

  method ToReflection(larp: Word) returns (r: Word)
    ensures r == Unlar(larp)
  {
    var temp := if larp >= 0 then larp else if larp == -0x8000 then 0x7FFF else -larp;
    if temp < 11059 {
      r := temp * 2;
    } else if temp < 20070 {
      r := temp + 11059;
    } else {
      r := Add(temp / 4, 26112);
    }
    if larp < 0 { r := -r; }
  }

  method Interpolate(prev: seq<Word>, cur: seq<Word>, region: nat) returns (rp: seq<Word>)
    requires |prev| == |cur| == 8
    ensures rp == RegionCoefficients(prev, cur, region)
  {
    hide Unlar;
    hide Interpolated;
    rp := [];
    for i := 0 to 8
      invariant rp == RegionCoefficients(prev, cur, region)[..i]
    {
      var larp := InterpolateOne(prev[i], cur[i], region);
      var r := ToReflection(larp);
      rp := rp + [r];
    }
  }
}
