/**
 * One sample of G.726 ADPCM (`crates/siphon-rtp-codec/src/g726.rs`) as functions on values: tables,
 * predictor, quantizer, adaptation. 16-bit stores go through `Wrap16`; `>> k` is floor division.
 */
module G726 {
  import opened Arithmetic
  import opened FixedPoint
  import opened PowersOfTwo

  datatype Rate = R16 | R24 | R32 | R40

  const DQLN_16 := [116, 365, 365, 116]
  const WI_16 := [-704, 14048, 14048, -704]
  const FI_16 := [0x000, 0xE00, 0xE00, 0x000]
  const Q_16 := [261]

  const DQLN_24 := [-2048, 135, 273, 373, 373, 273, 135, -2048]
  const WI_24 := [-128, 960, 4384, 18624, 18624, 4384, 960, -128]
  const FI_24 := [0x000, 0x200, 0x400, 0xE00, 0xE00, 0x400, 0x200, 0x000]
  const Q_24 := [8, 218, 331]

  const DQLN_32 := [-2048, 4, 135, 213, 273, 323, 373, 425, 425, 373, 323, 273, 213, 135, 4, -2048]
  const WI_32 := [-384, 576, 1312, 2048, 3584, 6336, 11360, 35904, 35904, 11360, 6336, 3584, 2048, 1312, 576, -384]
  const FI_32 := [
    0x000, 0x000, 0x000, 0x200, 0x200, 0x200, 0x600, 0xE00,
    0xE00, 0x600, 0x200, 0x200, 0x200, 0x000, 0x000, 0x000]
  const Q_32 := [-124, 80, 178, 246, 300, 349, 400]

  const DQLN_40 := [
    -2048, -66, 28, 104, 169, 224, 274, 318, 358, 395, 429, 459, 488, 514, 539, 566,
    566, 539, 514, 488, 459, 429, 395, 358, 318, 274, 224, 169, 104, 28, -66, -2048]
  const WI_40 := [
    448, 448, 768, 1248, 1280, 1312, 1856, 3200, 4512, 5728, 7008, 8960, 11456, 14080, 16928, 22272,
    22272, 16928, 14080, 11456, 8960, 7008, 5728, 4512, 3200, 1856, 1312, 1280, 1248, 768, 448, 448]
  const FI_40 := [
    0x000, 0x000, 0x000, 0x000, 0x000, 0x200, 0x200, 0x200, 0x200, 0x200, 0x400, 0x600, 0x800, 0xA00, 0xC00, 0xC00,
    0xC00, 0xC00, 0xA00, 0x800, 0x600, 0x400, 0x200, 0x200, 0x200, 0x200, 0x200, 0x000, 0x000, 0x000, 0x000, 0x000]
  const Q_40 := [-122, -16, 68, 139, 198, 250, 298, 339, 378, 413, 445, 475, 502, 528, 553]

  function CodewordBits(rate: Rate): (width: nat)
    ensures 2 <= width <= 5
  {
    match rate case R16 => 2 case R24 => 3 case R32 => 4 case R40 => 5
  }

  function QuantizerStates(rate: Rate): nat {
    match rate case R16 => 4 case R24 => 7 case R32 => 15 case R40 => 31
  }

  /** The weight of a codeword's sign bit; codewords are below twice this. */
  function SignBit(rate: Rate): nat {
    match rate case R16 => 2 case R24 => 4 case R32 => 8 case R40 => 16
  }

  /** One more than the magnitude mask: 0x3FFF below 40 kbit/s, 0x7FFF at 40. */
  function MagnitudeLimit(rate: Rate): (limit: nat)
    ensures limit > 0
  {
    if rate == R40 then 0x8000 else 0x4000
  }

  function Qtab(rate: Rate): seq<int> {
    match rate case R16 => Q_16 case R24 => Q_24 case R32 => Q_32 case R40 => Q_40
  }

  function Dqlntab(rate: Rate): seq<int> {
    match rate case R16 => DQLN_16 case R24 => DQLN_24 case R32 => DQLN_32 case R40 => DQLN_40
  }

  function Witab(rate: Rate): seq<int> {
    match rate case R16 => WI_16 case R24 => WI_24 case R32 => WI_32 case R40 => WI_40
  }

  function Fitab(rate: Rate): seq<int> {
    match rate case R16 => FI_16 case R24 => FI_24 case R32 => FI_32 case R40 => FI_40
  }

  predicate IsCode(rate: Rate, code: int) {
    0 <= code < 2 * SignBit(rate)
  }

  // ---- State -------------------------------------------------------------------------------------

  datatype State = State(
    yl: int, yu: int, dms: int, dml: int, ap: int,
    a1: int, a2: int, b: seq<int>,
    pk1: int, pk2: int, dq: seq<int>, sr1: int, sr2: int, td: bool)

  const RESET := State(34816, 544, 0, 0, 0, 0, 0, [0, 0, 0, 0, 0, 0], 0, 0, [32, 32, 32, 32, 32, 32], 32, 32, false)

  // ---- Predictor and step size -----------------------------------------------------------------------

  function Fmult(an: int, srn: int): int {
    var anmag: nat := if an > 0 then an else (-an) % 0x2000;
    var anexp := TopBit(anmag) - 5;
    var anmant := if anmag == 0 then 32 else if anexp >= 0 then anmag / Pow2(anexp) else anmag * Pow2(-anexp);
    var wanexp := anexp + srn / 64 % 16 - 13;
    var wanmant := (anmant * (srn % 64) + 0x30) / 16;
    var retval := if wanexp >= 0 then wanmant * Pow2(wanexp) % 0x8000 else wanmant / Pow2(-wanexp);
    Wrap16(if (an < 0) != (srn < 0) then -retval else retval)
  }

  /** The first `k` taps of the zero predictor. */
  function ZeroSum(s: State, k: nat): int
    requires |s.b| == |s.dq| == 6 && k <= 6
  {
    if k == 0 then 0 else ZeroSum(s, k - 1) + Fmult(s.b[k - 1] / 4, s.dq[k - 1])
  }

  function PredictorZero(s: State): int
    requires |s.b| == |s.dq| == 6
  {
    Wrap16(ZeroSum(s, 6))
  }

  function PredictorPole(s: State): int {
    Wrap16(Fmult(s.a2 / 4, s.sr2) + Fmult(s.a1 / 4, s.sr1))
  }

  function StepSize(s: State): int {
    if s.ap >= 256 then s.yu
    else
      var y := s.yl / 64;
      var dif := s.yu - y;
      var al := s.ap / 4;
      if dif > 0 then y + dif * al / 64
      else if dif < 0 then y + (dif * al + 0x3F) / 64
      else y
  }

  /** Sign-extend from bit 14. */
  function SignalEstimate15(value: int): (r: int)
    ensures -0x4000 <= r < 0x4000
  {
    (value + 0x4000) % 0x8000 - 0x4000
  }

  function Estimate(s: State): int
    requires |s.b| == |s.dq| == 6
  {
    SignalEstimate15((PredictorZero(s) + PredictorPole(s)) / 2)
  }

  // ---- Quantizer ---------------------------------------------------------------------------------------

  /** The base-2 logarithm of a difference, seven fractional bits. */
  function LogOf(dqm: nat): int {
    var exp := TopBit(dqm / 2) + 1;
    exp * 128 + dqm * 128 / Pow2(exp) % 128
  }

  /** How many leading thresholds `dln` has passed. */
  function Passed(table: seq<int>, dln: int): (i: nat)
    ensures i <= |table|
    ensures forall k :: 0 <= k < i ==> table[k] <= dln
    ensures i < |table| ==> dln < table[i]
  {
    if |table| == 0 || dln < table[0] then 0 else 1 + Passed(table[1..], dln)
  }

  function Quantize(rate: Rate, d: int, y: int): int
    requires Abs(d) <= 0x7FFF
  {
    var i := Passed(Qtab(rate), LogOf(Abs(d)) - y / 4);
    if d < 0 then 2 * |Qtab(rate)| + 1 - i
    else if i == 0 && QuantizerStates(rate) % 2 != 0 then QuantizerStates(rate)
    else i
  }

  function Reconstruct(negative: bool, dqln: int, y: int): int {
    var dql := dqln + y / 4;
    if dql < 0 then if negative then -0x8000 else 0
    else
      var dex := dql / 128 % 16;
      var dq := (128 + dql % 128) * 128 / Pow2(if dex < 14 then 14 - dex else 0);
      Wrap16(if negative then dq - 0x8000 else dq)
  }

  // ---- Adaptation ----------------------------------------------------------------------------------------

  /** What every state of a run satisfies. */
  predicate Ok(s: State) {
    && 34816 <= s.yl <= 327680 && 544 <= s.yu <= 5120 && 0 <= s.ap <= 512
    && 0 <= s.dms <= 3584 && 0 <= s.dml <= 14336
    && -12288 <= s.a2 <= 12288 && -(15360 - s.a2) <= s.a1 <= 15360 - s.a2
    && |s.b| == 6 && |s.dq| == 6 && 0 <= s.pk1 <= 1 && 0 <= s.pk2 <= 1
    && (forall i :: 0 <= i < 6 ==> InI16(s.b[i]) && InI16(s.dq[i]))
    && InI16(s.sr1) && InI16(s.sr2)
  }

  /** The transition detector. */
  predicate Transition(s: State, mag: int) {
    var ylint := s.yl / 0x8000;
    var ylfrac := s.yl / 0x400 % 32;
    var thr := if ylint > 9 then 31 * 0x400 else (32 + ylfrac) * Pow2(if ylint > 0 then ylint else 0);
    s.td && mag > (thr + thr / 2) / 2
  }

  function NextYu(y: int, wi: int): int {
    Clamp(y + (wi - y) / 32, 544, 5120)
  }

  /** UPA2 and LIMC: the second pole coefficient. */
  function NextA2(s: State, pk0: int, dqsez: int): int {
    var leaked := s.a2 - s.a2 / 128;
    if dqsez == 0 then leaked
    else
      var fa1 := if pk0 != s.pk1 then s.a1 else -s.a1;
      var a2p := leaked + if fa1 < -8191 then -0x100 else if fa1 > 8191 then 0xFF else fa1 / 32;
      if pk0 != s.pk2 then
        if a2p <= -12160 then -12288 else if a2p >= 12416 then 12288 else a2p - 0x80
      else
        if a2p <= -12416 then -12288 else if a2p >= 12160 then 12288 else a2p + 0x80
  }

  /** UPA1 and LIMD: the first pole coefficient, inside the triangle `a2p` leaves. */
  function NextA1(s: State, pk0: int, dqsez: int, a2p: int): int
    requires a2p <= 15360
  {
    var leaked := s.a1 - s.a1 / 256;
    var moved := if dqsez == 0 then leaked else if pk0 == s.pk1 then leaked + 192 else leaked - 192;
    Clamp(moved, -(15360 - a2p), 15360 - a2p)
  }

  /** UPB: one zero coefficient; this store is meant to wrap. */
  function NextB(rate: Rate, b: int, past: int, dq: int): int {
    var leaked := b - b / (if rate == R40 then 512 else 256);
    Wrap16(if dq % 0x8000 == 0 then leaked else if (dq < 0) == (past < 0) then leaked + 128 else leaked - 128)
  }

  function NextZeros(rate: Rate, s: State, tr: bool, dq: int): (b: seq<int>)
    requires |s.b| == |s.dq| == 6
    ensures |b| == 6
  {
    seq(6, i requires 0 <= i < 6 => if tr then 0 else NextB(rate, s.b[i], s.dq[i], dq))
  }

  /** Exponent and mantissa of a magnitude in the 4-bit, 6-bit float format. */
  function FloatOf(mag: nat): int {
    var exp := TopBit(mag) + 1;
    exp * 64 + mag * 64 / Pow2(exp)
  }

  function FloatA(dq: int): int {
    var mag := dq % 0x8000;
    if mag == 0 then if dq >= 0 then 0x20 else -992
    else Wrap16(if dq >= 0 then FloatOf(mag) else FloatOf(mag) - 0x400)
  }

  function FloatB(sr: int): int {
    if sr == 0 then 0x20
    else if sr > 0 then Wrap16(FloatOf(sr))
    else if sr > -0x8000 then Wrap16(FloatOf(-sr) - 0x400)
    else -992
  }

  function NextAp(s: State, tr: bool, y: int, td: bool, dms: int, dml: int): int {
    if tr then 256
    else if y < 1536 || td || Abs(dms * 4 - dml) >= dml / 8 then Wrap16(s.ap + (0x200 - s.ap) / 16)
    else Wrap16(s.ap + (-s.ap) / 16)
  }

  function Update(rate: Rate, s: State, y: int, wi: int, fi: int, dq: int, sr: int, dqsez: int): State
    requires |s.b| == |s.dq| == 6
    requires NextA2(s, if dqsez < 0 then 1 else 0, dqsez) <= 15360
  {
    var pk0 := if dqsez < 0 then 1 else 0;
    var tr := Transition(s, dq % 0x8000);
    var yu := NextYu(y, wi);
    var a2p := if tr then 0 else NextA2(s, pk0, dqsez);
    var td := !tr && a2p < -11776;
    var dms := Wrap16(s.dms + (fi - s.dms) / 32);
    var dml := Wrap16(s.dml + (fi * 4 - s.dml) / 128);
    State(
      s.yl + yu + (-s.yl) / 64, Wrap16(yu), dms, dml, NextAp(s, tr, y, td, dms, dml),
      if tr then 0 else Wrap16(NextA1(s, pk0, dqsez, a2p)), Wrap16(a2p),
      NextZeros(rate, s, tr, dq),
      pk0, s.pk1, [FloatA(dq)] + s.dq[..5], FloatB(sr), s.sr1, td)
  }

  // ---- One sample ------------------------------------------------------------------------------------------

  datatype Decoded = Decoded(sr: int, se: int, y: int, next: State)

  /** The reconstruction both sides share: codeword and state give sample and next state. */
  function Core(rate: Rate, s: State, code: int): Decoded
    requires IsCode(rate, code) && Ok(s)
  {
    A2Bounds(s, 0, 0);
    var se := Estimate(s);
    var y := StepSize(s);
    var dq := Reconstruct(code >= SignBit(rate), Dqlntab(rate)[code], y);
    var sr := Wrap16(if dq < 0 then se - dq % MagnitudeLimit(rate) else se + dq);
    var dqsez := Wrap16(sr + PredictorZero(s) / 2 - se);
    A2Bounds(s, if dqsez < 0 then 1 else 0, dqsez);
    Decoded(sr, se, y, Update(rate, s, y, Witab(rate)[code], Fitab(rate)[code], dq, sr, dqsez))
  }

  /** The codeword the encoder picks for a 16-bit sample. */
  function CodeFor(rate: Rate, s: State, sample: int): int
    requires InI16(sample) && Ok(s)
  {
    Quantize(rate, sample / 4 - Estimate(s), StepSize(s))
  }

  // ---- The run invariant -------------------------------------------------------------------------------------

  lemma A2Bounds(s: State, pk0: int, dqsez: int)
    requires Ok(s)
    ensures -12288 <= NextA2(s, pk0, dqsez) <= 12288
  {
  }

  lemma StepSizeBounds(s: State)
    requires Ok(s)
    ensures 544 <= StepSize(s) <= 5120
  {
    var y, al := s.yl / 64, s.ap / 4;
    var dif := s.yu - y;
    if s.ap < 256 && dif != 0 { Interpolates(dif, al); }
  }

  lemma Interpolates(dif: int, al: int)
    requires 0 <= al <= 63
    ensures dif > 0 ==> 0 <= dif * al / 64 <= dif
    ensures dif < 0 ==> dif <= (dif * al + 0x3F) / 64 <= 0
  {
    if dif > 0 { Between(dif, al); } else { Between(-dif, al); assert dif * al == -((-dif) * al); }
  }

  lemma Between(n: nat, al: int)
    requires 0 <= al <= 63
    ensures 0 <= n * al <= n * 63
  {
  }

  lemma LevelBounds(rate: Rate, code: int)
    requires IsCode(rate, code)
    ensures |Dqlntab(rate)| == 2 * SignBit(rate)
    ensures -2048 <= Dqlntab(rate)[code] <= (if rate == R40 then 566 else 425)
  {
    hide Witab;
    hide Fitab;
    match rate
    case R16 => case R24 => case R32 =>
    case R40 => assert forall k :: 0 <= k < 32 ==> -2048 <= DQLN_40[k] <= 566;
  }

  lemma SpeedBounds(rate: Rate, code: int)
    requires IsCode(rate, code)
    ensures |Witab(rate)| == |Fitab(rate)| == 2 * SignBit(rate)
    ensures 0 <= Fitab(rate)[code] <= 0xE00
  {
    hide Dqlntab;
    match rate
    case R16 => case R24 => case R32 =>
    case R40 => assert forall k :: 0 <= k < 32 ==> 0 <= FI_40[k] <= 0xE00;
  }

  lemma LockedStepBounds(yl: int, yu: int)
    requires 34816 <= yl <= 327680 && 544 <= yu <= 5120
    ensures 34816 <= yl + yu + (-yl) / 64 <= 327680
  {
  }

  lemma UpdateKeepsOk(rate: Rate, s: State, y: int, wi: int, fi: int, dq: int, sr: int, dqsez: int)
    requires Ok(s) && 0 <= fi <= 0xE00
    ensures NextA2(s, if dqsez < 0 then 1 else 0, dqsez) <= 15360
    ensures Ok(Update(rate, s, y, wi, fi, dq, sr, dqsez))
  {
    hide Transition;
    hide FloatA;
    hide FloatB;
    hide NextB;
    hide NextA2;
    A2Bounds(s, if dqsez < 0 then 1 else 0, dqsez);
    LockedStepBounds(s.yl, NextYu(y, wi));
    FloatsFit(dq, sr);
    forall i | 0 <= i < 6 ensures InI16(NextB(rate, s.b[i], s.dq[i], dq)) { BFits(rate, s.b[i], s.dq[i], dq); }
  }

  lemma FloatsFit(dq: int, sr: int)
    ensures InI16(FloatA(dq)) && InI16(FloatB(sr))
  {
  }

  lemma BFits(rate: Rate, b: int, past: int, dq: int)
    ensures InI16(NextB(rate, b, past, dq))
  {
  }

  /** Every bound of `Ok` survives every codeword: the invariant of runs of any length. */
  lemma CoreKeepsOk(rate: Rate, s: State, code: int)
    requires IsCode(rate, code) && Ok(s)
    ensures Ok(Core(rate, s, code).next)
    ensures 544 <= Core(rate, s, code).y <= 5120
  {
    hide Update;
    hide Reconstruct;
    hide Estimate;
    hide PredictorZero;
    hide StepSize;
    hide NextA2;
    var se, y := Estimate(s), StepSize(s);
    var dq := Reconstruct(code >= SignBit(rate), Dqlntab(rate)[code], y);
    var sr := Wrap16(if dq < 0 then se - dq % MagnitudeLimit(rate) else se + dq);
    var dqsez := Wrap16(sr + PredictorZero(s) / 2 - se);
    StepSizeBounds(s);
    SpeedBounds(rate, code);
    UpdateKeepsOk(rate, s, y, Witab(rate)[code], Fitab(rate)[code], dq, sr, dqsez);
  }

  // ---- Narrowings that lose nothing ------------------------------------------------------------------------------

  /** The magnitude a codeword stands for, before any narrowing. */
  function Magnitude(rate: Rate, code: int, y: int): int
    requires IsCode(rate, code)
  {
    var dql := Dqlntab(rate)[code] + y / 4;
    if dql < 0 || dql / 128 > 14 then 0 else AntilogOf(dql)
  }

  function AntilogOf(dql: nat): int
    requires dql / 128 <= 14
  {
    (128 + dql % 128) * 128 / Pow2(14 - dql / 128)
  }

  lemma ReconstructByLevel(negative: bool, dqln: int, y: int)
    requires dqln + y / 4 < 15 * 128
    ensures dqln + y / 4 >= 0 ==>
      Reconstruct(negative, dqln, y)
      == Wrap16(if negative then AntilogOf(dqln + y / 4) - 0x8000 else AntilogOf(dqln + y / 4))
    ensures dqln + y / 4 < 0 ==> Reconstruct(negative, dqln, y) == if negative then -0x8000 else 0
  {
    hide Pow2;
    hide Wrap16;
  }

  lemma AntilogBounds(dql: nat)
    requires dql / 128 <= 14
    ensures 0 <= AntilogOf(dql) < (if dql / 128 <= 13 then 0x4000 else 0x8000)
  {
    hide Pow2;
    var n := (128 + dql % 128) * 128;
    PowerAtLeast(14 - dql / 128);
    QuotientBetween(n, Pow2(14 - dql / 128), 0, if dql / 128 <= 13 then 0x4000 else 0x8000);
  }

  lemma PowerAtLeast(e: nat)
    ensures Pow2(e) >= (if e == 0 then 1 else 2)
  {
  }

  /** From the step-size bounds: the exponent fits, no magnitude bit is masked off, and 16 bits hold it. */
  lemma ReconstructionLossless(rate: Rate, code: int, y: int)
    requires IsCode(rate, code) && 544 <= y <= 5120
    ensures Dqlntab(rate)[code] + y / 4 >= 0 ==> (Dqlntab(rate)[code] + y / 4) / 128 <= (if rate == R40 then 14 else 13)
    ensures 0 <= Magnitude(rate, code, y) < MagnitudeLimit(rate)
    ensures var dq := Reconstruct(code >= SignBit(rate), Dqlntab(rate)[code], y);
            if code >= SignBit(rate)
            then dq == Magnitude(rate, code, y) - 0x8000 < 0 && dq % MagnitudeLimit(rate) == Magnitude(rate, code, y)
            else dq == Magnitude(rate, code, y)
  {
    LevelBounds(rate, code);
    hide Dqlntab;
    hide Reconstruct;
    hide AntilogOf;
    hide Wrap16;
    var dql := Dqlntab(rate)[code] + y / 4;
    if dql >= 0 { AntilogBounds(dql); }
    ReconstructByLevel(code >= SignBit(rate), Dqlntab(rate)[code], y);
    NarrowMagnitude(Magnitude(rate, code, y), MagnitudeLimit(rate));
  }

  /** A magnitude below the mask survives the 16-bit store and the mask, with either sign. */
  lemma NarrowMagnitude(m: nat, limit: nat)
    requires m < limit && (limit == 0x4000 || limit == 0x8000)
    ensures Wrap16(m) == m && Wrap16(m - 0x8000) == m - 0x8000 < 0
    ensures (m - 0x8000) % limit == m
  {
  }

  function Difference(rate: Rate, code: int, y: int): int
    requires IsCode(rate, code)
  {
    if code >= SignBit(rate) then -Magnitude(rate, code, y) else Magnitude(rate, code, y)
  }

  /**
   * The reconstructed sample is the estimate plus the codeword's difference, wrapped to 16 bits, so it
   * is exact if and only if that sum fits; below 40 kbit/s it and the adaptation's `dqsez` always do.
   */
  lemma SampleIsEstimatePlusDifference(rate: Rate, s: State, code: int)
    requires IsCode(rate, code) && Ok(s)
    ensures var core := Core(rate, s, code);
            var exact := core.se + Difference(rate, code, core.y);
            && core.sr == Wrap16(exact) && (core.sr == exact <==> InI16(exact))
            && (rate != R40 ==> core.sr == exact && InI16(exact + PredictorZero(s) / 2 - core.se))
  {
    hide Update;
    hide Reconstruct;
    hide Magnitude;
    hide Dqlntab;
    hide StepSize;
    hide NextA2;
    hide SignalEstimate15;
    hide Fmult;
    StepSizeBounds(s);
    ReconstructionLossless(rate, code, StepSize(s));
  }

  /** A stored float has a normalised six-bit mantissa and a four-bit exponent, and fits its word. */
  lemma FloatIsNormalised(mag: nat)
    requires 0 < mag < 0x8000
    ensures FloatOf(mag) / 64 == TopBit(mag) + 1 <= 15
    ensures 32 <= FloatOf(mag) % 64
    ensures InI16(FloatOf(mag)) && InI16(FloatOf(mag) - 0x400)
  {
    var exp := TopBit(mag) + 1;
    TopBitBounds(mag);
    assert Pow2(15) == 0x8000;
    TopBitBelow(mag, 15);
    var p := Pow2(exp - 1);
    assert Pow2(exp) == 2 * p;
    MantissaRange(mag, p);
  }

  lemma MantissaRange(mag: nat, p: nat)
    requires 0 < p <= mag < 2 * p
    ensures 32 <= mag * 64 / (2 * p) < 64
  {
    QuotientBetween(mag * 64, 2 * p, 32, 64);
  }

  // ---- Codewords ---------------------------------------------------------------------------------------------------

  /** The quantizer only produces codewords of its rate, with the sign bit for every negative difference. */
  lemma QuantizeIsCode(rate: Rate, d: int, y: int)
    requires Abs(d) <= 0x7FFF
    ensures IsCode(rate, Quantize(rate, d, y))
    ensures d < 0 ==> Quantize(rate, d, y) >= SignBit(rate)
    ensures d >= 0 && Quantize(rate, d, y) >= SignBit(rate)
        ==> rate != R16 && Quantize(rate, d, y) == 2 * SignBit(rate) - 1
  {
    hide LogOf;
    hide Passed;
  }

  /** The codeword for `i` thresholds passed, on either side. */
  function CodeAt(rate: Rate, i: nat, negative: bool): int {
    if negative then 2 * |Qtab(rate)| + 1 - i
    else if i == 0 && QuantizerStates(rate) % 2 != 0 then QuantizerStates(rate)
    else i
  }

  lemma LevelsBetweenThresholds(rate: Rate, i: nat, negative: bool)
    requires i <= |Qtab(rate)|
    ensures IsCode(rate, CodeAt(rate, i, negative))
    ensures i > 0 ==> Qtab(rate)[i - 1] <= Dqlntab(rate)[CodeAt(rate, i, negative)]
    ensures i < |Qtab(rate)| ==> Dqlntab(rate)[CodeAt(rate, i, negative)] < Qtab(rate)[i]
  {
    match rate
    case R16 => case R24 =>
    case R32 => Levels32(i, negative);
    case R40 => Levels40(i, negative);
  }

  lemma Levels32(i: nat, negative: bool)
    requires i <= 7
    ensures var level := DQLN_32[if negative || i == 0 then 15 - i else i];
            (i > 0 ==> Q_32[i - 1] <= level) && (i < 7 ==> level < Q_32[i])
  {
  }

  lemma Levels40(i: nat, negative: bool)
    requires i <= 15
    ensures var level := DQLN_40[if negative || i == 0 then 31 - i else i];
            (i > 0 ==> Q_40[i - 1] <= level) && (i < 15 ==> level < Q_40[i])
  {
    if i < 8 { assert i == 0 || i == 1 || i == 2 || i == 3 || i == 4 || i == 5 || i == 6 || i == 7; }
  }

  /** The level a codeword decodes to lies in the decision interval that selected it. */
  lemma LevelInInterval(rate: Rate, d: int, y: int)
    requires Abs(d) <= 0x7FFF
    ensures IsCode(rate, Quantize(rate, d, y))
    ensures var i := Passed(Qtab(rate), LogOf(Abs(d)) - y / 4);
            var level := Dqlntab(rate)[Quantize(rate, d, y)];
            && (i > 0 ==> Qtab(rate)[i - 1] <= level)
            && (i < |Qtab(rate)| ==> level < Qtab(rate)[i])
  {
    hide LogOf;
    hide Passed;
    hide Qtab;
    hide Dqlntab;
    LevelsBetweenThresholds(rate, Passed(Qtab(rate), LogOf(Abs(d)) - y / 4), d < 0);
  }
}
