/**
 * Which way the adaptive predictor of G.726 (`crates/siphon-rtp-codec/src/g726.rs`) moves, read off the
 * signals of a run: its poles follow the signs of successive partial reconstructions, its zeros the signs
 * of the quantized differences they stand for.
 */
module G726Gradient {
  import opened Arithmetic
  import opened FixedPoint
  import opened G726
  import opened G726Codec
  import opened G726Packets
  import opened G726Predictor
  import opened PowersOfTwo

  /** The sample less what the poles predicted: the quantized difference plus the zero predictor's part. */
  function Partial(rate: Rate, s: State, code: int): int
    requires IsCode(rate, code) && Ok(s)
  {
    var core := Core(rate, s, code);
    Wrap16(core.sr - core.se + PredictorZero(s) / 2)
  }

  /** No tone transition on this codeword. */
  predicate Steady(rate: Rate, s: State, code: int)
    requires IsCode(rate, code) && Ok(s)
  {
    !Transition(s, Magnitude(rate, code, StepSize(s)))
  }

  /** A stored sign agrees with the sign of `p`. */
  predicate SameSign(p: int, stored: int) {
    p < 0 <==> stored == 1
  }

  /** How the first pole pulls on the second: against its own sign while successive signs agree. */
  function Pull(a1: int, agree: bool): int {
    Clamp((if agree then -a1 else a1) / 32, -256, 255)
  }

  lemma SecondPole(s: State, pk0: int, p: int)
    requires Ok(s) && p != 0 && pk0 == if p < 0 then 1 else 0
    ensures NextA2(s, pk0, p)
         == Clamp(s.a2 - s.a2 / 128 + Pull(s.a1, SameSign(p, s.pk1)) + (if SameSign(p, s.pk2) then 128 else -128),
                  -12288, 12288)
  {
  }

  lemma CoreIsUpdate(rate: Rate, s: State, code: int)
    requires IsCode(rate, code) && Ok(s)
    ensures var core, p, dq := Core(rate, s, code), Partial(rate, s, code), DifferenceOf(rate, s, code);
            && dq % 0x8000 == Magnitude(rate, code, StepSize(s)) && (dq < 0 <==> code >= SignBit(rate))
            && |Witab(rate)| == |Fitab(rate)| == 2 * SignBit(rate)
            && NextA2(s, if p < 0 then 1 else 0, p) <= 12288
            && core.next == Update(rate, s, StepSize(s), Witab(rate)[code], Fitab(rate)[code], dq, core.sr, p)
  {
    hide Update;
    hide NextA2;
    hide PredictorZero;
    hide Estimate;
    hide StepSize;
    hide Reconstruct;
    hide Magnitude;
    StepSizeBounds(s);
    SpeedBounds(rate, code);
    ReconstructionLossless(rate, code, StepSize(s));
    A2Bounds(s, 0, Partial(rate, s, code));
    A2Bounds(s, 1, Partial(rate, s, code));
    WholeMask(rate, Magnitude(rate, code, StepSize(s)), DifferenceOf(rate, s, code));
  }

  lemma WholeMask(rate: Rate, m: int, dq: int)
    requires 0 <= m < MagnitudeLimit(rate) && (dq == m || dq == m - 0x8000)
    ensures dq % 0x8000 == m
  {
  }

  /** The parts of an update that the gradients write. */
  lemma UpdateParts(rate: Rate, s: State, y: int, wi: int, fi: int, dq: int, sr: int, p: int)
    requires Ok(s)
    ensures var pk0 := if p < 0 then 1 else 0;
            var a2 := NextA2(s, pk0, p);
            -12288 <= a2 <= 12288
            && var next := Update(rate, s, y, wi, fi, dq, sr, p);
            && next.pk1 == pk0 && next.pk2 == s.pk1 && next.dq == [FloatA(dq)] + s.dq[..5]
            && (Transition(s, dq % 0x8000) ==> next.a1 == next.a2 == 0 && next.b == [0, 0, 0, 0, 0, 0])
            && (!Transition(s, dq % 0x8000) ==>
                  next.a2 == a2 && next.a1 == NextA1(s, pk0, p, a2)
                  && forall i :: 0 <= i < 6 ==> next.b[i] == NextB(rate, s.b[i], s.dq[i], dq))
  {
    hide Transition;
    hide NextA2;
    hide NextB;
    hide FloatA;
    hide FloatB;
    hide NextYu;
    hide NextAp;
    A2Bounds(s, if p < 0 then 1 else 0, p);
    FirstPoleFits(s, if p < 0 then 1 else 0, p, NextA2(s, if p < 0 then 1 else 0, p));
    hide NextA1;
  }

  lemma FirstPoleFits(s: State, pk0: int, p: int, a2: int)
    requires -12288 <= a2 <= 12288
    ensures InI16(NextA1(s, pk0, p, a2))
  {
  }

  // ---- Poles ----------------------------------------------------------------------------------------------

  /**
   * The sign law of the poles. Each coefficient leaks towards zero and is pushed up where the partial
   * reconstruction has the sign of the one it looks back to, down where it has the other: the first pole
   * compares with the last one, inside the triangle that the second leaves; the second with the one before,
   * and is pulled by the first.
   */
  lemma PolesFollowSigns(rate: Rate, s: State, code: int)
    requires IsCode(rate, code) && Ok(s) && Steady(rate, s, code) && Partial(rate, s, code) != 0
    ensures var p, next := Partial(rate, s, code), Core(rate, s, code).next;
            && SameSign(p, next.pk1) && next.pk2 == s.pk1
            && (SameSign(p, s.pk1) ==> next.a1 > s.a1 - s.a1 / 256 || next.a1 == 15360 - next.a2)
            && (!SameSign(p, s.pk1) ==> next.a1 < s.a1 - s.a1 / 256 || next.a1 == -(15360 - next.a2))
            && var pulled := s.a2 - s.a2 / 128 + Pull(s.a1, SameSign(p, s.pk1));
            && (SameSign(p, s.pk2) ==> next.a2 > pulled || next.a2 == 12288)
            && (!SameSign(p, s.pk2) ==> next.a2 < pulled || next.a2 == -12288)
  {
    hide Core;
    hide Update;
    hide NextA2;
    hide Transition;
    hide Magnitude;
    hide Partial;
    hide StepSize;
    hide Pull;
    PolesOf(rate, s, code);
    var p := Partial(rate, s, code);
    SecondPole(s, if p < 0 then 1 else 0, p);
  }

  /** By how much: 192 for the first pole, 128 for the second. */
  lemma PolesMoveBy(rate: Rate, s: State, code: int)
    requires IsCode(rate, code) && Ok(s) && Steady(rate, s, code) && Partial(rate, s, code) != 0
    ensures var p, next := Partial(rate, s, code), Core(rate, s, code).next;
            var up1, up2 := SameSign(p, s.pk1), SameSign(p, s.pk2);
            && next.a2 == Clamp(s.a2 - s.a2 / 128 + Pull(s.a1, up1) + (if up2 then 128 else -128), -12288, 12288)
            && next.a1 == Clamp(s.a1 - s.a1 / 256 + (if up1 then 192 else -192), next.a2 - 15360, 15360 - next.a2)
  {
    hide Core;
    hide Update;
    hide NextA2;
    hide Transition;
    hide Magnitude;
    hide Partial;
    hide StepSize;
    hide Pull;
    PolesOf(rate, s, code);
    var p := Partial(rate, s, code);
    SecondPole(s, if p < 0 then 1 else 0, p);
  }

  lemma PolesOf(rate: Rate, s: State, code: int)
    requires IsCode(rate, code) && Ok(s)
    ensures var p, next := Partial(rate, s, code), Core(rate, s, code).next;
            var pk0 := if p < 0 then 1 else 0;
            && next.pk1 == pk0 && next.pk2 == s.pk1 && -12288 <= next.a2 <= 12288
            && (Steady(rate, s, code) ==> next.a2 == NextA2(s, pk0, p) && next.a1 == NextA1(s, pk0, p, next.a2))
            && (!Steady(rate, s, code) ==> next.a1 == next.a2 == 0)
  {
    hide Core;
    hide Update;
    hide NextA1;
    hide NextA2;
    hide Transition;
    hide Magnitude;
    hide Partial;
    hide StepSize;
    CoreIsUpdate(rate, s, code);
    UpdateParts(rate, s, StepSize(s), Witab(rate)[code], Fitab(rate)[code],
                DifferenceOf(rate, s, code), Core(rate, s, code).sr, Partial(rate, s, code));
  }

  // ---- A run whose signs agree ------------------------------------------------------------------------------

  /** Codeword `j` makes a partial reconstruction whose sign relates to the one before as `agree` says. */
  ghost predicate SignAt(rate: Rate, s: State, codes: seq<nat>, agree: bool, j: nat)
    requires Ok(s) && AreCodes(rate, codes) && j < |codes|
  {
    assert AreCodes(rate, codes[..j]) && IsCode(rate, codes[j]);
    var t := StateAfter(rate, s, codes[..j]);
    && Steady(rate, t, codes[j]) && Partial(rate, t, codes[j]) != 0
    && (SameSign(Partial(rate, t, codes[j]), t.pk1) <==> agree)
  }

  ghost predicate KeepsSigns(rate: Rate, s: State, codes: seq<nat>, agree: bool)
    requires Ok(s) && AreCodes(rate, codes)
  {
    forall j :: 0 <= j < |codes| ==> SignAt(rate, s, codes, agree, j)
  }

  /** The first pole at the edge of its triangle, on the side it is pushed to. */
  ghost predicate AtLimit(rate: Rate, s: State, codes: seq<nat>, agree: bool, j: nat)
    requires Ok(s) && AreCodes(rate, codes) && j <= |codes|
  {
    assert AreCodes(rate, codes[..j]);
    var t := StateAfter(rate, s, codes[..j]);
    t.a1 == if agree then 15360 - t.a2 else -(15360 - t.a2)
  }

  lemma ClimbStep(rate: Rate, s: State, code: int)
    requires IsCode(rate, code) && Ok(s) && Steady(rate, s, code) && Partial(rate, s, code) != 0
    ensures var p, next := Partial(rate, s, code), Core(rate, s, code).next;
            && (SameSign(p, s.pk1) ==> next.a1 >= s.a1 + 84 || next.a1 == 15360 - next.a2)
            && (!SameSign(p, s.pk1) ==> next.a1 <= s.a1 - 84 || next.a1 == -(15360 - next.a2))
  {
    hide Core;
    hide Transition;
    hide Magnitude;
    hide Partial;
    hide StepSize;
    hide Pull;
    PolesMoveBy(rate, s, code);
  }

  lemma {:induction false} ClimbsUntilLimit(rate: Rate, s: State, codes: seq<nat>, agree: bool, n: nat)
    requires Ok(s) && AreCodes(rate, codes) && KeepsSigns(rate, s, codes, agree) && n <= |codes|
    requires forall j :: 1 <= j <= n ==> !AtLimit(rate, s, codes, agree, j)
    ensures AreCodes(rate, codes[..n])
    ensures var t := StateAfter(rate, s, codes[..n]);
            if agree then t.a1 >= s.a1 + 84 * n else t.a1 <= s.a1 - 84 * n
  {
    hide Core;
    hide Ok;
    if n == 0 {
      assert codes[..0] == [];
    } else {
      ClimbsUntilLimit(rate, s, codes, agree, n - 1);
      assert codes[..n][..n - 1] == codes[..n - 1] && codes[..n][n - 1] == codes[n - 1];
      assert SignAt(rate, s, codes, agree, n - 1) && !AtLimit(rate, s, codes, agree, n);
      ClimbStep(rate, StateAfter(rate, s, codes[..n - 1]), codes[n - 1]);
    }
  }

  /**
   * While the partial reconstructions keep one sign, the first pole climbs to its limit, and while they
   * alternate it falls to the opposite one: within 659 codewords, from any state and at any rate.
   */
  lemma FirstPoleReachesLimit(rate: Rate, s: State, codes: seq<nat>, agree: bool)
    requires Ok(s) && AreCodes(rate, codes) && KeepsSigns(rate, s, codes, agree) && |codes| >= 659
    ensures exists j: nat :: 1 <= j <= 659 && AtLimit(rate, s, codes, agree, j)
  {
    hide Core;
    if forall j: nat :: 1 <= j <= 659 ==> !AtLimit(rate, s, codes, agree, j) {
      ClimbsUntilLimit(rate, s, codes, agree, 659);
      PoleRange(StateAfter(rate, s, codes[..659]));
      PoleRange(s);
    }
  }

  lemma PoleRange(s: State)
    requires Ok(s)
    ensures -27648 <= s.a1 <= 27648
  {
  }

  // ---- Zeros --------------------------------------------------------------------------------------------------

  /** A zero coefficient leaks and is pushed up by 128 where the codeword's sign is that of its stored difference. */
  lemma ZerosFollowSigns(rate: Rate, s: State, code: int, i: nat)
    requires IsCode(rate, code) && Ok(s) && Steady(rate, s, code) && i < 6
    ensures var leaked := s.b[i] - s.b[i] / (if rate == R40 then 512 else 256);
            var mag := Magnitude(rate, code, StepSize(s));
            |Core(rate, s, code).next.b| == 6
            && Core(rate, s, code).next.b[i]
               == Wrap16(if mag == 0 then leaked
                         else if (code >= SignBit(rate)) == (s.dq[i] < 0) then leaked + 128 else leaked - 128)
  {
    hide Core;
    hide Update;
    hide NextA1;
    hide NextA2;
    hide Transition;
    hide Magnitude;
    hide Partial;
    hide StepSize;
    CoreIsUpdate(rate, s, code);
    UpdateParts(rate, s, StepSize(s), Witab(rate)[code], Fitab(rate)[code],
                DifferenceOf(rate, s, code), Core(rate, s, code).sr, Partial(rate, s, code));
    CoreKeepsOk(rate, s, code);
  }

  lemma FloatSign(dq: int)
    requires InI16(dq)
    ensures FloatA(dq) < 0 <==> dq < 0
  {
    var mag := dq % 0x8000;
    if mag != 0 { FloatIsNormalised(mag); }
  }

  /** The stored differences are those of the last six codewords, newest first. */
  lemma {:induction false} StoredSigns(rate: Rate, s: State, codes: seq<nat>, i: nat)
    requires Ok(s) && AreCodes(rate, codes) && i < 6 && i < |codes|
    ensures |StateAfter(rate, s, codes).dq| == 6
    ensures StateAfter(rate, s, codes).dq[i] < 0 <==> codes[|codes| - 1 - i] >= SignBit(rate)
  {
    hide Core;
    hide Ok;
    hide FloatA;
    hide DifferenceOf;
    var prefix, last := codes[..|codes| - 1], codes[|codes| - 1];
    var t := StateAfter(rate, s, prefix);
    NewestDifference(rate, t, last);
    SixStored(t);
    if i == 0 {
      DifferenceFits(rate, t, last);
      FloatSign(DifferenceOf(rate, t, last));
    } else {
      StoredSigns(rate, s, prefix, i - 1);
    }
  }

  lemma SixStored(s: State)
    requires Ok(s)
    ensures |s.dq| == 6
  {
  }

  // ---- Scale factors and speed ------------------------------------------------------------------------------

  /** Larger codewords stand for larger differences, and weigh at least as much. */
  lemma WeightsRise(rate: Rate, code: nat)
    requires code + 1 < SignBit(rate)
    ensures |Dqlntab(rate)| == |Witab(rate)| == |Fitab(rate)| == 2 * SignBit(rate)
    ensures Dqlntab(rate)[code] < Dqlntab(rate)[code + 1]
    ensures Witab(rate)[code] <= Witab(rate)[code + 1] && Fitab(rate)[code] <= Fitab(rate)[code + 1]
  {
    match rate
    case R16 => case R24 => case R32 =>
    case R40 => Weights40(code);
  }

  lemma Weights40(c: nat)
    requires c < 15
    ensures DQLN_40[c] < DQLN_40[c + 1] && WI_40[c] <= WI_40[c + 1] && FI_40[c] <= FI_40[c + 1]
  {
  }

  /** The sign of a codeword changes neither its level nor its weights. */
  lemma TablesMirror(rate: Rate, code: nat)
    requires code < SignBit(rate)
    ensures |Dqlntab(rate)| == |Witab(rate)| == |Fitab(rate)| == 2 * SignBit(rate)
    ensures var other := 2 * SignBit(rate) - 1 - code;
            && Dqlntab(rate)[other] == Dqlntab(rate)[code] && Witab(rate)[other] == Witab(rate)[code]
            && Fitab(rate)[other] == Fitab(rate)[code]
  {
    hide Dqlntab;
    hide Witab;
    hide Fitab;
    MirroredLevels(rate, code);
    MirroredWeights(rate, code);
    MirroredSpeeds(rate, code);
  }

  lemma MirroredLevels(rate: Rate, code: nat)
    requires code < SignBit(rate)
    ensures |Dqlntab(rate)| == 2 * SignBit(rate)
    ensures Dqlntab(rate)[2 * SignBit(rate) - 1 - code] == Dqlntab(rate)[code]
  {
    if rate == R40 { Mirror40(code); }
  }

  lemma MirroredWeights(rate: Rate, code: nat)
    requires code < SignBit(rate)
    ensures |Witab(rate)| == 2 * SignBit(rate)
    ensures Witab(rate)[2 * SignBit(rate) - 1 - code] == Witab(rate)[code]
  {
    if rate == R40 { MirrorWeights40(code); }
  }

  lemma MirroredSpeeds(rate: Rate, code: nat)
    requires code < SignBit(rate)
    ensures |Fitab(rate)| == 2 * SignBit(rate)
    ensures Fitab(rate)[2 * SignBit(rate) - 1 - code] == Fitab(rate)[code]
  {
    if rate == R40 { MirrorSpeeds40(code); }
  }

  lemma Mirror40(c: nat)
    requires c < 16
    ensures DQLN_40[31 - c] == DQLN_40[c]
  {
  }

  lemma MirrorWeights40(c: nat)
    requires c < 16
    ensures WI_40[31 - c] == WI_40[c]
  {
  }

  lemma MirrorSpeeds40(c: nat)
    requires c < 16
    ensures FI_40[31 - c] == FI_40[c]
  {
  }

  /** `to`, one part in `parts` of the way from `from`, rounded down. */
  function Towards(from: int, to: int, parts: int): int
    requires parts > 0
  {
    from + (to - from) / parts
  }

  /** The fast step moves a thirty-second of the way to the codeword's weight, the slow one a sixty-fourth. */
  lemma ScalesFollowCode(rate: Rate, s: State, code: int)
    requires IsCode(rate, code) && Ok(s)
    ensures |Witab(rate)| == 2 * SignBit(rate)
    ensures var next := Core(rate, s, code).next;
            && next.yu == Clamp(Towards(StepSize(s), Witab(rate)[code], 32), 544, 5120)
            && next.yl == Towards(s.yl, 64 * next.yu, 64)
  {
    hide Core;
    hide NextA2;
    hide NextA1;
    hide NextB;
    hide FloatA;
    hide FloatB;
    hide Transition;
    hide Magnitude;
    hide Partial;
    hide StepSize;
    hide Witab;
    CoreIsUpdate(rate, s, code);
  }

  /** The averages of the codewords' speeds, fast and slow. */
  lemma AveragesFollowCode(rate: Rate, s: State, code: int)
    requires IsCode(rate, code) && Ok(s)
    ensures |Fitab(rate)| == 2 * SignBit(rate)
    ensures var next := Core(rate, s, code).next;
            && next.dms == Towards(s.dms, Fitab(rate)[code], 32)
            && next.dml == Towards(s.dml, 4 * Fitab(rate)[code], 128)
  {
    hide Core;
    hide NextA2;
    hide NextA1;
    hide NextB;
    hide FloatA;
    hide FloatB;
    hide Transition;
    hide Magnitude;
    hide Partial;
    hide StepSize;
    SpeedBounds(rate, code);
    hide Fitab;
    CoreIsUpdate(rate, s, code);
  }

  /** The speed is turned up while the step is small, in a tone, or while the two averages disagree. */
  predicate SpeedsUp(y: int, next: State) {
    y < 1536 || next.td || Abs(4 * next.dms - next.dml) >= next.dml / 8
  }

  /** The speed control moves a sixteenth of the way to its upper end or to zero, and jumps on a transition. */
  lemma SpeedFollowsSignal(rate: Rate, s: State, code: int)
    requires IsCode(rate, code) && Ok(s)
    ensures var next := Core(rate, s, code).next;
            next.ap == if !Steady(rate, s, code) then 256
                       else Towards(s.ap, if SpeedsUp(StepSize(s), next) then 512 else 0, 16)
  {
    hide Core;
    hide NextA2;
    hide NextA1;
    hide NextB;
    hide FloatA;
    hide FloatB;
    hide Transition;
    hide Magnitude;
    hide Partial;
    hide StepSize;
    CoreIsUpdate(rate, s, code);
  }

  /**
   * A transition is a tone whose difference passes three quarters of the slow scale read linearly:
   * octaves above its binary point, the fraction interpolated in steps of a thirty-second.
   */
  lemma TransitionMeaning(s: State, mag: int)
    requires Ok(s)
    ensures var octave, mantissa := Pow2(s.yl / 0x8000), 0x8000 + s.yl % 0x8000;
            s.yl < 10 * 0x8000 ==>
              && (Transition(s, mag) ==> s.td && 4096 * mag > 3 * (octave * (mantissa - 1024)))
              && (s.td && 4096 * mag > 3 * (octave * mantissa) ==> Transition(s, mag))
    ensures s.yl >= 10 * 0x8000 ==> (Transition(s, mag) <==> s.td && 4 * mag > 3 * 31744)
  {
    var octave, steps, mantissa := Pow2(s.yl / 0x8000), 32 + s.yl / 0x400 % 32, 0x8000 + s.yl % 0x8000;
    TransitionUnfolds(s, mag, s.yl / 0x8000, steps * octave);
    hide *;
    StepsOf(s.yl);
    Thresholds(mag, octave, steps, mantissa);
  }

  lemma Thresholds(mag: int, octave: nat, steps: nat, mantissa: nat)
    requires mantissa - 1024 < 1024 * steps <= mantissa
    ensures 4 * mag > 3 * (steps * octave) ==> 4096 * mag > 3 * (octave * (mantissa - 1024))
    ensures 4096 * mag > 3 * (octave * mantissa) ==> 4 * mag > 3 * (steps * octave)
  {
    ProductOrder(1024 * steps, mantissa, octave);
    ProductOrder(mantissa - 1024, 1024 * steps, octave);
    StepsTimes(steps, octave);
    Commuted(octave, mantissa);
    Commuted(octave, mantissa - 1024);
  }

  lemma TransitionUnfolds(s: State, mag: int, whole: nat, threshold: nat)
    requires s.yl >= 0 && whole == s.yl / 0x8000 && threshold == (32 + s.yl / 0x400 % 32) * Pow2(whole)
    ensures whole <= 9 ==> (Transition(s, mag) <==> s.td && 4 * mag > 3 * threshold)
    ensures whole > 9 ==> (Transition(s, mag) <==> s.td && 4 * mag > 3 * 31744)
  {
    hide Pow2;
  }

  lemma StepsOf(yl: nat)
    ensures yl % 0x8000 - 1024 < 1024 * (yl / 0x400 % 32) <= yl % 0x8000
  {
    hide *;
  }

  lemma StepsTimes(steps: nat, octave: nat)
    ensures (1024 * steps) * octave == 1024 * (steps * octave)
  {
    hide *;
  }

  /** A tone is a second pole close to its lower end, and only a tone can end in a transition. */
  lemma TonesAndTransitions(rate: Rate, s: State, code: int)
    requires IsCode(rate, code) && Ok(s)
    ensures var next := Core(rate, s, code).next;
            && (!Steady(rate, s, code) ==> s.td && !next.td)
            && (Steady(rate, s, code) ==> (next.td <==> next.a2 < -11776))
  {
    hide Core;
    hide NextA2;
    hide NextA1;
    hide NextB;
    hide FloatA;
    hide FloatB;
    hide Magnitude;
    hide Partial;
    hide StepSize;
    CoreIsUpdate(rate, s, code);
    PolesOf(rate, s, code);
  }

  /** Stored floats stay normalised, as the linearity of the predictor asks. */
  lemma StaysNormalised(rate: Rate, s: State, code: int)
    requires IsCode(rate, code) && Ok(s) && Normalised(s)
    ensures Normalised(Core(rate, s, code).next)
  {
    hide Core;
    hide NextA2;
    hide NextA1;
    hide NextB;
    hide FloatA;
    hide FloatB;
    hide Transition;
    hide Magnitude;
    hide Partial;
    hide StepSize;
    CoreIsUpdate(rate, s, code);
    DifferenceFits(rate, s, code);
    SampleFits(rate, s, code);
    FloatsNormalised(DifferenceOf(rate, s, code), Core(rate, s, code).sr);
  }

  lemma SampleFits(rate: Rate, s: State, code: int)
    requires IsCode(rate, code) && Ok(s)
    ensures InI16(Core(rate, s, code).sr)
  {
    hide Update;
    hide NextA2;
    hide PredictorZero;
    hide Estimate;
    hide StepSize;
    hide Reconstruct;
  }
}
