/**
 * Which way a sub-band of G.722 (`crates/siphon-rtp-codec/src/g722.rs`) adapts: its poles and zeros follow
 * the signs of the signals they look back to, its prediction is linear in them up to rounding, its step size
 * is exponential in the log scale factor, and louder codes raise that more.
 */
module G722Adaptation {
  import opened Arithmetic
  import opened FixedPoint
  import opened G722
  import opened PowersOfTwo

  predicate SameSign(x: int, y: int) {
    x < 0 <==> y < 0
  }

  /** The difference plus what the zeros predicted: the signal less what the poles predicted. */
  function Partial(band: Band, difference: int): int {
    Saturate(band.sz + difference)
  }

  function Leaked(a: int, parts: int): int
    requires parts > 0
  {
    a - Ceiling(a, parts)
  }

  /** `a / parts` rounded up. */
  function Ceiling(a: int, parts: int): int
    requires parts > 0
  {
    -(-a / parts)
  }

  // ---- Poles and zeros --------------------------------------------------------------------------------------

  /** How the first pole pulls on the second: against its own sign while successive signs agree. */
  function Pull(a1: int, agree: bool): int {
    Clamp(if agree then -Saturate(4 * a1) else Saturate(4 * a1), -32768, 32767) / 128
  }

  lemma SecondPole(band: Band, p: int)
    requires PredictorOk(band) && InI16(p)
    ensures NextA2(band, p)
         == Clamp(Leaked(band.a[2], 128) + Pull(band.a[1], SameSign(p, band.p[1]))
                  + (if SameSign(p, band.p[2]) then 128 else -128), -12288, 12288)
  {
    assert InI16(band.p[1]) && InI16(band.p[2]);
    hide AllI16;
    SignOf(p);
    SignOf(band.p[1]);
    SignOf(band.p[2]);
    LeakOf(band.a[2], 128);
  }

  lemma FirstPole(band: Band, p: int, a2: int)
    requires PredictorOk(band) && InI16(p) && -12288 <= a2 <= 12288
    ensures NextA1(band, p, a2)
         == Clamp(Leaked(band.a[1], 256) + (if SameSign(p, band.p[1]) then 192 else -192), a2 - 15360, 15360 - a2)
  {
    assert InI16(band.p[1]);
    hide AllI16;
    SignOf(p);
    SignOf(band.p[1]);
    LeakOf(band.a[1], 256);
  }

  lemma SignOf(x: int)
    requires InI16(x)
    ensures x / 32768 == if x < 0 then -1 else 0
  {
  }

  lemma LeakOf(a: int, parts: int)
    requires parts == 128 || parts == 256
    ensures a * (32768 - 32768 / parts) / 32768 == Leaked(a, parts)
  {
  }

  /**
   * The sign law of the poles: each leaks towards zero and is pushed up where the partial signal has the sign
   * of the one it looks back to, down where it has the other.
   */
  lemma PolesFollowSigns(band: Band, difference: int)
    requires PredictorOk(band) && InI16(difference)
    ensures var p, next := Partial(band, difference), Block4(band, difference);
            var up1, up2 := SameSign(p, band.p[1]), SameSign(p, band.p[2]);
            && |next.a| == |next.p| == 3 && next.p[1] == p && next.p[2] == band.p[1]
            && next.a[2] == Clamp(Leaked(band.a[2], 128) + Pull(band.a[1], up1) + (if up2 then 128 else -128),
                                  -12288, 12288)
            && next.a[1] == Clamp(Leaked(band.a[1], 256) + (if up1 then 192 else -192),
                                  next.a[2] - 15360, 15360 - next.a[2])
  {
    var p := Partial(band, difference);
    SecondPole(band, p);
    FirstPole(band, p, NextA2(band, p));
    hide NextA1;
    hide NextA2;
    hide NextZeros;
    hide Zeros;
    hide Poles;
    hide AllI16;
  }

  /** The six zeros: up by 128 where the new difference has the sign of the stored one, unless it is zero. */
  lemma ZerosFollowSigns(band: Band, difference: int, i: nat)
    requires PredictorOk(band) && InI16(difference) && 1 <= i <= 6
    ensures var next := Block4(band, difference);
            && |next.b| == |next.d| == 7 && next.d[1] == difference && (i > 1 ==> next.d[i] == band.d[i - 1])
            && next.b[i] == Saturate(Leaked(band.b[i], 256)
                                     + if difference == 0 then 0
                                       else if SameSign(difference, band.d[i]) then 128 else -128)
  {
    assert InI16(band.d[i]) && InI16(band.b[i]);
    SignOf(difference);
    SignOf(band.d[i]);
    LeakOf(band.b[i], 256);
    hide NextA1;
    hide NextA2;
    hide Zeros;
    hide Poles;
    hide AllI16;
  }

  // ---- Runs whose signs agree ---------------------------------------------------------------------------------

  /** The band after the first `n` differences. */
  ghost function After(band: Band, differences: seq<int>, n: nat): (next: Band)
    requires PredictorOk(band) && AllI16(differences) && n <= |differences|
    ensures PredictorOk(next)
  {
    if n == 0 then band else Block4(After(band, differences, n - 1), differences[n - 1])
  }

  /** Difference `k` makes a partial signal whose sign relates to the one before as `agree` says. */
  ghost predicate SignAt(band: Band, differences: seq<int>, agree: bool, k: nat)
    requires PredictorOk(band) && AllI16(differences) && k < |differences|
  {
    var before := After(band, differences, k);
    SameSign(Partial(before, differences[k]), before.p[1]) <==> agree
  }

  ghost predicate KeepsSigns(band: Band, differences: seq<int>, agree: bool)
    requires PredictorOk(band) && AllI16(differences)
  {
    forall k :: 0 <= k < |differences| ==> SignAt(band, differences, agree, k)
  }

  ghost predicate AtLimit(band: Band, differences: seq<int>, agree: bool, k: nat)
    requires PredictorOk(band) && AllI16(differences) && k <= |differences|
  {
    var a := After(band, differences, k).a;
    a[1] == if agree then 15360 - a[2] else a[2] - 15360
  }

  lemma ClimbStep(band: Band, difference: int)
    requires PredictorOk(band) && InI16(difference)
    ensures var p, a := Partial(band, difference), Block4(band, difference).a;
            && |a| == 3
            && (SameSign(p, band.p[1]) ==> a[1] >= band.a[1] + 84 || a[1] == 15360 - a[2])
            && (!SameSign(p, band.p[1]) ==> a[1] <= band.a[1] - 84 || a[1] == a[2] - 15360)
  {
    PolesFollowSigns(band, difference);
    hide Block4;
    hide AllI16;
    hide Pull;
  }

  lemma {:induction false} ClimbsUntilLimit(band: Band, differences: seq<int>, agree: bool, n: nat)
    requires PredictorOk(band) && AllI16(differences) && KeepsSigns(band, differences, agree) && n <= |differences|
    requires forall k :: 1 <= k <= n ==> !AtLimit(band, differences, agree, k)
    ensures var a1 := After(band, differences, n).a[1];
            if agree then a1 >= band.a[1] + 84 * n else a1 <= band.a[1] - 84 * n
  {
    hide Block4;
    hide AllI16;
    hide PredictorOk;
    hide SameSign;
    hide Partial;
    ThreePoles(band);
    ThreePoles(After(band, differences, n));
    if n > 0 {
      ThreePoles(After(band, differences, n - 1));
      ClimbsUntilLimit(band, differences, agree, n - 1);
      assert !AtLimit(band, differences, agree, n) && SignAt(band, differences, agree, n - 1);
      DifferenceAt(differences, n - 1);
      ClimbStep(After(band, differences, n - 1), differences[n - 1]);
    }
  }

  lemma ThreePoles(band: Band)
    requires PredictorOk(band)
    ensures |band.a| == |band.p| == 3 && -27648 <= band.a[1] <= 27648
  {
  }

  lemma DifferenceAt(differences: seq<int>, k: nat)
    requires AllI16(differences) && k < |differences|
    ensures InI16(differences[k])
  {
  }

  /**
   * While the partial signals keep one sign the first pole climbs to the edge of its triangle, and while they
   * alternate it falls to the other: within 659 samples, from any state.
   */
  lemma FirstPoleReachesLimit(band: Band, differences: seq<int>, agree: bool)
    requires PredictorOk(band) && AllI16(differences) && KeepsSigns(band, differences, agree)
    requires |differences| >= 659
    ensures exists k: nat :: 1 <= k <= 659 && AtLimit(band, differences, agree, k)
  {
    hide Block4;
    hide After;
    if forall k: nat :: 1 <= k <= 659 ==> !AtLimit(band, differences, agree, k) {
      ThreePoles(band);
      ThreePoles(After(band, differences, 659));
      ClimbsUntilLimit(band, differences, agree, 659);
    }
  }

  // ---- The prediction -------------------------------------------------------------------------------------------

  /** The poles predict `a1 * r1 + a2 * r2` in fourteen fractional bits, to within two. */
  lemma PolesPredict(a1: int, a2: int, r1: int, r2: int)
    requires -27648 <= a1 <= 27648 && -12288 <= a2 <= 12288 && -16384 <= r1 <= 16383 && -16384 <= r2 <= 16383
    ensures var exact := a1 * r1 + a2 * r2;
            InI16(exact / 16384) ==> exact - 2 * 16384 < 16384 * Poles(a1, a2, r1, r2) <= exact
  {
    Halved(a1, r1);
    Halved(a2, r2);
  }

  lemma Halved(a: int, r: int)
    ensures a * (r + r) == 2 * (a * r)
  {
  }

  /** So do the zeros, tap by tap. */
  lemma {:induction false} ZerosPredict(b: seq<int>, d: seq<int>, k: nat)
    requires |b| == |d| == 7 && AllI16(b) && AllI16(d) && k <= 6
    requires forall i :: 1 <= i <= 6 ==> -16384 <= d[i] <= 16383
    ensures TapSum(b, d, k) - 16384 * k <= 16384 * Zeros(b, d, k) <= TapSum(b, d, k)
  {
    if k > 0 {
      ZerosPredict(b, d, k - 1);
      Halved(b[k], d[k]);
    }
  }

  function TapSum(b: seq<int>, d: seq<int>, k: nat): int
    requires |b| == |d| == 7 && k <= 6
  {
    if k == 0 then 0 else TapSum(b, d, k - 1) + b[k] * d[k]
  }

  /** The next prediction is what the new coefficients make of the new signals. */
  lemma PredictionOf(band: Band, difference: int)
    requires PredictorOk(band) && InI16(difference)
    ensures var next := Block4(band, difference);
            && |next.r| == |next.a| == 3 && next.r[1] == Saturate(band.s + difference) && next.r[2] == band.r[1]
            && next.s == Saturate(next.sp + next.sz)
            && next.sp == Poles(next.a[1], next.a[2], next.r[1], next.r[2])
            && |next.b| == |next.d| == 7 && AllI16(next.b) && AllI16(next.d)
            && next.sz == Saturate(Zeros(next.b, next.d, 6))
  {
    hide NextA1;
    hide NextA2;
    hide NextZeros;
    hide Zeros;
    hide Poles;
    assert InI16(band.r[1]);
  }

  // ---- The step size ----------------------------------------------------------------------------------------------

  lemma LevelsStep(i: int)
    requires 0 <= i < 31
    ensures ILB[i] < ILB[i + 1]
  {
  }

  /** The thirty-two steps of an octave rise. */
  lemma {:induction false} LevelsRise(i: int, j: int)
    requires 0 <= i <= j < 32
    ensures ILB[i] <= ILB[j] && (i < j ==> ILB[i] < ILB[j])
    decreases j - i
  {
    if i < j {
      LevelsStep(i);
      LevelsRise(i + 1, j);
    }
  }

  /** A whole octave of the log scale factor doubles the step, up to the bits shifted out. */
  lemma OctaveDoubles(nb: int, shift: int)
    requires 0 <= nb && nb + 2048 <= 2048 * shift && (shift == 8 || shift == 10)
    ensures 2 * Scale(nb, shift) <= Scale(nb + 2048, shift) <= 2 * Scale(nb, shift) + 4
  {
    hide Pow2;
    var amount := shift - nb / 2048;
    assert (nb + 2048) / 2048 == nb / 2048 + 1 && (nb + 2048) / 64 % 32 == nb / 64 % 32;
    assert Pow2(amount) == 2 * Pow2(amount - 1) by { PowerStep(amount - 1); }
    HalfShift(ILB[nb / 64 % 32], Pow2(amount - 1));
  }

  lemma HalfShift(level: int, p: int)
    requires p > 0
    ensures 2 * (level / (2 * p)) <= level / p <= 2 * (level / (2 * p)) + 1
  {
    var d := 2 * p;
    TwiceTimes(level / d, p);
    Halves(level, p, 2 * (level / d), level % d);
  }

  lemma Halves(level: int, p: nat, q: int, r: int)
    requires 0 <= r < 2 * p && level == q * p + r
    ensures q <= level / p <= q + 1
  {
    SumTimes(q, 1, p);
    if r < p { QuotientAndRest(q, p, r); } else { QuotientAndRest(q + 1, p, r - p); }
  }

  lemma TwiceTimes(q: int, p: int)
    ensures q * (2 * p) == 2 * q * p
  {
  }

  // ---- Codes --------------------------------------------------------------------------------------------------------

  /** The level that adapts the low band lies inside the four fine levels that share its four bits. */
  lemma CoarseInsideFine(c: nat)
    requires 1 <= c <= 14
    ensures var fine := 4 * c;
            if c < 8 then FineLevel(fine + 1) <= QM4[c] <= FineLevel(fine + 2) < 0
            else FineLevel(fine + 1) >= QM4[c] >= FineLevel(fine + 2) > 0
  {
    LevelOfCode(4 * c + 1);
    LevelOfCode(4 * c + 2);
    hide FineLevel;
    if c < 8 { NegativeGroup(c); } else { PositiveGroup(c); }
  }

  lemma NegativeGroup(c: nat)
    requires 1 <= c <= 7
    ensures QM6_NEGATIVE[4 * c + 1] <= QM4[c] <= QM6_NEGATIVE[4 * c + 2] < 0
  {
  }

  lemma PositiveGroup(c: nat)
    requires 8 <= c <= 14
    ensures QM6_POSITIVE[4 * c - 31] >= QM4[c] >= QM6_POSITIVE[4 * c - 30] > 0
  {
  }

  /** A louder code raises the log scale factor by more, whatever its sign. */
  lemma LouderCodesRaiseMore(c: nat, louder: nat)
    requires c < 16 && louder < 16 && Abs(QM4[c]) < Abs(QM4[louder])
    ensures WL[RL42[c]] < WL[RL42[louder]]
  {
    assert c == 0 || c == 1 || c == 2 || c == 3 || c == 4 || c == 5 || c == 6 || c == 7 || c >= 8;
    assert louder == 0 || louder == 1 || louder == 2 || louder == 3 || louder == 4 || louder == 5 || louder == 6
        || louder == 7 || louder >= 8;
  }

  /** The log scale factor leaks by one part in 128 and moves by its code's weight, within the band's range. */
  lemma LogScaleMoves(nb: int, code: int)
    requires 0 <= nb <= 18432 && 0 <= code < 64
    ensures NextLowNb(nb, code) == Clamp(nb - Ceiling(nb, 128) + WL[RL42[code / 4]], 0, 18432)
  {
  }

  /** In the high band the outer code raises it and the inner one lowers it. */
  lemma HighLogScaleMoves(nb: int, code: int)
    requires 0 <= nb <= 22528 && 0 <= code < 4
    ensures Abs(QM2[code]) == 7408 ==> NextHighNb(nb, code) == Clamp(nb - Ceiling(nb, 128) + 798, 0, 22528)
    ensures Abs(QM2[code]) == 1616 ==> NextHighNb(nb, code) == Clamp(nb - Ceiling(nb, 128) - 214, 0, 22528)
    ensures Abs(QM2[code]) == 7408 || Abs(QM2[code]) == 1616
  {
  }

  /** The log scale factor of the low band after a run of codes. */
  function LogScaleAfter(nb: int, codes: seq<int>): (next: int)
    requires 0 <= nb <= 18432 && forall i :: 0 <= i < |codes| ==> 0 <= codes[i] < 64
    ensures 0 <= next <= 18432
  {
    if |codes| == 0 then nb else NextLowNb(LogScaleAfter(nb, codes[..|codes| - 1]), codes[|codes| - 1])
  }

  lemma OutermostCodes(code: int)
    requires 0 <= code < 64
    ensures Abs(QM4[code / 4]) == 20456 ==> WL[RL42[code / 4]] == 3042
    ensures Abs(QM4[code / 4]) == 0 ==> WL[RL42[code / 4]] == -60
  {
    var c := code / 4;
    assert c == 0 || c == 1 || c == 2 || c == 3 || c == 4 || c == 5 || c == 6 || c == 7 || c >= 8;
  }

  /** Seven of the loudest codes in a row open the step size fully, whatever it was. */
  lemma {:induction false} LoudestCodesOpen(nb: int, codes: seq<int>)
    requires 0 <= nb <= 18432
    requires forall i :: 0 <= i < |codes| ==> 0 <= codes[i] < 64 && Abs(QM4[codes[i] / 4]) == 20456
    ensures LogScaleAfter(nb, codes) >= Clamp(2898 * |codes|, 0, 18432)
    ensures |codes| >= 7 ==> LogScaleAfter(nb, codes) == 18432
  {
    if |codes| > 0 {
      LoudestCodesOpen(nb, codes[..|codes| - 1]);
      OutermostCodes(codes[|codes| - 1]);
      LogScaleMoves(LogScaleAfter(nb, codes[..|codes| - 1]), codes[|codes| - 1]);
      hide NextLowNb;
    }
  }

  /** And 308 of the quietest close it. */
  lemma {:induction false} QuietestCodesClose(nb: int, codes: seq<int>)
    requires 0 <= nb <= 18432
    requires forall i :: 0 <= i < |codes| ==> 0 <= codes[i] < 64 && QM4[codes[i] / 4] == 0
    ensures LogScaleAfter(nb, codes) <= Clamp(18432 - 60 * |codes|, 0, 18432)
    ensures |codes| >= 308 ==> LogScaleAfter(nb, codes) == 0
  {
    if |codes| > 0 {
      QuietestCodesClose(nb, codes[..|codes| - 1]);
      OutermostCodes(codes[|codes| - 1]);
      LogScaleMoves(LogScaleAfter(nb, codes[..|codes| - 1]), codes[|codes| - 1]);
      hide NextLowNb;
    }
  }
}
