/**
 * What the quadrature mirror filters of G.722 (`crates/siphon-rtp-codec/src/g722.rs`) do to signals. The
 * transmit filter sends a constant to the low band and the fastest alternation to the high band, and the
 * receive filter undoes it: every sample comes back 22 samples later, up to a small ripple.
 */
module G722Qmf {
  import opened Arithmetic
  import opened FixedPoint
  import opened G722
  import opened G722Codec

  // ---- The two filters ----------------------------------------------------------------------------------

  /** Twelve samples from `i` on against the coefficients, and against them in reverse. */
  function Forward(x: seq<int>, i: nat): int
    requires i + 12 <= |x|
  {
    3 * x[i] - 11 * x[i + 1] + 12 * x[i + 2] + 32 * x[i + 3] - 210 * x[i + 4] + 951 * x[i + 5]
    + 3876 * x[i + 6] - 805 * x[i + 7] + 362 * x[i + 8] - 156 * x[i + 9] + 53 * x[i + 10] - 11 * x[i + 11]
  }

  function Backward(x: seq<int>, i: nat): int
    requires i + 12 <= |x|
  {
    -11 * x[i] + 53 * x[i + 1] - 156 * x[i + 2] + 362 * x[i + 3] - 805 * x[i + 4] + 3876 * x[i + 5]
    + 951 * x[i + 6] - 210 * x[i + 7] + 32 * x[i + 8] + 12 * x[i + 9] - 11 * x[i + 10] + 3 * x[i + 11]
  }

  /** Every other sample, from the first or from the second on. */
  function Phase(line: seq<int>, odd: bool): (x: seq<int>)
    requires |line| % 2 == 0
    ensures |x| == |line| / 2
  {
    seq(|line| / 2, i requires 0 <= i < |line| / 2 => line[2 * i + if odd then 1 else 0])
  }

  lemma SumStep(line: seq<int>, odd: bool, k: nat, c: int)
    requires |line| == 24 && AllI16(line) && 1 <= k <= 12 && c == QMF_COEFFS[if odd then 12 - k else k - 1]
    ensures QmfSum(line, odd, 0) == 0
    ensures QmfSum(line, odd, k) == QmfSum(line, odd, k - 1) + c * Phase(line, odd)[k - 1]
  {
    hide QmfSum;
    hide AllI16;
    var x := line[2 * (k - 1) + if odd then 1 else 0];
    SumUnfold(line, odd, k, x, c);
    Commuted(x, c);
    assert Phase(line, odd)[k - 1] == x;
  }

  lemma SumUnfold(line: seq<int>, odd: bool, k: nat, x: int, c: int)
    requires |line| == 24 && AllI16(line) && 1 <= k <= 12 && c == QMF_COEFFS[if odd then 12 - k else k - 1]
    requires x == line[2 * (k - 1) + if odd then 1 else 0]
    ensures QmfSum(line, odd, 0) == 0 && QmfSum(line, odd, k) == QmfSum(line, odd, k - 1) + x * c
  {
    hide CoeffSum;
    hide AllI16;
  }

  lemma EvenStart(line: seq<int>)
    requires |line| == 24 && AllI16(line)
    ensures var x := Phase(line, false);
            QmfSum(line, false, 6) == 3 * x[0] - 11 * x[1] + 12 * x[2] + 32 * x[3] - 210 * x[4] + 951 * x[5]
  {
    hide QmfSum;
    hide AllI16;
    hide Phase;
    SumStep(line, false, 1, 3); SumStep(line, false, 2, -11); SumStep(line, false, 3, 12);
    SumStep(line, false, 4, 32); SumStep(line, false, 5, -210); SumStep(line, false, 6, 951);
  }

  lemma EvenSum(line: seq<int>)
    requires |line| == 24 && AllI16(line)
    ensures QmfSum(line, false, 12) == Forward(Phase(line, false), 0)
  {
    hide QmfSum;
    hide AllI16;
    hide Phase;
    EvenStart(line);
    SumStep(line, false, 7, 3876); SumStep(line, false, 8, -805); SumStep(line, false, 9, 362);
    SumStep(line, false, 10, -156); SumStep(line, false, 11, 53); SumStep(line, false, 12, -11);
  }

  lemma OddStart(line: seq<int>)
    requires |line| == 24 && AllI16(line)
    ensures var x := Phase(line, true);
            QmfSum(line, true, 6) == -11 * x[0] + 53 * x[1] - 156 * x[2] + 362 * x[3] - 805 * x[4] + 3876 * x[5]
  {
    hide QmfSum;
    hide AllI16;
    hide Phase;
    SumStep(line, true, 1, -11); SumStep(line, true, 2, 53); SumStep(line, true, 3, -156);
    SumStep(line, true, 4, 362); SumStep(line, true, 5, -805); SumStep(line, true, 6, 3876);
  }

  lemma OddSum(line: seq<int>)
    requires |line| == 24 && AllI16(line)
    ensures QmfSum(line, true, 12) == Backward(Phase(line, true), 0)
  {
    hide QmfSum;
    hide AllI16;
    hide Phase;
    OddStart(line);
    SumStep(line, true, 7, 951); SumStep(line, true, 8, -210); SumStep(line, true, 9, 32);
    SumStep(line, true, 10, 12); SumStep(line, true, 11, -11); SumStep(line, true, 12, 3);
  }

  // ---- The cascade of both ------------------------------------------------------------------------------

  /** The two filters one after the other: close to 2^24 in the middle, and next to nothing around it. */
  function Cascade(x: seq<int>): int
    requires |x| == 23
  {
    -33 * x[0] + 280 * x[1] - 1183 * x[2] + 3086 * x[3] - 4263 * x[4] - 1756 * x[5]
    + 2668 * x[6] - 432 * x[7] - 141 * x[8] - 2325 * x[9] + 2952 * x[10] + 16779510 * x[11]
    + 2952 * x[12] - 2325 * x[13] - 141 * x[14] - 432 * x[15] + 2668 * x[16] - 1756 * x[17]
    - 4263 * x[18] + 3086 * x[19] - 1183 * x[20] + 280 * x[21] - 33 * x[22]
  }

  lemma ForwardThenBackward(x: seq<int>)
    requires |x| == 23
    ensures -11 * Forward(x, 0) + 53 * Forward(x, 1) - 156 * Forward(x, 2) + 362 * Forward(x, 3)
         - 805 * Forward(x, 4) + 3876 * Forward(x, 5) + 951 * Forward(x, 6) - 210 * Forward(x, 7)
         + 32 * Forward(x, 8) + 12 * Forward(x, 9) - 11 * Forward(x, 10) + 3 * Forward(x, 11)
         == Cascade(x)
  {
  }

  lemma BackwardThenForward(x: seq<int>)
    requires |x| == 23
    ensures 3 * Backward(x, 0) - 11 * Backward(x, 1) + 12 * Backward(x, 2) + 32 * Backward(x, 3)
         - 210 * Backward(x, 4) + 951 * Backward(x, 5) + 3876 * Backward(x, 6) - 805 * Backward(x, 7)
         + 362 * Backward(x, 8) - 156 * Backward(x, 9) + 53 * Backward(x, 10) - 11 * Backward(x, 11)
         == Cascade(x)
  {
  }

  lemma RippleBounded(x: seq<int>)
    requires |x| == 23 && AllI16(x)
    ensures Abs(Cascade(x) - 0x100_0000 * x[11]) <= 40532 * 32768
  {
  }

  // ---- Signals through the transmit filter ----------------------------------------------------------------

  lemma BandsOf(line: seq<int>)
    requires |line| == 24 && AllI16(line)
    ensures LowInput(line) == (Backward(Phase(line, true), 0) + Forward(Phase(line, false), 0)) / 16384
    ensures HighInput(line) == (Backward(Phase(line, true), 0) - Forward(Phase(line, false), 0)) / 16384
  {
    hide QmfSum;
    hide Phase;
    hide Forward;
    hide Backward;
    hide AllI16;
    EvenSum(line);
    OddSum(line);
  }

  /** Two constant phases, one for each parity. */
  lemma ConstantPhases(line: seq<int>, even: int, odd: int)
    requires |line| == 24 && InI16(even) && InI16(odd)
    requires forall i :: 0 <= i < 24 ==> line[i] == if i % 2 == 0 then even else odd
    ensures AllI16(line)
    ensures LowInput(line) == (4096 * odd + 4096 * even) / 16384
    ensures HighInput(line) == (4096 * odd - 4096 * even) / 16384
  {
    hide LowInput;
    hide HighInput;
    hide Forward;
    hide Backward;
    BandsOf(line);
    EqualTaps(Phase(line, false), even);
    EqualTaps(Phase(line, true), odd);
  }

  /** A constant line is half of itself in the low band and nothing in the high band. */
  lemma ConstantGoesLow(line: seq<int>, c: int)
    requires |line| == 24 && InI16(c) && forall i :: 0 <= i < 24 ==> line[i] == c
    ensures AllI16(line) && LowInput(line) == c / 2 && HighInput(line) == 0
  {
    hide LowInput;
    hide HighInput;
    ConstantPhases(line, c, c);
  }

  /** The fastest alternation is nothing in the low band, and half of itself in the high band. */
  lemma AlternationGoesHigh(line: seq<int>, c: int)
    requires |line| == 24 && -0x8000 < c <= 0x7FFF
    requires forall i :: 0 <= i < 24 ==> line[i] == if i % 2 == 0 then c else -c
    ensures AllI16(line) && LowInput(line) == 0 && HighInput(line) == (-c) / 2
  {
    hide LowInput;
    hide HighInput;
    ConstantPhases(line, c, -c);
  }

  lemma EqualTaps(x: seq<int>, c: int)
    requires |x| == 12 && forall i :: 0 <= i < 12 ==> x[i] == c
    ensures Forward(x, 0) == Backward(x, 0) == 4096 * c
  {
  }

  /** The sum of the bands carries one phase of the line, their difference the other. */
  lemma BandsCarryPhases(line: seq<int>)
    requires |line| == 24 && AllI16(line)
    ensures var low, high := LowInput(line), HighInput(line);
            && Abs(16384 * (low + high) - 2 * Backward(Phase(line, true), 0)) <= 32768
            && Abs(16384 * (low - high) - 2 * Forward(Phase(line, false), 0)) <= 32768
            && InI16(low + high) && InI16(low - high)
  {
    hide QmfSum;
    EvenSum(line);
    OddSum(line);
    hide Forward;
    hide Backward;
    QmfBounds(line, true);
    QmfBounds(line, false);
    hide Phase;
  }

  // ---- Transmit and receive ---------------------------------------------------------------------------------

  /** The transmit delay line after `i` further pairs of a stream. */
  function Line(x: seq<int>, i: nat): (line: seq<int>)
    requires |x| == 46 && i < 12
    ensures |line| == 24
  {
    x[2 * i..2 * i + 24]
  }

  /** The receive delay line that twelve successive band pairs of a stream fill. */
  function Received(x: seq<int>): (line: seq<int>)
    requires |x| == 46 && AllI16(x)
    ensures |line| == 24
  {
    seq(24, k requires 0 <= k < 24 =>
      var sent := Line(x, k / 2);
      if k % 2 == 0 then LowInput(sent) + HighInput(sent) else LowInput(sent) - HighInput(sent))
  }

  lemma LinePhase(x: seq<int>, i: nat)
    requires |x| == 46 && AllI16(x) && i < 12
    ensures AllI16(Line(x, i))
    ensures Forward(Phase(Line(x, i), false), 0) == Forward(Phase(x, false), i)
    ensures Backward(Phase(Line(x, i), true), 0) == Backward(Phase(x, true), i)
  {
    assert forall k :: 0 <= k < 12 ==> Phase(Line(x, i), false)[k] == Phase(x, false)[i + k];
    assert forall k :: 0 <= k < 12 ==> Phase(Line(x, i), true)[k] == Phase(x, true)[i + k];
  }

  lemma FiltersBounded(e: seq<int>, tolerance: int)
    requires |e| == 12 && forall i :: 0 <= i < 12 ==> -tolerance <= e[i] <= tolerance
    ensures Abs(Forward(e, 0)) <= 6482 * tolerance && Abs(Backward(e, 0)) <= 6482 * tolerance
  {
  }

  /** What a receive line is off by, slot for slot. */
  function Excess(y: seq<int>, a: seq<int>): (e: seq<int>)
    requires |y| == |a| == 12
    ensures |e| == 12
  {
    seq(12, i requires 0 <= i < 12 => 16384 * y[i] - 2 * a[i])
  }

  lemma FiltersLinear(y: seq<int>, a: seq<int>)
    requires |y| == |a| == 12
    ensures Forward(Excess(y, a), 0) == 16384 * Forward(y, 0) - 2 * Forward(a, 0)
    ensures Backward(Excess(y, a), 0) == 16384 * Backward(y, 0) - 2 * Backward(a, 0)
  {
  }

  lemma FiltersNear(y: seq<int>, a: seq<int>, tolerance: nat)
    requires |y| == |a| == 12 && forall i :: 0 <= i < 12 ==> Abs(16384 * y[i] - 2 * a[i]) <= tolerance
    ensures Abs(16384 * Forward(y, 0) - 2 * Forward(a, 0)) <= 6482 * tolerance
    ensures Abs(16384 * Backward(y, 0) - 2 * Backward(a, 0)) <= 6482 * tolerance
  {
    hide Forward;
    hide Backward;
    FiltersLinear(y, a);
    FiltersBounded(Excess(y, a), tolerance);
  }

  /** The receive sums of a line that is near the bands of a stream, against the stream. */
  lemma ReceivedSums(x: seq<int>, line: seq<int>, tolerance: nat)
    requires |x| == 46 && AllI16(x) && |line| == 24
    requires forall i :: 0 <= i < 12 ==> SlotsNear(x, line, tolerance, i)
    ensures Abs(16384 * Backward(Phase(line, true), 0) - 0x200_0000 * x[22]) <= 6482 * tolerance + 81064 * 32768
    ensures Abs(16384 * Forward(Phase(line, false), 0) - 0x200_0000 * x[23]) <= 6482 * tolerance + 81064 * 32768
  {
    hide Forward;
    hide Backward;
    hide Cascade;
    var evens, odds := Phase(x, false), Phase(x, true);
    var a := seq(12, i requires 0 <= i < 12 => Forward(evens, i));
    var b := seq(12, i requires 0 <= i < 12 => Backward(odds, i));
    forall i | 0 <= i < 12
      ensures Abs(16384 * Phase(line, true)[i] - 2 * a[i]) <= tolerance
      ensures Abs(16384 * Phase(line, false)[i] - 2 * b[i]) <= tolerance
    {
      assert SlotsNear(x, line, tolerance, i);
    }
    FiltersNear(Phase(line, true), a, tolerance);
    FiltersNear(Phase(line, false), b, tolerance);
    SecondFilter(evens, a, odds, b);
    PhaseInRange(x);
    RippleBounded(evens);
    RippleBounded(odds);
  }

  predicate SlotsNear(x: seq<int>, line: seq<int>, tolerance: nat, i: nat)
    requires |x| == 46 && |line| == 24 && i < 12
  {
    && Abs(16384 * line[2 * i + 1] - 2 * Forward(Phase(x, false), i)) <= tolerance
    && Abs(16384 * line[2 * i] - 2 * Backward(Phase(x, true), i)) <= tolerance
  }

  lemma SecondFilter(x: seq<int>, a: seq<int>, y: seq<int>, b: seq<int>)
    requires |x| == |y| == 23 && |a| == |b| == 12
    requires forall i :: 0 <= i < 12 ==> a[i] == Forward(x, i) && b[i] == Backward(y, i)
    ensures Backward(a, 0) == Cascade(x) && Forward(b, 0) == Cascade(y)
  {
    ForwardThenBackward(x);
    BackwardThenForward(y);
    hide Cascade;
    hide AllI16;
  }

  lemma PhaseInRange(x: seq<int>)
    requires |x| == 46 && AllI16(x)
    ensures AllI16(Phase(x, false)) && AllI16(Phase(x, true))
  {
  }

  /** The two samples that a receive line near the bands of a stream gives. */
  lemma OutputNear(x: seq<int>, line: seq<int>, error: nat, tolerance: nat)
    requires |x| == 46 && AllI16(x) && |line| == 24 && AllI16(line) && tolerance == 32768 * (1 + error)
    requires forall i :: 0 <= i < 12 ==> SlotsNear(x, line, tolerance, i)
    ensures Abs(Output(line, true) - x[22]) <= 86 + 7 * error && Abs(Output(line, false) - x[23]) <= 86 + 7 * error
  {
    hide QmfSum;
    hide Forward;
    hide Backward;
    hide Phase;
    EvenSum(line);
    OddSum(line);
    ReceivedSums(x, line, tolerance);
    assert InI16(x[22]) && InI16(x[23]);
    hide AllI16;
    Delivered(QmfSum(line, true, 12), x[22], error);
    Delivered(QmfSum(line, false, 12), x[23], error);
  }

  lemma Delivered(sum: int, x: int, error: nat)
    requires InI16(x) && Abs(16384 * sum - 0x200_0000 * x) <= 6482 * (32768 * (1 + error)) + 81064 * 32768
    ensures Abs(Saturate(sum / 2048) - x) <= 86 + 7 * error
  {
  }

  /**
   * The filter bank gives every stream back: the receive filter, fed the transmit filter's own band samples,
   * outputs the samples of 11 pairs earlier, both of them and in order, to within 86 of 32768.
   */
  lemma FilterBankReturns(x: seq<int>)
    requires |x| == 46 && AllI16(x)
    ensures AllI16(Received(x))
    ensures Abs(Output(Received(x), true) - x[22]) <= 86 && Abs(Output(Received(x), false) - x[23]) <= 86
  {
    hide LowInput;
    hide HighInput;
    hide Forward;
    hide Backward;
    hide Phase;
    hide Output;
    var line := Received(x);
    forall i | 0 <= i < 12 ensures SlotsNear(x, line, 32768, i) {
      LinePhase(x, i);
      BandsCarryPhases(Line(x, i));
    }
    BandsFit(x, line);
    OutputNear(x, line, 0, 32768);
  }

  lemma BandsFit(x: seq<int>, line: seq<int>)
    requires |x| == 46 && AllI16(x) && line == Received(x)
    ensures AllI16(line)
  {
    hide LowInput;
    hide HighInput;
    hide Forward;
    hide Backward;
    hide Phase;
    forall k: nat | k < |line| ensures InI16(line[k]) {
      LinePhase(x, k / 2);
      BandsCarryPhases(Line(x, k / 2));
    }
  }

  // ---- Whole streams --------------------------------------------------------------------------------------------

  /** The transmit line is the last 24 samples of what it started with and the stream. */
  lemma {:induction false} TransmitLine(c: Chain, pcm: seq<int>, n: nat)
    requires ChainOk(c) && AllI16(pcm) && 2 * n <= |pcm|
    ensures EncodeRun(c, pcm, n).history == (c.history + pcm)[2 * n..2 * n + 24]
  {
    hide CodeOf;
    hide BandsAfter;
    hide BandsOk;
    if n == 0 {
      assert (c.history + pcm)[..24] == c.history;
    } else {
      TransmitLine(c, pcm, n - 1);
      var all := c.history + pcm;
      assert all[2 * n - 2..2 * n + 22][2..] == all[2 * n..2 * n + 22];
      assert all[2 * n + 22] == pcm[2 * n - 2] && all[2 * n + 23] == pcm[2 * n - 1];
    }
  }

  /** The two values that code `k` of a run adds to the receive line. */
  function SlotOf(c: Chain, codes: seq<int>, k: nat, odd: bool): int
    requires ChainOk(c) && Bytes(codes) && k < |codes|
  {
    var bands := DecodeRun(c, codes, k).bands;
    var low, high := LowSample(bands.low, codes[k] % 64), HighSample(bands.high, codes[k] / 64);
    if odd then low - high else low + high
  }

  /** After twelve codes the receive line holds theirs and nothing else. */
  lemma {:induction false} ReceiveLine(c: Chain, codes: seq<int>, n: nat, k: nat)
    requires ChainOk(c) && Bytes(codes) && k < n <= |codes| && n <= k + 12
    ensures var line := DecodeRun(c, codes, n).history;
            && |line| == 24
            && line[24 - 2 * (n - k)] == SlotOf(c, codes, k, false)
            && line[25 - 2 * (n - k)] == SlotOf(c, codes, k, true)
  {
    hide LowSample;
    hide HighSample;
    hide BandsAfter;
    hide BandsOk;
    hide AllI16;
    if k < n - 1 { ReceiveLine(c, codes, n - 1, k); }
  }

  /** Both band samples of code `k` are within `error` of what the transmit filter put in. */
  ghost predicate BandsNear(encoder: Chain, decoder: Chain, pcm: seq<int>, codes: seq<int>, k: nat, error: nat)
    requires ChainOk(encoder) && ChainOk(decoder) && AllI16(pcm) && Bytes(codes) && k < |codes| && 2 * k + 2 <= |pcm|
  {
    var line, bands := EncodeRun(encoder, pcm, k + 1).history, DecodeRun(decoder, codes, k).bands;
    && Abs(LowSample(bands.low, codes[k] % 64) - LowInput(line)) <= error
    && Abs(HighSample(bands.high, codes[k] / 64) - HighInput(line)) <= error
  }

  /** The 46 samples around pair `n` that its twelve transmit lines see. */
  function Around(c: Chain, pcm: seq<int>, n: nat): (x: seq<int>)
    requires ChainOk(c) && AllI16(pcm) && 2 * n + 24 <= |pcm|
    ensures |x| == 46 && AllI16(x) && x[22] == pcm[2 * n] && x[23] == pcm[2 * n + 1]
  {
    (c.history + pcm)[2 * n + 2..2 * n + 48]
  }

  lemma AroundLine(c: Chain, pcm: seq<int>, n: nat, i: nat)
    requires ChainOk(c) && AllI16(pcm) && 2 * n + 24 <= |pcm| && i < 12
    ensures Line(Around(c, pcm, n), i) == EncodeRun(c, pcm, n + i + 1).history
  {
    hide EncodeRun;
    hide BandsOk;
    TransmitLine(c, pcm, n + i + 1);
    Subslice(c.history + pcm, 2 * n + 2, 2 * n + 48, 2 * i, 2 * i + 24);
  }

  lemma Subslice(x: seq<int>, from: nat, to: nat, i: nat, j: nat)
    requires i <= j && from + j <= to <= |x|
    ensures x[from..to][i..j] == x[from + i..from + j]
  {
    var part, whole := x[from..to][i..j], x[from + i..from + j];
    assert forall k :: 0 <= k < j - i ==> part[k] == x[from..to][i + k] == whole[k];
  }

  lemma SlotsOfRun(encoder: Chain, decoder: Chain, pcm: seq<int>, codes: seq<int>, n: nat, i: nat, error: nat)
    requires ChainOk(encoder) && ChainOk(decoder) && AllI16(pcm) && Bytes(codes) && i < 12
    requires n + 12 <= |codes| && 2 * n + 24 <= |pcm| && BandsNear(encoder, decoder, pcm, codes, n + i, error)
    ensures |DecodeRun(decoder, codes, n + 12).history| == 24
    ensures SlotsNear(Around(encoder, pcm, n), DecodeRun(decoder, codes, n + 12).history, 32768 * (1 + error), i)
  {
    hide EncodeRun;
    hide DecodeRun;
    hide LowInput;
    hide HighInput;
    hide LowSample;
    hide HighSample;
    hide Forward;
    hide Backward;
    hide Phase;
    hide BandsOk;
    var x := Around(encoder, pcm, n);
    hide Around;
    AroundLine(encoder, pcm, n, i);
    LinePhase(x, i);
    BandsCarryPhases(Line(x, i));
    ReceiveLine(decoder, codes, n + 12, n + i);
  }

  lemma {:induction false} SamplesAt(c: Chain, codes: seq<int>, k: nat, n: nat)
    requires ChainOk(c) && Bytes(codes) && k < n <= |codes|
    ensures var line := DecodeRun(c, codes, k + 1).history;
            && Samples(c, codes, n)[2 * k] == Output(line, true)
            && Samples(c, codes, n)[2 * k + 1] == Output(line, false)
  {
    hide AfterDecode;
    hide Output;
    hide ChainOk;
    if k < n - 1 { SamplesAt(c, codes, k, n - 1); }
  }

  /**
   * Speech comes through. Whatever the stream, if the two band quantizers stay within `error` of their inputs
   * over the twelve pairs that a sample takes part in, its decoded counterpart 22 samples later is within
   * 86 + 7 * error of it.
   */
  lemma DecodedSpeechReturns(
      encoder: Chain, decoder: Chain, pcm: seq<int>, codes: seq<int>, n: nat, total: nat, error: nat)
    requires ChainOk(encoder) && ChainOk(decoder) && AllI16(pcm) && n + 12 <= total && 2 * total <= |pcm|
    requires codes == Codes(encoder, pcm, total)
    requires forall k :: n <= k < n + 12 ==> BandsNear(encoder, decoder, pcm, codes, k, error)
    ensures var speech := Samples(decoder, codes, total);
            && Abs(speech[2 * n + 22] - pcm[2 * n]) <= 86 + 7 * error
            && Abs(speech[2 * n + 23] - pcm[2 * n + 1]) <= 86 + 7 * error
  {
    hide Codes;
    hide Samples;
    hide BandsOk;
    hide Output;
    hide BandsNear;
    hide DecodeRun;
    hide SlotsNear;
    hide Around;
    SamplesAt(decoder, codes, n + 11, total);
    var x, tolerance := Around(encoder, pcm, n), 32768 * (1 + error);
    var line := DecodeRun(decoder, codes, n + 12).history;
    forall i | 0 <= i < 12 ensures SlotsNear(x, line, tolerance, i) {
      SlotsOfRun(encoder, decoder, pcm, codes, n, i, error);
    }
    OutputNear(x, line, error, tolerance);
  }
}
