/**
 * The G.722 codec object (`crates/siphon-rtp-codec/src/g722.rs`): two bands updated in place and the
 * QMF delay line. Encoding and decoding are separate chains, each proved against `G722`; that they
 * leave equal bands behind after every code byte is the lock-step theorem at the end.
 */
module G722Codec {
  import opened Arithmetic
  import opened FixedPoint
  import opened G722
  import opened PowersOfTwo
  import opened Wrappers

  // ---- The two chains as folds -----------------------------------------------------------------------

  /** An instance's whole state: both bands and the QMF delay line. */
  datatype Chain = Chain(bands: Bands, history: seq<int>)

  predicate ChainOk(c: Chain) {
    BandsOk(c.bands) && |c.history| == 24 && AllI16(c.history)
  }

  const SILENT_LINE := [0, 0, 0, 0, 0, 0, 0, 0, 0, 0, 0, 0, 0, 0, 0, 0, 0, 0, 0, 0, 0, 0, 0, 0]

  function CodeOf(c: Chain, first: int, second: int): (code: int)
    requires ChainOk(c) && InI16(first) && InI16(second)
    ensures 0 <= code < 256
  {
    var line := Shifted(c.history, first, second);
    CodeSplits(c.bands, LowInput(line), HighInput(line));
    CodeFor(c.bands, LowInput(line), HighInput(line))
  }

  function AfterEncode(c: Chain, first: int, second: int): (next: Chain)
    requires ChainOk(c) && InI16(first) && InI16(second)
    ensures ChainOk(next)
  {
    Chain(BandsAfter(c.bands, CodeOf(c, first, second)), Shifted(c.history, first, second))
  }

  function AfterDecode(c: Chain, code: int): (next: Chain)
    requires ChainOk(c) && 0 <= code < 256
    ensures ChainOk(next)
  {
    var low, high := LowSample(c.bands.low, code % 64), HighSample(c.bands.high, code / 64);
    Chain(BandsAfter(c.bands, code), Shifted(c.history, low + high, low - high))
  }

  /** One of the two output samples of the receive QMF. */
  function Output(history: seq<int>, odd: bool): (sample: int)
    requires |history| == 24 && AllI16(history)
    ensures InI16(sample)
  {
    Saturate(QmfSum(history, odd, 12) / 2048)
  }

  predicate Bytes(codes: seq<int>) {
    forall i :: 0 <= i < |codes| ==> 0 <= codes[i] < 256
  }

  /** The encoder's state after `n` pairs of samples. */
  function EncodeRun(c: Chain, pcm: seq<int>, n: nat): (next: Chain)
    requires ChainOk(c) && AllI16(pcm) && 2 * n <= |pcm|
    ensures ChainOk(next)
  {
    if n == 0 then c else AfterEncode(EncodeRun(c, pcm, n - 1), pcm[2 * n - 2], pcm[2 * n - 1])
  }

  function Codes(c: Chain, pcm: seq<int>, n: nat): (codes: seq<int>)
    requires ChainOk(c) && AllI16(pcm) && 2 * n <= |pcm|
    ensures |codes| == n && Bytes(codes)
  {
    hide AfterEncode;
    hide CodeOf;
    if n == 0 then []
    else Codes(c, pcm, n - 1) + [CodeOf(EncodeRun(c, pcm, n - 1), pcm[2 * n - 2], pcm[2 * n - 1])]
  }

  /** The decoder's state after the first `n` code bytes. */
  function DecodeRun(c: Chain, codes: seq<int>, n: nat): (next: Chain)
    requires ChainOk(c) && Bytes(codes) && n <= |codes|
    ensures ChainOk(next)
  {
    if n == 0 then c else AfterDecode(DecodeRun(c, codes, n - 1), codes[n - 1])
  }

  /** The samples the decoder writes for the first `n` code bytes. */
  function Samples(c: Chain, codes: seq<int>, n: nat): (pcm: seq<int>)
    requires ChainOk(c) && Bytes(codes) && n <= |codes|
    ensures |pcm| == 2 * n && AllI16(pcm)
  {
    hide AfterDecode;
    hide Output;
    if n == 0 then []
    else
      var line := DecodeRun(c, codes, n).history;
      Samples(c, codes, n - 1) + [Output(line, true), Output(line, false)]
  }

  lemma {:induction false} CodesPrefix(c: Chain, pcm: seq<int>, k: nat, n: nat)
    requires ChainOk(c) && AllI16(pcm) && k < n && 2 * n <= |pcm|
    ensures Codes(c, pcm, n)[k] == CodeOf(EncodeRun(c, pcm, k), pcm[2 * k], pcm[2 * k + 1])
  {
    hide CodeOf;
    hide EncodeRun;
    hide ChainOk;
    if k < n - 1 { CodesPrefix(c, pcm, k, n - 1); }
  }

  /**
   * Lock-step: fed the encoder's code bytes, a decoder whose bands start equal has equal bands after
   * every one of them, whatever the samples were and whatever its own delay line held.
   */
  lemma {:induction false} LockStep(encoder: Chain, decoder: Chain, pcm: seq<int>, k: nat, n: nat)
    requires ChainOk(encoder) && ChainOk(decoder) && encoder.bands == decoder.bands
    requires AllI16(pcm) && k <= n && 2 * n <= |pcm|
    ensures DecodeRun(decoder, Codes(encoder, pcm, n), k).bands == EncodeRun(encoder, pcm, k).bands
  {
    hide CodeOf;
    hide Codes;
    hide ChainOk;
    hide BandsAfter;
    hide AllI16;
    hide Shifted;
    if k > 0 {
      LockStep(encoder, decoder, pcm, k - 1, n);
      CodesPrefix(encoder, pcm, k - 1, n);
      SamplesInRange(pcm, 2 * k - 2);
      SamplesInRange(pcm, 2 * k - 1);
    }
  }

  lemma SamplesInRange(pcm: seq<int>, i: nat)
    requires AllI16(pcm) && i < |pcm|
    ensures InI16(pcm[i])
  {
  }

  /**
   * Every decoded run follows the encoder's input: at each step and for every stream, both of the decoder's
   * sub-band samples are within their intervals' reach of the samples the encoder's own QMF produced.
   */
  lemma DecodedFollowsInput(encoder: Chain, decoder: Chain, pcm: seq<int>, k: nat, n: nat)
    requires ChainOk(encoder) && ChainOk(decoder) && encoder.bands == decoder.bands
    requires AllI16(pcm) && k < n && 2 * n <= |pcm|
    ensures var bands := DecodeRun(decoder, Codes(encoder, pcm, n), k).bands;
            var line := EncodeRun(encoder, pcm, k + 1).history;
            var code := Codes(encoder, pcm, n)[k];
            BandsOk(bands) && LowFollows(bands.low, LowInput(line), code % 64)
            && HighFollows(bands.high, HighInput(line), code / 64)
  {
    hide LowCode;
    hide HighCode;
    hide LowFollows;
    hide HighFollows;
    hide LowInput;
    hide HighInput;
    hide LowOk;
    hide HighOk;
    hide Codes;
    hide DecodeRun;
    hide BandsAfter;
    hide Shifted;
    hide AllI16;
    LockStep(encoder, decoder, pcm, k, n);
    CodesPrefix(encoder, pcm, k, n);
    SamplesInRange(pcm, 2 * k);
    SamplesInRange(pcm, 2 * k + 1);
    var before := EncodeRun(encoder, pcm, k);
    var line := Shifted(before.history, pcm[2 * k], pcm[2 * k + 1]);
    CodeSplits(before.bands, LowInput(line), HighInput(line));
    LowFollowsCode(before.bands.low, LowInput(line));
    HighFollowsCode(before.bands.high, HighInput(line));
  }

  /** A decoded low-band sample is within reach of the input. */
  predicate LowFollows(band: Band, xlow: int, code: int)
    requires LowOk(band) && -65536 <= xlow <= 65536 && 0 <= code < 64
  {
    PredictionInRange(band);
    var e := Saturate(xlow - band.s);
    Abs(Clamp(xlow, -16384, 16383) - LowSample(band, code)) <= Reach(e, band.det) + 1 + Abs(xlow - band.s - e)
  }

  predicate HighFollows(band: Band, xhigh: int, code: int)
    requires HighOk(band) && -65536 <= xhigh <= 65536 && 0 <= code < 4
  {
    PredictionInRange(band);
    var e := Saturate(xhigh - band.s);
    Abs(Clamp(xhigh, -16384, 16383) - HighSample(band, code)) <= HighReach(e, band.det) + 1 + Abs(xhigh - band.s - e)
  }

  lemma LowFollowsCode(band: Band, xlow: int)
    requires LowOk(band) && -65536 <= xlow <= 65536
    ensures LowFollows(band, xlow, LowCode(band, xlow))
  {
    hide LowCode;
    hide LowSample;
    hide Reach;
    hide PredictorOk;
    LowSampleTracksInput(band, xlow);
  }

  lemma HighFollowsCode(band: Band, xhigh: int)
    requires HighOk(band) && -65536 <= xhigh <= 65536
    ensures HighFollows(band, xhigh, HighCode(band, xhigh))
  {
    hide HighCode;
    hide HighSample;
    hide HighReach;
    hide PredictorOk;
    HighSampleTracksInput(band, xhigh);
  }

  // ---- The objects ------------------------------------------------------------------------------------

  class BandState {
    var s: int
    var sp: int
    var sz: int
    var nb: int
    var det: int
    var r: seq<int>
    var a: seq<int>
    var p: seq<int>
    var d: seq<int>
    var b: seq<int>

    ghost function View(): Band
      reads this
    {
      Band(s, sp, sz, nb, det, r, a, p, d, b)
    }

    constructor (initial: int)
      ensures View() == NewBand(initial)
    {
      s, sp, sz, nb, det := 0, 0, 0, 0, initial;
      r, a, p := [0, 0, 0], [0, 0, 0], [0, 0, 0];
      d, b := [0, 0, 0, 0, 0, 0, 0], [0, 0, 0, 0, 0, 0, 0];
    }

    /** The predictor update, in the order the Recommendation gives it. */
    method Adapt(difference: int)
      requires PredictorOk(View()) && InI16(difference)
      modifies this
      ensures View() == Block4(old(View()), difference)
    {
      hide NextZeros;
      hide Zeros;
      hide Poles;
      hide G722.NextA1;
      hide G722.NextA2;
      hide AllI16;
      ghost var before := View();
      DelayedDifferences(before.d, difference);
      SaturatedHistory(before, difference);
      Reconstruct(difference);
      var ap2 := SecondPole(before);
      var ap1 := FirstPole(before, ap2);
      var bp := ZeroCoefficients(before, difference);
      Delay(ap1, ap2, bp);
      Predict();
    }

    /** RECONS and PARREC. */
    method Reconstruct(difference: int)
      requires |d| == 7 && |r| == |p| == 3 && InI16(s) && InI16(sz) && InI16(difference)
      modifies `d, `r, `p
      ensures d == old(d)[0 := difference]
      ensures r == [Saturate(s + difference), old(r)[1], old(r)[2]]
      ensures p == [Saturate(sz + difference), old(p)[1], old(p)[2]]
    {
      d := d[0 := difference];
      r := r[0 := Saturate(I32(s + difference))];
      p := p[0 := Saturate(I32(sz + difference))];
    }

    /** DELAYA: shift the histories, commit the coefficients. */
    method Delay(ap1: int, ap2: int, bp: seq<int>)
      requires |d| == |b| == |bp| == 7 && |r| == |p| == |a| == 3
      modifies `d, `b, `r, `p, `a
      ensures d == [old(d)[0]] + old(d)[..6] && b == [old(b)[0]] + bp[1..]
      ensures r == [old(r)[0], old(r)[0], old(r)[1]] && p == [old(p)[0], old(p)[0], old(p)[1]]
      ensures a == [old(a)[0], ap1, ap2]
    {
      d := [d[0]] + d[..6];
      b := [b[0]] + bp[1..];
      r := [r[0]] + r[..2];
      p := [p[0]] + p[..2];
      a := [a[0], ap1, ap2];
    }

    /** FILTEP, FILTEZ and PREDIC. */
    method Predict()
      requires |r| == |a| == 3 && -27648 <= a[1] <= 27648 && -12288 <= a[2] <= 12288 && InI16(r[1]) && InI16(r[2])
      requires |b| == |d| == 7 && AllI16(b) && AllI16(d)
      modifies `s, `sp, `sz
      ensures sp == Poles(a[1], a[2], r[1], r[2]) && sz == Saturate(Zeros(b, d, 6)) && s == Saturate(sp + sz)
    {
      sp := PolePrediction();
      sz := ZeroPrediction();
      s := Saturate(I32(sp + sz));
    }

    method SecondPole(ghost before: Band) returns (ap2: int)
      requires PredictorOk(before) && a == before.a && |p| == 3 && p[1..] == before.p[1..] && InI16(p[0])
      ensures ap2 == NextA2(before, p[0])
    {
      assert p[1] == p[1..][0] == before.p[1] && p[2] == p[1..][1] == before.p[2];
      var sg0, sg1, sg2 := p[0] / 32768, p[1] / 32768, p[2] / 32768;
      var wd1 := Saturate(I32(a[1] * 4));
      var wd2 := if sg0 == sg1 then -wd1 else wd1;
      if wd2 > 32767 { wd2 := 32767; }
      var wd3 := wd2 / 128 + (if sg0 == sg2 then 128 else -128);
      wd3 := I32(wd3 + I32(a[2] * 32512) / 32768);
      ap2 := Clamp(wd3, -12288, 12288);
    }

    method FirstPole(ghost before: Band, ap2: int) returns (ap1: int)
      requires PredictorOk(before) && a == before.a && |p| == 3 && p[1..] == before.p[1..]
      requires -12288 <= ap2 <= 12288
      ensures ap1 == NextA1(before, p[0], ap2)
    {
      assert p[1] == p[1..][0] == before.p[1];
      var wd1 := if p[0] / 32768 == p[1] / 32768 then 192 else -192;
      var wd2 := I32(a[1] * 32640) / 32768;
      ap1 := Saturate(I32(wd1 + wd2));
      var wd3 := Saturate(15360 - ap2);
      ap1 := Clamp(ap1, -wd3, wd3);
    }

    method ZeroCoefficients(ghost before: Band, difference: int) returns (bp: seq<int>)
      requires PredictorOk(before) && b == before.b && |d| == 7 && d[1..] == before.d[1..]
      ensures bp == NextZeros(before, difference) && bp == [b[0]] + bp[1..]
    {
      var leak := if difference == 0 then 0 else 128;
      bp := [b[0]];
      for i := 1 to 7
        invariant |bp| == i && bp[0] == before.b[0]
        invariant forall k :: 1 <= k < i ==> bp[k] == NextB(before.b[k], before.d[k], difference)
      {
        assert d[i] == d[1..][i - 1] == before.d[i];
        var term := if d[i] / 32768 == difference / 32768 then leak else -leak;
        bp := bp + [Saturate(I32(term + I32(b[i] * 32640) / 32768))];
      }
    }

    method PolePrediction() returns (prediction: int)
      requires |r| == |a| == 3 && -27648 <= a[1] <= 27648 && -12288 <= a[2] <= 12288 && InI16(r[1]) && InI16(r[2])
      ensures prediction == Poles(a[1], a[2], r[1], r[2])
    {
      PoleProduct(a[1], Saturate(r[1] + r[1]));
      PoleProduct(a[2], Saturate(r[2] + r[2]));
      var wd1 := I32(a[1] * Saturate(I32(r[1] + r[1]))) / 32768;
      var wd2 := I32(a[2] * Saturate(I32(r[2] + r[2]))) / 32768;
      prediction := Saturate(I32(wd1 + wd2));
    }

    method ZeroPrediction() returns (prediction: int)
      requires |b| == |d| == 7 && AllI16(b) && AllI16(d)
      ensures prediction == Saturate(Zeros(b, d, 6))
    {
      var sum := 0;
      for i := 1 to 7
        invariant sum == Zeros(b, d, i - 1)
      {
        PoleProduct(b[i], Saturate(d[i] + d[i]));
        sum := I32(sum + I32(b[i] * Saturate(I32(d[i] + d[i]))) / 32768);
      }
      prediction := Saturate(sum);
    }

    method Rescale(shift: int)
      requires 0 <= shift <= 10 && 0 <= nb <= 2048 * (shift + 1)
      modifies `det
      ensures det == Scale(nb, shift)
    {
      hide Pow2;
      var index := nb / 64 % 32;
      var amount := shift - nb / 2048;
      var scaled := if amount < 0 then ILB[index] * Pow2(-amount) else ILB[index] / Pow2(amount);
      det := scaled * 4;
    }
  }

  class Codec {
    const low: BandState
    const high: BandState
    var history: seq<int>

    ghost function View(): Bands
      reads low, high
    {
      Bands(low.View(), high.View())
    }

    ghost function State(): Chain
      reads this, low, high
    {
      Chain(View(), history)
    }

    ghost predicate Valid()
      reads this, low, high
    {
      low != high && ChainOk(State())
    }

    constructor ()
      ensures Valid() && State() == Chain(RESET, SILENT_LINE)
      ensures fresh(low) && fresh(high)
    {
      low := new BandState(32);
      high := new BandState(8);
      history := SILENT_LINE;
    }

    /** QUANTL: search the decision intervals. */
    method QuantizeLow(xlow: int) returns (ilow: int)
      requires Valid() && -65536 <= xlow <= 65536
      ensures ilow == LowCode(low.View(), xlow)
    {
      hide PredictorOk;
      hide Codeword;
      hide Edge;
      SampleIngredients(View());
      var el := Saturate(I32(xlow - low.s));
      var magnitude := FoldedMagnitude(el);
      var interval := 1;
      while interval < 30
        invariant 1 <= interval <= 30
        invariant LowInterval(magnitude, low.det, 1) == LowInterval(magnitude, low.det, interval)
      {
        if magnitude < Edge(interval, low.det) { break; }
        interval := interval + 1;
      }
      ilow := Codeword(interval, el < 0);
    }

    /** The encoder's low band: quantizer, then its own adaptation on the code it chose. */
    method EncodeLow(xlow: int) returns (ilow: int)
      requires Valid() && -65536 <= xlow <= 65536
      modifies low
      ensures ilow == LowCode(old(low.View()), xlow) && low.View() == LowStep(old(low.View()), ilow)
    {
      hide Block4;
      hide Scale;
      hide LowCode;
      ilow := QuantizeLow(xlow);
      var coarse := ilow / 4;
      BoundedProduct(low.det, QM4[coarse], 16384, 20456);
      var dlow := I32(low.det * QM4[coarse]) / 32768;
      low.nb := I32(I32(low.nb * 127) / 128 + WL[RL42[coarse]]);
      low.nb := Clamp(low.nb, 0, 18432);
      low.Rescale(8);
      low.Adapt(dlow);
    }

    /** The encoder's high band. */
    method EncodeHigh(xhigh: int) returns (ihigh: int)
      requires Valid() && -65536 <= xhigh <= 65536
      modifies high
      ensures ihigh == HighCode(old(high.View()), xhigh) && high.View() == HighStep(old(high.View()), ihigh)
    {
      hide Block4;
      hide Scale;
      SampleIngredients(View());
      var eh := Saturate(I32(xhigh - high.s));
      var mih := if FoldedMagnitude(eh) >= I32(564 * high.det) / 4096 then 2 else 1;
      ihigh := if eh < 0 then IHN[mih] else IHP[mih];
      BoundedProduct(high.det, QM2[ihigh], 16384, 7408);
      var dhigh := I32(high.det * QM2[ihigh]) / 32768;
      high.nb := I32(I32(high.nb * 127) / 128 + WH[RH2[ihigh]]);
      high.nb := Clamp(high.nb, 0, 22528);
      high.Rescale(10);
      high.Adapt(dhigh);
    }

    /** Encode one pair of sub-band samples. */
    method EncodeSubband(xlow: int, xhigh: int) returns (code: int)
      requires Valid() && -65536 <= xlow <= 65536 && -65536 <= xhigh <= 65536
      modifies low, high
      ensures Valid() && 0 <= code < 256
      ensures code == CodeFor(old(View()), xlow, xhigh) && View() == BandsAfter(old(View()), code)
    {
      hide LowStep;
      hide HighStep;
      hide LowCode;
      hide HighCode;
      hide PredictorOk;
      ghost var before := View();
      CodeSplits(before, xlow, xhigh);
      var ilow := EncodeLow(xlow);
      var ihigh := EncodeHigh(xhigh);
      code := ihigh * 64 + ilow;
    }

    /** The decoder's low band: the sample from all six bits, the adaptation from the top four. */
    method DecodeLow(code: int) returns (rlow: int)
      requires Valid() && 0 <= code < 64
      modifies low
      ensures rlow == LowSample(old(low.View()), code) && low.View() == LowStep(old(low.View()), code)
    {
      hide Block4;
      hide Scale;
      SampleIngredients(View());
      var coarse := code / 4;
      BoundedProduct(low.det, FineLevel(code), 16384, 24808);
      var reconstructed := I32(low.det * FineLevel(code)) / 32768;
      rlow := Clamp(I32(low.s + reconstructed), -16384, 16383);
      BoundedProduct(low.det, QM4[coarse], 16384, 20456);
      var dlow := I32(low.det * QM4[coarse]) / 32768;
      low.nb := I32(I32(low.nb * 127) / 128 + WL[RL42[coarse]]);
      low.nb := Clamp(low.nb, 0, 18432);
      low.Rescale(8);
      low.Adapt(dlow);
    }

    /** The decoder's high band. */
    method DecodeHigh(code: int) returns (rhigh: int)
      requires Valid() && 0 <= code < 4
      modifies high
      ensures rhigh == HighSample(old(high.View()), code) && high.View() == HighStep(old(high.View()), code)
    {
      hide Block4;
      hide Scale;
      SampleIngredients(View());
      BoundedProduct(high.det, QM2[code], 16384, 7408);
      var dhigh := I32(high.det * QM2[code]) / 32768;
      rhigh := Clamp(I32(dhigh + high.s), -16384, 16383);
      high.nb := I32(I32(high.nb * 127) / 128 + WH[RH2[code]]);
      high.nb := Clamp(high.nb, 0, 22528);
      high.Rescale(10);
      high.Adapt(dhigh);
    }

    /** Decode one code byte to the two limited sub-band samples. */
    method DecodeSubband(code: int) returns (rlow: int, rhigh: int)
      requires Valid() && 0 <= code < 256
      modifies low, high
      ensures Valid() && View() == BandsAfter(old(View()), code)
      ensures rlow == LowSample(old(low.View()), code % 64) && rhigh == HighSample(old(high.View()), code / 64)
    {
      hide LowStep;
      hide HighStep;
      hide LowSample;
      hide HighSample;
      hide PredictorOk;
      rlow := DecodeLow(code % 64);
      rhigh := DecodeHigh(code / 64);
    }

    /** Both polyphase sums of the delay line. */
    method Filter() returns (even: int, odd: int)
      requires |history| == 24 && AllI16(history)
      ensures even == QmfSum(history, false, 12) && odd == QmfSum(history, true, 12)
    {
      even, odd := 0, 0;
      for i := 0 to 12
        invariant even == QmfSum(history, false, i) && odd == QmfSum(history, true, i)
      {
        BoundedProduct(history[2 * i], QMF_COEFFS[i], 32768, Abs(QMF_COEFFS[i]));
        BoundedProduct(history[2 * i + 1], QMF_COEFFS[11 - i], 32768, Abs(QMF_COEFFS[11 - i]));
        CoeffTotal(i + 1, false);
        CoeffTotal(i + 1, true);
        even := I32(even + I32(history[2 * i] * QMF_COEFFS[i]));
        odd := I32(odd + I32(history[2 * i + 1] * QMF_COEFFS[11 - i]));
      }
    }

    /** The transmit QMF's two outputs. */
    method SplitBands() returns (xlow: int, xhigh: int)
      requires |history| == 24 && AllI16(history)
      ensures xlow == LowInput(history) && xhigh == HighInput(history)
    {
      hide QmfSum;
      var even, odd := Filter();
      QmfBounds(history, true);
      QmfBounds(history, false);
      xlow := I32(odd + even) / 16384;
      xhigh := I32(odd - even) / 16384;
    }

    method EncodePair(first: int, second: int) returns (code: int)
      requires Valid() && InI16(first) && InI16(second)
      modifies this, low, high
      ensures Valid() && code == CodeOf(old(State()), first, second)
      ensures State() == AfterEncode(old(State()), first, second)
    {
      hide LowOk;
      hide HighOk;
      hide LowInput;
      hide HighInput;
      hide CodeFor;
      hide BandsAfter;
      hide AllI16;
      ghost var line := Shifted(history, first, second);
      history := history[2..] + [first, second];
      assert history == line;
      var xlow, xhigh := SplitBands();
      code := EncodeSubband(xlow, xhigh);
    }

    method DecodeByte(code: int) returns (first: int, second: int)
      requires Valid() && 0 <= code < 256
      modifies this, low, high
      ensures Valid() && State() == AfterDecode(old(State()), code)
      ensures first == Output(history, true) && second == Output(history, false)
    {
      hide LowOk;
      hide HighOk;
      hide QmfSum;
      hide LowSample;
      hide HighSample;
      hide BandsAfter;
      hide AllI16;
      var rlow, rhigh := DecodeSubband(code);
      ghost var line := Shifted(history, rlow + rhigh, rlow - rhigh);
      history := history[2..] + [rlow + rhigh, rlow - rhigh];
      assert history == line;
      var even, odd := Filter();
      first, second := Saturate(odd / 2048), Saturate(even / 2048);
    }

    /** Encode a buffer: one byte per two samples, an odd trailing sample left out. */
    method Encode(pcm: seq<int>, output: array<int>) returns (result: CodecResult)
      requires Valid() && AllI16(pcm)
      modifies this, low, high, output
      ensures Valid()
      ensures output.Length < |pcm| / 2 ==>
                result == OutputTooSmall(|pcm| / 2, output.Length)
                && State() == old(State()) && output[..] == old(output[..])
      ensures |pcm| / 2 <= output.Length ==>
                result == Done(|pcm| / 2) && State() == EncodeRun(old(State()), pcm, |pcm| / 2)
                && output[..] == Codes(old(State()), pcm, |pcm| / 2) + old(output[|pcm| / 2..])
    {
      hide ChainOk;
      hide AfterEncode;
      hide CodeOf;
      hide AllI16;
      var bytes := |pcm| / 2;
      if output.Length < bytes {
        return OutputTooSmall(bytes, output.Length);
      }
      for i := 0 to bytes
        invariant Valid() && State() == EncodeRun(old(State()), pcm, i)
        invariant output[..i] == Codes(old(State()), pcm, i) && output[i..] == old(output[i..])
      {
        SamplesInRange(pcm, 2 * i);
        SamplesInRange(pcm, 2 * i + 1);
        var code := EncodePair(pcm[2 * i], pcm[2 * i + 1]);
        output[i] := code;
      }
      assert output[..] == output[..bytes] + output[bytes..];
      result := Done(bytes);
    }

    /** Decode a buffer: two samples per byte. */
    method Decode(payload: seq<int>, output: array<int>) returns (result: CodecResult)
      requires Valid() && Bytes(payload)
      modifies this, low, high, output
      ensures Valid()
      ensures output.Length < 2 * |payload| ==>
                result == OutputTooSmall(2 * |payload|, output.Length)
                && State() == old(State()) && output[..] == old(output[..])
      ensures 2 * |payload| <= output.Length ==>
                result == Done(2 * |payload|) && State() == DecodeRun(old(State()), payload, |payload|)
                && output[..] == Samples(old(State()), payload, |payload|) + old(output[2 * |payload|..])
    {
      hide ChainOk;
      hide AfterDecode;
      hide Output;
      hide AllI16;
      if output.Length < 2 * |payload| {
        return OutputTooSmall(2 * |payload|, output.Length);
      }
      for i := 0 to |payload|
        invariant Valid() && State() == DecodeRun(old(State()), payload, i)
        invariant output[..2 * i] == Samples(old(State()), payload, i) && output[2 * i..] == old(output[2 * i..])
      {
        var first, second := DecodeByte(payload[i]);
        output[2 * i] := first;
        output[2 * i + 1] := second;
      }
      assert output[..] == output[..2 * |payload|] + output[2 * |payload|..];
      result := Done(2 * |payload|);
    }
  }

  /** Two instances in the two directions: their bands agree after every buffer. */
  method RoundTrip(pcm: seq<int>) returns (encoder: Codec, decoder: Codec, payload: seq<int>, decoded: seq<int>)
    requires AllI16(pcm)
    ensures encoder.View() == decoder.View()
    ensures payload == Codes(Chain(RESET, SILENT_LINE), pcm, |pcm| / 2)
    ensures decoded == Samples(Chain(RESET, SILENT_LINE), payload, |payload|) && |decoded| == |pcm| / 2 * 2
  {
    hide Codes;
    hide Samples;
    hide EncodeRun;
    hide DecodeRun;
    hide ChainOk;
    hide NewBand;
    hide AllI16;
    encoder := new Codec();
    decoder := new Codec();
    var bytes := new int[|pcm| / 2];
    var encoded := encoder.Encode(pcm, bytes);
    ghost var start := Chain(RESET, SILENT_LINE);
    payload := bytes[..];
    assert payload == Codes(start, pcm, |pcm| / 2);
    assert encoder.State() == EncodeRun(start, pcm, |pcm| / 2);
    var samples := new int[2 * |payload|];
    var done := decoder.Decode(payload, samples);
    decoded := samples[..];
    assert decoder.State() == DecodeRun(start, payload, |payload|);
    LockStep(start, start, pcm, |pcm| / 2, |pcm| / 2);
  }

  /** Writing the new difference into slot 0 and shifting leaves it in the first two slots. */
  lemma DelayedDifferences(d: seq<int>, difference: int)
    requires |d| == 7 && AllI16(d) && InI16(difference)
    ensures [difference] + d[0 := difference][..6] == [difference, difference] + d[1..6]
    ensures AllI16([difference, difference] + d[1..6])
    ensures d[0 := difference][1..] == d[1..] && d[0 := difference][0] == difference
  {
    assert d[0 := difference][..6] == [difference] + d[1..6];
  }

  lemma SaturatedHistory(band: Band, difference: int)
    requires PredictorOk(band) && InI16(difference)
    ensures InI16(band.r[1]) && band.b == [band.b[0]] + band.b[1..]
  {
  }

  lemma SampleIngredients(bands: Bands)
    requires BandsOk(bands)
    ensures InI16(bands.low.s) && InI16(bands.high.s)
  {
  }
}
