/**
 * The G.726 codec object (`crates/siphon-rtp-codec/src/g726.rs`): its adaptive state updated sample
 * by sample, and the codeword packing loops. Encoder and decoder share no code here, as in the
 * source; both are proved against `G726.Core` and the bit stream of `BitStream`.
 */
module G726Codec {
  import opened Arithmetic
  import opened BitStream
  import opened FixedPoint
  import opened G726
  import opened PowersOfTwo
  import opened Wrappers

  // ---- Whole runs on values ---------------------------------------------------------------------

  ghost predicate AreCodes(rate: Rate, codes: seq<nat>) {
    forall i :: 0 <= i < |codes| ==> IsCode(rate, codes[i])
  }

  /** The adaptive state after a sequence of codewords; the same function on either side. */
  ghost function StateAfter(rate: Rate, s: State, codes: seq<nat>): (t: State)
    requires Ok(s) && AreCodes(rate, codes)
    ensures Ok(t)
  {
    if |codes| == 0 then s
    else
      var before := StateAfter(rate, s, codes[..|codes| - 1]);
      CoreKeepsOk(rate, before, codes[|codes| - 1]);
      Core(rate, before, codes[|codes| - 1]).next
  }

  ghost predicate ArePcm(pcm: seq<int>) {
    forall i :: 0 <= i < |pcm| ==> InI16(pcm[i])
  }

  /** The codewords the encoder emits, each chosen in the state its predecessors left behind. */
  ghost function CodesOf(rate: Rate, s: State, pcm: seq<int>): (codes: seq<nat>)
    requires Ok(s) && ArePcm(pcm)
    ensures |codes| == |pcm| && AreCodes(rate, codes)
  {
    if |pcm| == 0 then []
    else
      var before := CodesOf(rate, s, pcm[..|pcm| - 1]);
      before + [NextCode(rate, StateAfter(rate, s, before), pcm[|pcm| - 1])]
  }

  ghost function NextCode(rate: Rate, s: State, sample: int): (code: nat)
    requires Ok(s) && InI16(sample)
    ensures IsCode(rate, code) && code == CodeFor(rate, s, sample)
  {
    QuantizeIsCode(rate, sample / 4 - Estimate(s), StepSize(s));
    CodeFor(rate, s, sample)
  }

  /** The reconstructed 14-bit samples of a codeword sequence. */
  ghost function Reconstructions(rate: Rate, s: State, codes: seq<nat>): (samples: seq<int>)
    requires Ok(s) && AreCodes(rate, codes)
    ensures |samples| == |codes|
  {
    hide Core;
    hide Ok;
    if |codes| == 0 then []
    else
      var before := codes[..|codes| - 1];
      Reconstructions(rate, s, before) + [Core(rate, StateAfter(rate, s, before), codes[|codes| - 1]).sr]
  }

  lemma {:induction false} ReconstructionAt(rate: Rate, s: State, codes: seq<nat>, k: nat)
    requires Ok(s) && AreCodes(rate, codes) && k < |codes|
    ensures Reconstructions(rate, s, codes)[k] == Core(rate, StateAfter(rate, s, codes[..k]), codes[k]).sr
  {
    hide Core;
    hide Ok;
    hide StateAfter;
    var n := |codes| - 1;
    if k < n {
      ReconstructionAt(rate, s, codes[..n], k);
      SlicePrefix(codes, n, k);
    }
  }

  /** Bits of `n` codewords. */
  function BitsFor(rate: Rate, n: nat): nat {
    n * CodewordBits(rate)
  }

  lemma NextBits(rate: Rate, n: nat)
    ensures BitsFor(rate, n + 1) == BitsFor(rate, n) + CodewordBits(rate) && BitsFor(rate, 0) == 0
  {
  }

  /** Octets for `n` codewords. */
  function PackedSize(rate: Rate, n: nat): nat {
    (BitsFor(rate, n) + 7) / 8
  }

  /** The octets start with the codewords' bits; what follows is padding of less than an octet, all zero. */
  ghost predicate IsPacking(rate: Rate, codes: seq<nat>, bytes: seq<nat>) {
    PacksBits(bytes, Stream(codes, CodewordBits(rate)))
  }

  ghost predicate PacksBits(bytes: seq<nat>, bits: seq<bool>) {
    && AreBytes(bytes)
    && |bits| <= |bytes| * 8 < |bits| + 8
    && Stream(bytes, 8) == bits + ToBits(0, |bytes| * 8 - |bits|)
  }

  lemma RoomLeft(rate: Rate, n: nat, i: nat)
    requires i < n
    ensures BitsFor(rate, i) + CodewordBits(rate) < 8 * PackedSize(rate, n) + 8
  {
    ProductBelow(i, n, CodewordBits(rate));
  }

  lemma EmptyAccumulator()
    ensures Pow2(0) == 1 && ToBits(0, 0) == [] && Stream([], 8) == [] && forall w: nat :: Stream([], w) == []
  {
  }

  lemma NoOctetLeft(bytes: seq<nat>, acc: nat, bits: seq<bool>)
    requires AreBytes(bytes) && Stream(bytes, 8) + ToBits(acc, 0) == bits
    ensures PacksBits(bytes, bits)
  {
    assert ToBits(acc, 0) == [] && ToBits(0, 0) == [];
  }

  /** The final flush: the accumulator's bits, then zeros up to the octet boundary. */
  lemma LastOctet(bytes: seq<nat>, acc: nat, accBits: nat, bits: seq<bool>)
    requires AreBytes(bytes) && 0 < accBits < 8 && acc < Pow2(accBits)
    requires Stream(bytes, 8) + ToBits(acc, accBits) == bits
    ensures acc % 256 == acc && PacksBits(bytes + [acc], bits)
  {
    hide ToBits;
    hide Stream;
    hide Pow2;
    Pow2Eight(8);
    Pow2Order(8, accBits);
    ZeroExtend(acc, accBits);
    StreamAppend(bytes, acc, 8);
    ConcatAssoc(Stream(bytes, 8), ToBits(acc, accBits), ToBits(0, 8 - accBits));
  }

  lemma ConcatAssoc<T>(a: seq<T>, b: seq<T>, c: seq<T>)
    ensures a + (b + c) == a + b + c
  {
  }

  lemma ZeroExtend(acc: nat, accBits: nat)
    requires accBits <= 8 && acc < Pow2(accBits)
    ensures ToBits(acc, 8) == ToBits(acc, accBits) + ToBits(0, 8 - accBits)
  {
    hide ToBits;
    hide Pow2;
    JoinBits(acc, 0, accBits, 8 - accBits);
    assert acc + 0 * Pow2(accBits) == acc;
  }

  lemma StateAppend(rate: Rate, s: State, codes: seq<nat>, code: nat)
    requires Ok(s) && AreCodes(rate, codes) && IsCode(rate, code)
    ensures AreCodes(rate, codes + [code])
    ensures StateAfter(rate, s, codes + [code]) == Core(rate, StateAfter(rate, s, codes), code).next
  {
    hide Core;
    hide Ok;
    assert (codes + [code])[..|codes|] == codes;
  }

  /** Whole codewords in a payload. */
  function SampleCount(rate: Rate, octets: nat): nat {
    octets * 8 / CodewordBits(rate)
  }

  lemma WordFits(rate: Rate, octets: nat, i: nat)
    requires i < SampleCount(rate, octets)
    ensures BitsFor(rate, i) + CodewordBits(rate) <= octets * 8
  {
    ProductBelow(i, SampleCount(rate, octets), CodewordBits(rate));
  }

  /** The first `n` codewords of a payload, read off its bit stream. */
  ghost function Unpacked(rate: Rate, payload: seq<nat>, n: nat): (codes: seq<nat>)
    requires n <= SampleCount(rate, |payload|)
    ensures |codes| == n && AreCodes(rate, codes)
  {
    if n == 0 then []
    else Unpacked(rate, payload, n - 1) + [UnpackedAt(rate, payload, n - 1)]
  }

  ghost function UnpackedAt(rate: Rate, payload: seq<nat>, i: nat): (code: nat)
    requires i < SampleCount(rate, |payload|)
    ensures IsCode(rate, code)
  {
    WordFits(rate, |payload|, i);
    var width := CodewordBits(rate);
    FromBitsBound(Stream(payload, 8)[i * width..i * width + width]);
    CodeWidth(rate, WordAt(Stream(payload, 8), width, i));
    WordAt(Stream(payload, 8), width, i)
  }

  /** The 16-bit sample the decoder produces for codeword `k` of a payload. */
  ghost function DecodedSample(rate: Rate, s: State, payload: seq<nat>, k: nat): int
    requires Ok(s) && k < SampleCount(rate, |payload|)
  {
    Wrap16(Core(rate, StateAfter(rate, s, Unpacked(rate, payload, k)), UnpackedAt(rate, payload, k)).sr * 4)
  }

  /** Unpacking what was packed gives the codewords back, as a prefix. */
  lemma {:induction false} UnpackedIsPrefix(rate: Rate, codes: seq<nat>, bytes: seq<nat>, n: nat)
    requires AreCodes(rate, codes) && IsPacking(rate, codes, bytes) && n <= |codes|
    ensures |codes| <= SampleCount(rate, |bytes|)
    ensures Unpacked(rate, bytes, n) == codes[..n]
    ensures n < |codes| ==> UnpackedAt(rate, bytes, n) == codes[n]
  {
    hide Stream;
    hide ToBits;
    hide FromBits;
    hide WordAt;
    var width := CodewordBits(rate);
    EnoughOctets(rate, |codes|, |bytes|);
    if n < |codes| {
      CodeWidth(rate, codes[n]);
      WordsComeBack(codes, width, ToBits(0, |bytes| * 8 - |codes| * width), n);
    }
    if n != 0 {
      UnpackedIsPrefix(rate, codes, bytes, n - 1);
    }
  }

  lemma EnoughOctets(rate: Rate, n: nat, octets: nat)
    requires BitsFor(rate, n) <= octets * 8
    ensures n <= SampleCount(rate, octets)
  {
    var w, q := CodewordBits(rate), SampleCount(rate, octets);
    assert octets * 8 < q * w + w;
  }

  /**
   * Lock-step: a decoder in the encoder's starting state that reads the packed octets passes through
   * the encoder's own state before every codeword and outputs the sample of that codeword. `Encode`
   * ties the same samples to what the encoder rebuilds for itself.
   */
  lemma LockStep(rate: Rate, s: State, pcm: seq<int>, bytes: seq<nat>, k: nat)
    requires Ok(s) && ArePcm(pcm) && IsPacking(rate, CodesOf(rate, s, pcm), bytes) && k < |pcm|
    ensures |pcm| <= SampleCount(rate, |bytes|)
    ensures Unpacked(rate, bytes, k) == CodesOf(rate, s, pcm[..k])
    ensures DecodedSample(rate, s, bytes, k) == Wrap16(Reconstructions(rate, s, CodesOf(rate, s, pcm))[k] * 4)
  {
    hide Core;
    hide Ok;
    hide IsPacking;
    var codes := CodesOf(rate, s, pcm);
    ReconstructionAt(rate, s, codes, k);
    UnpackedIsPrefix(rate, codes, bytes, k);
    CodesOfPrefix(rate, s, pcm, k);
  }

  lemma {:induction false} CodesOfPrefix(rate: Rate, s: State, pcm: seq<int>, k: nat)
    requires Ok(s) && ArePcm(pcm) && k <= |pcm|
    ensures CodesOf(rate, s, pcm[..k]) == CodesOf(rate, s, pcm)[..k]
    decreases |pcm|
  {
    hide Ok;
    hide IsCode;
    hide StateAfter;
    hide NextCode;
    hide AreCodes;
    hide CodesOf;
    if k == |pcm| {
      assert pcm[..k] == pcm;
    } else {
      var n := |pcm| - 1;
      CodesOfPrefix(rate, s, pcm[..n], k);
      SlicePrefix(pcm, n, k);
      SlicePrefix(CodesOf(rate, s, pcm), n, k);
      CodesOfFront(rate, s, pcm);
    }
  }

  lemma NoCodes(rate: Rate, s: State)
    requires Ok(s)
    ensures AreCodes(rate, []) && CodesOf(rate, s, []) == [] && Reconstructions(rate, s, []) == []
    ensures StateAfter(rate, s, []) == s
  {
  }

  lemma CodesOfStep(rate: Rate, s: State, pcm: seq<int>, i: nat)
    requires Ok(s) && ArePcm(pcm) && i < |pcm|
    ensures var codes := CodesOf(rate, s, pcm[..i]);
            CodesOf(rate, s, pcm[..i + 1]) == codes + [CodeFor(rate, StateAfter(rate, s, codes), pcm[i])]
  {
    hide Ok;
    hide StateAfter;
    hide CodeFor;
    hide AreCodes;
    assert pcm[..i + 1][..i] == pcm[..i];
  }

  lemma ReconstructionsAppend(rate: Rate, s: State, codes: seq<nat>, code: nat)
    requires Ok(s) && AreCodes(rate, codes) && IsCode(rate, code)
    ensures AreCodes(rate, codes + [code])
    ensures Reconstructions(rate, s, codes + [code])
         == Reconstructions(rate, s, codes) + [Core(rate, StateAfter(rate, s, codes), code).sr]
  {
    hide Core;
    hide Ok;
    hide StateAfter;
    assert (codes + [code])[..|codes|] == codes;
  }

  lemma CodesOfFront(rate: Rate, s: State, pcm: seq<int>)
    requires Ok(s) && ArePcm(pcm) && |pcm| > 0
    ensures CodesOf(rate, s, pcm)[..|pcm| - 1] == CodesOf(rate, s, pcm[..|pcm| - 1])
  {
    hide Ok;
    hide StateAfter;
    hide NextCode;
    hide AreCodes;
  }

  lemma SlicePrefix<T>(a: seq<T>, n: nat, k: nat)
    requires k <= n <= |a|
    ensures a[..n][..k] == a[..k]
  {
  }

  // ---- The object -----------------------------------------------------------------------------------

  class Codec {
    const rate: Rate
    var yl: int
    var yu: int
    var dms: int
    var dml: int
    var ap: int
    var a: seq<int>
    var b: seq<int>
    var pk: seq<int>
    var dq: seq<int>
    var sr: seq<int>
    var td: bool

    ghost predicate Shaped()
      reads this
    {
      |a| == |pk| == |sr| == 2 && |b| == |dq| == 6
    }

    ghost function View(): State
      reads this
      requires Shaped()
    {
      State(yl, yu, dms, dml, ap, a[0], a[1], b, pk[0], pk[1], dq, sr[0], sr[1], td)
    }

    ghost predicate Valid()
      reads this
    {
      Shaped() && Ok(View())
    }

    constructor (r: Rate)
      ensures rate == r && Valid() && View() == RESET
    {
      rate := r;
      yl, yu, dms, dml, ap := 34816, 544, 0, 0, 0;
      a, b, pk := [0, 0], [0, 0, 0, 0, 0, 0], [0, 0];
      dq, sr, td := [32, 32, 32, 32, 32, 32], [32, 32], false;
    }

    method ZeroPrediction() returns (sez: int)
      requires Shaped()
      ensures sez == PredictorZero(View())
    {
      hide Fmult;
      var sezi := 0;
      for i := 0 to 6
        invariant sezi == ZeroSum(View(), i)
      {
        sezi := sezi + Fmult(b[i] / 4, dq[i]);
      }
      sez := Wrap16(sezi);
    }

    /** Adapt every state variable for one sample. */
    method Adapt(y: int, wi: int, fi: int, diff: int, recon: int, dqsez: int)
      requires Valid() && 0 <= fi <= 0xE00
      modifies this
      ensures Shaped() && NextA2(old(View()), if dqsez < 0 then 1 else 0, dqsez) <= 15360
      ensures View() == Update(rate, old(View()), y, wi, fi, diff, recon, dqsez)
    {
      hide Ok;
      hide Transition;
      hide FloatA;
      hide FloatB;
      hide NextB;
      hide NextA2;
      hide NextA1;
      hide NextAp;
      hide NextYu;
      hide Wrap16;
      hide NextZeros;
      ghost var s := View();
      var pk0 := if dqsez < 0 then 1 else 0;
      A2Bounds(s, pk0, dqsez);
      var tr := DetectTransition(diff % 0x8000);
      AdaptScale(y, wi);
      PolesLocal(s, View(), pk0, dqsez);
      ZerosLocal(rate, s, View(), tr, diff);
      var a2p := AdaptPredictor(tr, pk0, diff, dqsez);
      dq := [FloatA(diff)] + dq[..5];
      sr := [FloatB(recon), sr[0]];
      pk := [pk0, pk[0]];
      td := !tr && a2p < -11776;
      AdaptSpeed(tr, y, fi, s);
    }

    /** A transition resets the predictor; otherwise poles and zeros move. */
    method AdaptPredictor(tr: bool, pk0: int, diff: int, dqsez: int) returns (a2p: int)
      requires Shaped() && NextA2(View(), pk0, dqsez) <= 15360
      modifies `a, `b
      ensures Shaped() && a2p == if tr then 0 else NextA2(old(View()), pk0, dqsez)
      ensures a[0] == if tr then 0 else Wrap16(NextA1(old(View()), pk0, dqsez, a2p))
      ensures a[1] == Wrap16(a2p)
      ensures b == NextZeros(rate, old(View()), tr, diff)
    {
      hide NextB;
      hide NextA2;
      hide NextA1;
      a2p := 0;
      if tr {
        a := [0, 0];
        b := [0, 0, 0, 0, 0, 0];
      } else {
        a2p := SecondPole(pk0, dqsez);
        AdaptPoles(pk0, dqsez, a2p);
        AdaptZeros(diff);
      }
    }

    method DetectTransition(mag: int) returns (tr: bool)
      requires Shaped()
      ensures tr == Transition(View(), mag)
    {
      hide Pow2;
      var ylint, ylfrac := yl / 0x8000, yl / 0x400 % 32;
      var thr := if ylint > 9 then 31 * 0x400 else (32 + ylfrac) * Pow2(if ylint > 0 then ylint else 0);
      var dqthr := (thr + thr / 2) / 2;
      tr := td && mag > dqthr;
    }

    /** The unlocked and the locked step multiplier. */
    method AdaptScale(y: int, wi: int)
      modifies `yu, `yl
      ensures yu == Wrap16(NextYu(y, wi)) && yl == old(yl) + NextYu(y, wi) + (-old(yl)) / 64
    {
      var fast := Clamp(y + (wi - y) / 32, 544, 5120);
      yu := Wrap16(fast);
      yl := yl + fast + (-yl) / 64;
    }

    /** The averages and the speed control; `ap` looks at the new averages and the new tone flag. */
    method AdaptSpeed(tr: bool, y: int, fi: int, ghost s: State)
      requires s.ap == ap
      modifies `dms, `dml, `ap
      ensures dms == Wrap16(old(dms) + (fi - old(dms)) / 32)
      ensures dml == Wrap16(old(dml) + (fi * 4 - old(dml)) / 128)
      ensures ap == NextAp(s, tr, y, td, dms, dml)
    {
      dms := Wrap16(dms + (fi - dms) / 32);
      dml := Wrap16(dml + (fi * 4 - dml) / 128);
      ap := if tr then 256
            else if y < 1536 || td || Abs(dms * 4 - dml) >= dml / 8 then Wrap16(ap + (0x200 - ap) / 16)
            else Wrap16(ap + (-ap) / 16);
    }

    method SecondPole(pk0: int, dqsez: int) returns (a2p: int)
      requires Shaped()
      ensures a2p == NextA2(View(), pk0, dqsez)
    {
      a2p := a[1] - a[1] / 128;
      if dqsez != 0 {
        var fa1 := if pk0 != pk[0] then a[0] else -a[0];
        if fa1 < -8191 { a2p := a2p - 0x100; } else if fa1 > 8191 { a2p := a2p + 0xFF; } else { a2p := a2p + fa1 / 32; }
        if pk0 != pk[1] {
          if a2p <= -12160 { a2p := -12288; } else if a2p >= 12416 { a2p := 12288; } else { a2p := a2p - 0x80; }
        } else {
          if a2p <= -12416 { a2p := -12288; } else if a2p >= 12160 { a2p := 12288; } else { a2p := a2p + 0x80; }
        }
      }
    }

    method AdaptPoles(pk0: int, dqsez: int, a2p: int)
      requires Shaped() && a2p <= 15360
      modifies `a
      ensures a == [Wrap16(NextA1(old(View()), pk0, dqsez, a2p)), Wrap16(a2p)]
    {
      hide Wrap16;
      var a1 := a[0] - a[0] / 256;
      if dqsez != 0 {
        if pk0 == pk[0] { a1 := a1 + 192; } else { a1 := a1 - 192; }
      }
      var a1ul := 15360 - a2p;
      a := [Wrap16(Clamp(a1, -a1ul, a1ul)), Wrap16(a2p)];
    }

    method AdaptZeros(diff: int)
      requires Shaped()
      modifies `b
      ensures |b| == 6 && forall i :: 0 <= i < 6 ==> b[i] == NextB(rate, old(b)[i], dq[i], diff)
    {
      ghost var before := b;
      for i := 0 to 6
        invariant |b| == 6
        invariant forall k :: 0 <= k < 6 ==> b[k] == if k < i then NextB(rate, before[k], dq[k], diff) else before[k]
      {
        var bi := b[i] - b[i] / (if rate == R40 then 512 else 256);
        if diff % 0x8000 != 0 {
          if (diff < 0) == (dq[i] < 0) { bi := bi + 128; } else { bi := bi - 128; }
        }
        b := b[i := Wrap16(bi)];
      }
    }

    /** Encode one sample: choose the codeword, then adapt on `rebuilt`, the encoder's own reconstruction. */
    method EncodeSample(sample: int) returns (code: nat, ghost rebuilt: int)
      requires Valid() && InI16(sample)
      modifies this
      ensures Valid() && IsCode(rate, code)
      ensures code == CodeFor(rate, old(View()), sample)
      ensures rebuilt == Core(rate, old(View()), code).sr
      ensures View() == Core(rate, old(View()), code).next
    {
      hide Update;
      hide Fmult;
      hide Reconstruct;
      hide LogOf;
      hide NextA2;
      hide Ok;
      hide Wrap16;
      hide SignalEstimate15;
      hide MagnitudeLimit;
      hide ZeroSum;
      hide SignBit;
      hide StepSize;
      hide Passed;
      hide Qtab;
      hide Dqlntab;
      hide Witab;
      hide Fitab;
      ghost var s := View();
      var amp := sample / 4;
      var sezi := ZeroPrediction();
      var pole := Wrap16(Fmult(a[1] / 4, sr[1]) + Fmult(a[0] / 4, sr[0]));
      var se := SignalEstimate15((sezi + pole) / 2);
      var d := amp - se;
      var y := StepSizeOf();
      QuantizeIsCode(rate, d, y);
      code := QuantizeDifference(d, y);
      LevelBounds(rate, code);
      var diff := Reconstruct(code >= SignBit(rate), Dqlntab(rate)[code], y);
      var recon := Wrap16(if diff < 0 then se - diff % MagnitudeLimit(rate) else se + diff);
      rebuilt := recon;
      var dqsez := Wrap16(recon + sezi / 2 - se);
      CoreKeepsOk(rate, s, code);
      SpeedBounds(rate, code);
      Adapt(y, Witab(rate)[code], Fitab(rate)[code], diff, recon, dqsez);
    }

    method StepSizeOf() returns (y: int)
      requires Shaped()
      ensures y == StepSize(View())
    {
      if ap >= 256 { return yu; }
      y := yl / 64;
      var dif := yu - y;
      var al := ap / 4;
      if dif > 0 { y := y + dif * al / 64; } else if dif < 0 { y := y + (dif * al + 0x3F) / 64; }
    }

    /** The threshold search of the quantizer. */
    method QuantizeDifference(d: int, y: int) returns (code: nat)
      requires Abs(d) <= 0x7FFF
      ensures code == Quantize(rate, d, y)
    {
      hide LogOf;
      hide Passed;
      hide Qtab;
      ThresholdCount(rate);
      var table := Qtab(rate);
      var dln := LogOf(Abs(d)) - y / 4;
      var size := (QuantizerStates(rate) - 1) / 2;
      var i := 0;
      while i < size
        invariant 0 <= i <= size
        invariant forall k :: 0 <= k < i ==> table[k] <= dln
      {
        if dln < table[i] { break; }
        i := i + 1;
      }
      PassedIsUnique(table, dln, i);
      if d < 0 { return size * 2 + 1 - i; }
      if i == 0 && QuantizerStates(rate) % 2 != 0 { return QuantizerStates(rate); }
      return i;
    }

    /** Encode a buffer; the octets carry the codewords least significant bit first, zero-padded. */
    method Encode(pcm: seq<int>, out: array<nat>) returns (r: CodecResult, ghost rebuilt: seq<int>)
      requires Valid() && ArePcm(pcm)
      modifies this, out
      ensures Valid()
      ensures r == if out.Length < PackedSize(rate, |pcm|) then OutputTooSmall(PackedSize(rate, |pcm|), out.Length)
                   else Done(PackedSize(rate, |pcm|))
      ensures r.OutputTooSmall? ==> View() == old(View()) && out[..] == old(out[..])
      ensures r.Done? ==> View() == StateAfter(rate, old(View()), CodesOf(rate, old(View()), pcm))
      ensures r.Done? ==> IsPacking(rate, CodesOf(rate, old(View()), pcm), out[..r.count])
      ensures r.Done? ==> forall k :: r.count <= k < out.Length ==> out[k] == old(out[k])
      ensures r.Done? ==> rebuilt == Reconstructions(rate, old(View()), CodesOf(rate, old(View()), pcm))
    {
      hide Ok;
      hide Core;
      hide CodeFor;
      rebuilt := [];
      hide ToBits;
      hide Stream;
      hide Pow2;
      hide IsCode;
      hide CodewordBits;
      hide BitsFor;
      hide PacksBits;
      hide StateAfter;
      hide CodesOf;
      hide Reconstructions;
      hide AreCodes;
      NoCodes(rate, View());
      var bits := CodewordBits(rate);
      var bytes := PackedSize(rate, |pcm|);
      if out.Length < bytes { return OutputTooSmall(bytes, out.Length), rebuilt; }
      ghost var s := View();
      ghost var codes: seq<nat> := [];
      EmptyAccumulator();
      NextBits(rate, 0);
      var acc: nat, accBits: nat, index: nat := 0, 0, 0;
      for i := 0 to |pcm|
        invariant Valid() && codes == CodesOf(rate, s, pcm[..i]) && View() == StateAfter(rate, s, codes)
        invariant accBits < 8 && acc < Pow2(accBits) && index <= out.Length && AreBytes(out[..index])
        invariant 8 * index + accBits == BitsFor(rate, i)
        invariant Stream(out[..index], 8) + ToBits(acc, accBits) == Stream(codes, bits)
        invariant rebuilt == Reconstructions(rate, s, codes)
        invariant forall k :: index <= k < out.Length ==> out[k] == old(out[k])
      {
        ghost var own;
        var code;
        code, own := EncodeSample(pcm[i]);
        CodeWidth(rate, code);
        RoomLeft(rate, |pcm|, i);
        NextBits(rate, i);
        acc, accBits, index := PushWord(acc, accBits, code, bits, out, index);
        StreamAppend(codes, code, bits);
        CodesOfStep(rate, s, pcm, i);
        StateAppend(rate, s, codes, code);
        ReconstructionsAppend(rate, s, codes, code);
        rebuilt := rebuilt + [own];
        codes := codes + [code];
      }
      assert pcm[..|pcm|] == pcm;
      if accBits > 0 {
        ghost var done := out[..index];
        out[index] := acc % 256;
        assert out[..index + 1] == done + [acc % 256];
        LastOctet(done, acc, accBits, Stream(codes, bits));
        index := index + 1;
      } else {
        NoOctetLeft(out[..index], acc, Stream(codes, bits));
      }
      return Done(index), rebuilt;
    }

    /** Decode one codeword to the 14-bit sample, the estimate and the step size. */
    method DecodeCore(code: nat) returns (recon: int, se: int, y: int)
      requires Valid() && IsCode(rate, code)
      modifies this
      ensures Valid()
      ensures Decoded(recon, se, y, View()) == Core(rate, old(View()), code)
    {
      hide Update;
      hide Fmult;
      hide Reconstruct;
      hide NextA2;
      hide Ok;
      hide Wrap16;
      hide SignalEstimate15;
      hide MagnitudeLimit;
      hide ZeroSum;
      hide SignBit;
      hide StepSize;
      hide Dqlntab;
      hide Witab;
      hide Fitab;
      ghost var s := View();
      var sezi := ZeroPrediction();
      var sei := sezi + Wrap16(Fmult(a[1] / 4, sr[1]) + Fmult(a[0] / 4, sr[0]));
      y := StepSizeOf();
      LevelBounds(rate, code);
      SpeedBounds(rate, code);
      var diff := Reconstruct(code >= SignBit(rate), Dqlntab(rate)[code], y);
      se := SignalEstimate15(sei / 2);
      recon := Wrap16(if diff < 0 then se - diff % MagnitudeLimit(rate) else se + diff);
      var dqsez := Wrap16(recon + sezi / 2 - se);
      CoreKeepsOk(rate, s, code);
      Adapt(y, Witab(rate)[code], Fitab(rate)[code], diff, recon, dqsez);
    }

    /** Decode a payload; every whole codeword in it gives one sample. */
    method Decode(payload: seq<nat>, out: array<int>) returns (r: CodecResult)
      requires Valid() && AreBytes(payload)
      modifies this, out
      ensures Valid()
      ensures r == if out.Length < SampleCount(rate, |payload|)
                   then OutputTooSmall(SampleCount(rate, |payload|), out.Length)
                   else Done(SampleCount(rate, |payload|))
      ensures r.OutputTooSmall? ==> View() == old(View()) && out[..] == old(out[..])
      ensures r.Done? ==> View() == StateAfter(rate, old(View()), Unpacked(rate, payload, r.count))
      ensures r.Done? ==> forall k: nat :: k < r.count ==> out[k] == DecodedSample(rate, old(View()), payload, k)
      ensures r.Done? ==> forall k :: r.count <= k < out.Length ==> out[k] == old(out[k])
    {
      hide Ok;
      hide Core;
      hide IsCode;
      hide ToBits;
      hide FromBits;
      hide Stream;
      hide Pow2;
      hide Holds;
      hide UnpackedAt;
      hide DecodedSample;
      hide CodewordBits;
      hide BitsFor;
      hide SampleCount;
      hide StateAfter;
      hide AreCodes;
      NoCodes(rate, View());
      var bits := CodewordBits(rate);
      var samples := SampleCount(rate, |payload|);
      if out.Length < samples { return OutputTooSmall(samples, out.Length); }
      ghost var s := View();
      NothingHeld(payload);
      NextBits(rate, 0);
      var acc: nat, accBits: nat, index: nat := 0, 0, 0;
      for i := 0 to samples
        invariant Valid() && View() == StateAfter(rate, s, Unpacked(rate, payload, i))
        invariant Holds(payload, acc, accBits, index) && accBits < 8
        invariant 8 * index - accBits == BitsFor(rate, i)
        invariant forall k: nat :: k < i ==> out[k] == DecodedSample(rate, s, payload, k)
        invariant forall k :: i <= k < out.Length ==> out[k] == old(out[k])
      {
        WordFits(rate, |payload|, i);
        NextBits(rate, i);
        var code: nat;
        code, acc, accBits, index := PullWord(payload, acc, accBits, index, bits);
        PulledIsUnpacked(rate, payload, i, code);
        var recon, _, _ := DecodeCore(code);
        out[i] := Wrap16(recon * 4);
        SampleMeaning(rate, s, payload, i);
        StateAppend(rate, s, Unpacked(rate, payload, i), code);
      }
      return Done(samples);
    }
  }

  lemma NothingHeld(payload: seq<nat>)
    ensures Holds(payload, 0, 0, 0)
  {
  }

  lemma PulledIsUnpacked(rate: Rate, payload: seq<nat>, i: nat, code: nat)
    requires i < SampleCount(rate, |payload|) && code < Pow2(CodewordBits(rate))
    requires BitsFor(rate, i) + CodewordBits(rate) <= |payload| * 8
    requires ToBits(code, CodewordBits(rate))
          == Stream(payload, 8)[BitsFor(rate, i)..BitsFor(rate, i) + CodewordBits(rate)]
    ensures code == UnpackedAt(rate, payload, i) && IsCode(rate, code)
  {
    hide ToBits;
    hide FromBits;
    hide Stream;
    hide Pow2;
    hide CodewordBits;
    FromToBits(code, CodewordBits(rate));
  }

  lemma SampleMeaning(rate: Rate, s: State, payload: seq<nat>, k: nat)
    requires Ok(s) && k < SampleCount(rate, |payload|)
    ensures DecodedSample(rate, s, payload, k)
         == Wrap16(Core(rate, StateAfter(rate, s, Unpacked(rate, payload, k)), UnpackedAt(rate, payload, k)).sr * 4)
  {
    hide Core;
    hide Ok;
  }

  lemma PackingIsBytes(rate: Rate, codes: seq<nat>, bytes: seq<nat>)
    requires IsPacking(rate, codes, bytes)
    ensures AreBytes(bytes)
  {
  }

  lemma CodeWidth(rate: Rate, code: nat)
    ensures IsCode(rate, code) <==> code < Pow2(CodewordBits(rate))
  {
    assert Pow2(2) == 4 && Pow2(3) == 8 && Pow2(4) == 16 && Pow2(5) == 32;
  }

  lemma {:induction false} PassedIsUnique(table: seq<int>, dln: int, i: nat)
    requires i <= |table| && forall k :: 0 <= k < i ==> table[k] <= dln
    requires i < |table| ==> dln < table[i]
    ensures Passed(table, dln) == i
  {
    if i != 0 { PassedIsUnique(table[1..], dln, i - 1); }
  }

  lemma ThresholdCount(rate: Rate)
    ensures |Qtab(rate)| == (QuantizerStates(rate) - 1) / 2
  {
  }

  /** The pole updates read the poles and the sign history only. */
  lemma PolesLocal(s: State, t: State, pk0: int, dqsez: int)
    requires s.a1 == t.a1 && s.a2 == t.a2 && s.pk1 == t.pk1 && s.pk2 == t.pk2
    ensures NextA2(s, pk0, dqsez) == NextA2(t, pk0, dqsez)
    ensures NextA2(s, pk0, dqsez) <= 15360 ==>
      NextA1(s, pk0, dqsez, NextA2(s, pk0, dqsez)) == NextA1(t, pk0, dqsez, NextA2(s, pk0, dqsez))
  {
  }

  lemma ZerosLocal(rate: Rate, s: State, t: State, tr: bool, diff: int)
    requires s.b == t.b && s.dq == t.dq && |s.b| == |s.dq| == 6
    ensures NextZeros(rate, s, tr, diff) == NextZeros(rate, t, tr, diff)
  {
  }
}
