/**
 * GSM 06.10 frames as a fold (`encode_frame` and `decode_frame` of
 * `crates/siphon-rtp-codec/src/gsm_fr.rs`), on values. Both ends keep a window of the last 120
 * reconstructed residual words and the last two sets of log-area ratios; the theorems say that these
 * agree after every frame of every stream, that every encoded frame fits the wire, and so that a
 * decoder fed the packed bytes stays in step for ever.
 */
module GsmStream {
  import opened GsmAnalysis
  import opened GsmApcm
  import opened GsmFrame
  import opened GsmLar
  import opened GsmLattice
  import opened GsmLongTerm
  import opened GsmMath
  import GsmOffset

  // ---- The residual window ------------------------------------------------------------------------------

  /** What the long-term predictor expects of the next forty words. */
  function Prediction(window: seq<Word>, lag: int, bc: int): (dpp: seq<Word>)
    requires |window| == 120 && 40 <= lag <= 120 && 0 <= bc <= 3
    ensures |dpp| == 40
  {
    seq(40, k requires 0 <= k < 40 => PredictedWord(window, lag, bc, k))
  }

  function PredictedWord(window: seq<Word>, lag: int, bc: int, k: nat): Word
    requires |window| == 120 && 40 <= lag <= 120 && 0 <= bc <= 3 && k < 40
  {
    MultR(GSM_QLB[bc], window[120 + k - lag])
  }

  function Excitation(p: Pulses): (ep: seq<Word>)
    requires PulsesFit(p)
    ensures |ep| == 40
  {
    Positioned(p.mc, DecodedPulses(p.x, p.xmaxc))
  }

  function Summed(ep: seq<Word>, dpp: seq<Word>): (dp: seq<Word>)
    requires |ep| == |dpp| == 40
    ensures |dp| == 40
  {
    seq(40, k requires 0 <= k < 40 => Add(ep[k], dpp[k]))
  }

  function Reconstructed(window: seq<Word>, lag: int, p: Pulses): (dp: seq<Word>)
    requires |window| == 120 && 40 <= lag <= 120 && PulsesFit(p)
    ensures |dp| == 40
  {
    Summed(Excitation(p), Prediction(window, lag, p.bc))
  }

  /** The window moves on by one sub-frame. */
  function NextWindow(window: seq<Word>, lag: int, p: Pulses): (next: seq<Word>)
    requires |window| == 120 && 40 <= lag <= 120 && PulsesFit(p)
    ensures |next| == 120
  {
    window[40..] + Reconstructed(window, lag, p)
  }

  // ---- One sub-frame of the encoder ----------------------------------------------------------------------

  function LtpResidual(d: seq<Word>, dpp: seq<Word>): (e: seq<Word>)
    requires |d| == |dpp| == 40
    ensures |e| == 40
  {
    seq(40, k requires 0 <= k < 40 => Sub(d[k], dpp[k]))
  }

  const MARGIN: seq<Word> := [0, 0, 0, 0, 0]

  function PulsesOf(nc: nat, bc: nat, e: seq<Word>): (p: Pulses)
    requires 40 <= nc <= 120 && bc <= 3 && |e| == 40
    ensures PulsesFit(p) && p.nc == nc && p.bc == bc
  {
    hide WeightedBlock;
    hide PulseCodes;
    hide BlockOf;
    var x := WeightedBlock(MARGIN + e + MARGIN);
    var mc := BestGrid(x, 4);
    var xm := Selected(x, mc);
    CodesFit(xm);
    Pulses(nc, bc, mc, BlockOf(xm), PulseCodes(xm))
  }

  /** Every sub-frame's parameters fit their fields, and its lag is one the decoder accepts. */
  function SubFrameFor(d: seq<Word>, window: seq<Word>): (p: Pulses)
    requires |d| == 40 && |window| == 120
    ensures PulsesFit(p) && 40 <= p.nc <= 120
  {
    hide LtpParams;
    hide PulsesOf;
    var l := LtpParams(d, window);
    PulsesOf(l.nc, l.bc, LtpResidual(d, Prediction(window, l.nc, l.bc)))
  }

  predicate AllFit(p: seq<Pulses>) {
    forall s :: 0 <= s < |p| ==> PulsesFit(p[s])
  }

  predicate LagsInRange(p: seq<Pulses>) {
    forall s :: 0 <= s < |p| ==> 40 <= p[s].nc <= 120
  }

  /** The encoder's window after the first `n` sub-frames. */
  function EncoderWindow(window: seq<Word>, p: seq<Pulses>, n: nat): (next: seq<Word>)
    requires |window| == 120 && AllFit(p) && LagsInRange(p) && n <= |p|
    ensures |next| == 120
  {
    hide NextWindow;
    if n == 0 then window else NextWindow(EncoderWindow(window, p, n - 1), p[n - 1].nc, p[n - 1])
  }

  /** The first `n` sub-frames of a residual, each searched in the window the ones before it left. */
  function SubFrames(d: seq<Word>, window: seq<Word>, n: nat): (p: seq<Pulses>)
    requires |d| == 160 && |window| == 120 && n <= 4
    ensures |p| == n && AllFit(p) && LagsInRange(p)
  {
    hide SubFrameFor;
    hide PulsesFit;
    if n == 0 then []
    else
      var p := SubFrames(d, window, n - 1);
      p + [SubFrameFor(d[40 * n - 40..40 * n], EncoderWindow(window, p, n - 1))]
  }

  // ---- The decoder's window --------------------------------------------------------------------------------

  datatype Memory = Memory(window: seq<Word>, nrp: int)

  predicate MemoryOk(m: Memory) {
    |m.window| == 120 && 40 <= m.nrp <= 120
  }

  /** A lag outside 40 to 120 is replaced by the last good one. */
  function Lag(nrp: int, nc: int): (nr: int)
    requires 40 <= nrp <= 120
    ensures 40 <= nr <= 120
  {
    if 40 <= nc <= 120 then nc else nrp
  }

  function DecoderMemory(m: Memory, p: seq<Pulses>, n: nat): (next: Memory)
    requires MemoryOk(m) && AllFit(p) && n <= |p|
    ensures MemoryOk(next)
  {
    hide NextWindow;
    if n == 0 then m
    else
      var before := DecoderMemory(m, p, n - 1);
      var nr := Lag(before.nrp, p[n - 1].nc);
      Memory(NextWindow(before.window, nr, p[n - 1]), nr)
  }

  /** The residual words the decoder hands to its synthesis filter. */
  function Residual160(m: Memory, p: seq<Pulses>, n: nat): (wt: seq<Word>)
    requires MemoryOk(m) && AllFit(p) && n <= |p|
    ensures |wt| == 40 * n
  {
    if n == 0 then [] else Residual160(m, p, n - 1) + DecoderMemory(m, p, n).window[80..]
  }

  /** On lags the decoder accepts, both windows are the same. */
  lemma {:induction false} SameWindow(m: Memory, p: seq<Pulses>, n: nat)
    requires MemoryOk(m) && AllFit(p) && LagsInRange(p) && n <= |p|
    ensures DecoderMemory(m, p, n).window == EncoderWindow(m.window, p, n)
  {
    hide NextWindow;
    hide PulsesFit;
    if n > 0 { SameWindow(m, p, n - 1); }
  }

  // ---- Log-area ratios --------------------------------------------------------------------------------------

  /** The last two decoded sets, and which slot the next one goes to. */
  datatype Ratios = Ratios(larpp: seq<seq<Word>>, j: nat)

  predicate RatiosOk(r: Ratios) {
    |r.larpp| == 2 && |r.larpp[0]| == |r.larpp[1]| == 8 && r.j < 2
  }

  function NextRatios(r: Ratios, larc: seq<Word>): (next: Ratios)
    requires RatiosOk(r) && |larc| == 8
    ensures RatiosOk(next)
  {
    Ratios(r.larpp[r.j := DecodedLars(larc)], 1 - r.j)
  }

  function FrameCoefficients(r: Ratios, larc: seq<Word>): (rps: seq<seq<Word>>)
    requires RatiosOk(r) && |larc| == 8
    ensures Regions(rps)
  {
    var prev, cur := r.larpp[1 - r.j], DecodedLars(larc);
    [RegionCoefficients(prev, cur, 0), RegionCoefficients(prev, cur, 1),
     RegionCoefficients(prev, cur, 2), RegionCoefficients(prev, cur, 3)]
  }

  // ---- The encoder ------------------------------------------------------------------------------------------

  datatype Encoder = Encoder(offset: GsmOffset.Memory, u: seq<Word>, ratios: Ratios, window: seq<Word>)

  predicate EncoderOk(e: Encoder) {
    GsmOffset.Bounded(e.offset) && |e.u| == 8 && RatiosOk(e.ratios) && |e.window| == 120
  }

  /** The ratio codes and the short-term residual of a frame. */
  function Codes(e: Encoder, pcm: seq<Word>): (larc: seq<Word>)
    requires EncoderOk(e) && |pcm| == FRAME_SAMPLES
    ensures |larc| == 8 && LarsFit(larc)
  {
    LarCodes(GsmOffset.Emphasised(e.offset, pcm, |pcm|))
  }

  function Analysed(e: Encoder, pcm: seq<Word>): (so: seq<Word>)
    requires EncoderOk(e) && |pcm| == FRAME_SAMPLES
    ensures |so| == FRAME_SAMPLES
  {
    AfterAnalysis(GsmOffset.Emphasised(e.offset, pcm, |pcm|))
  }

  function ShortTermResidual(e: Encoder, pcm: seq<Word>): (d: seq<Word>)
    requires EncoderOk(e) && |pcm| == FRAME_SAMPLES
    ensures |d| == FRAME_SAMPLES
  {
    Residuals(e.u, FrameCoefficients(e.ratios, Codes(e, pcm)), Analysed(e, pcm), FRAME_SAMPLES)
  }

  function FramePulses(e: Encoder, pcm: seq<Word>): (p: seq<Pulses>)
    requires EncoderOk(e) && |pcm| == FRAME_SAMPLES
    ensures |p| == 4 && AllFit(p) && LagsInRange(p)
  {
    SubFrames(ShortTermResidual(e, pcm), e.window, 4)
  }

  function EncodedFrame(e: Encoder, pcm: seq<Word>): (f: Frame)
    requires EncoderOk(e) && |pcm| == FRAME_SAMPLES
    ensures Shaped(f)
  {
    hide FramePulses;
    hide Codes;
    FitsShaped(FramePulses(e, pcm));
    Assemble(Codes(e, pcm), FramePulses(e, pcm))
  }

  lemma FitsShaped(p: seq<Pulses>)
    requires AllFit(p)
    ensures forall s :: 0 <= s < |p| ==> |p[s].x| == 13
  {
  }

  function AfterEncode(e: Encoder, pcm: seq<Word>): (next: Encoder)
    requires EncoderOk(e) && |pcm| == FRAME_SAMPLES
    ensures EncoderOk(next)
  {
    hide FramePulses;
    hide EncoderWindow;
    hide Codes;
    hide Analysed;
    Encoder(
      GsmOffset.After(e.offset, pcm, |pcm|),
      Delays(e.u, FrameCoefficients(e.ratios, Codes(e, pcm)), Analysed(e, pcm), FRAME_SAMPLES),
      NextRatios(e.ratios, Codes(e, pcm)),
      EncoderWindow(e.window, FramePulses(e, pcm), 4))
  }

  /** Every frame the encoder can produce, from any reachable state and any samples, fits the wire. */
  lemma EncodedFrameFits(e: Encoder, pcm: seq<Word>)
    requires EncoderOk(e) && |pcm| == FRAME_SAMPLES
    ensures Fits(EncodedFrame(e, pcm)) && EncodedFrame(e, pcm).larc == Codes(e, pcm)
    ensures forall s :: 0 <= s < 4 ==> SubFrame(EncodedFrame(e, pcm), s) == FramePulses(e, pcm)[s]
  {
    hide FramePulses;
    hide Codes;
    hide PulsesFit;
    hide LarsFit;
    hide SubFrame;
    hide Assemble;
    var p := FramePulses(e, pcm);
    FitsShaped(p);
    forall s | 0 <= s < 4
      ensures SubFrame(EncodedFrame(e, pcm), s) == p[s] && EncodedFrame(e, pcm).larc == Codes(e, pcm)
    {
      AssembledParts(Codes(e, pcm), p, s);
    }
    AssembledParts(Codes(e, pcm), p, 0);
  }

  // ---- The decoder ------------------------------------------------------------------------------------------

  datatype Decoder = Decoder(memory: Memory, ratios: Ratios, v: seq<Word>, msr: Word)

  predicate DecoderOk(d: Decoder) {
    MemoryOk(d.memory) && RatiosOk(d.ratios) && |d.v| == 9
  }

  function PulsesIn(f: Frame): (p: seq<Pulses>)
    requires Fits(f)
    ensures |p| == 4 && AllFit(p)
  {
    [SubFrame(f, 0), SubFrame(f, 1), SubFrame(f, 2), SubFrame(f, 3)]
  }

  function LarcOf(f: Frame): (larc: seq<Word>)
    requires Fits(f)
    ensures |larc| == 8 && larc == f.larc
  {
    LarcIsWords(f.larc);
    f.larc
  }

  lemma LarcIsWords(larc: seq<int>)
    requires LarsFit(larc)
    ensures forall i :: 0 <= i < 8 ==> 0 <= larc[i] < 64
  {
  }

  /** De-emphasis: the running state and the truncated output. */
  function Deemphasis(msr: Word, s: seq<Word>, n: nat): Word
    requires n <= |s|
  {
    if n == 0 then msr else Add(s[n - 1], MultR(Deemphasis(msr, s, n - 1), 28180))
  }

  /** The doubled state with its three low bits cleared. */
  function Truncated(msr: Word): (out: Word)
    ensures out % 8 == 0 && out <= Add(msr, msr) < out + 8
  {
    Add(msr, msr) / 8 * 8
  }

  function Postprocessed(msr: Word, s: seq<Word>, n: nat): (out: seq<Word>)
    requires n <= |s|
    ensures |out| == n
  {
    if n == 0 then [] else Postprocessed(msr, s, n - 1) + [Truncated(Deemphasis(msr, s, n))]
  }

  function SynthesisInput(d: Decoder, f: Frame): (wt: seq<Word>)
    requires DecoderOk(d) && Fits(f)
    ensures |wt| == FRAME_SAMPLES
  {
    Residual160(d.memory, PulsesIn(f), 4)
  }

  function Synthesised(d: Decoder, f: Frame): (s: seq<Word>)
    requires DecoderOk(d) && Fits(f)
    ensures |s| == FRAME_SAMPLES
  {
    Outputs(d.v, FrameCoefficients(d.ratios, LarcOf(f)), SynthesisInput(d, f), FRAME_SAMPLES)
  }

  function DecodedPcm(d: Decoder, f: Frame): (pcm: seq<Word>)
    requires DecoderOk(d) && Fits(f)
    ensures |pcm| == FRAME_SAMPLES
  {
    Postprocessed(d.msr, Synthesised(d, f), FRAME_SAMPLES)
  }

  function AfterDecode(d: Decoder, f: Frame): (next: Decoder)
    requires DecoderOk(d) && Fits(f)
    ensures DecoderOk(next)
  {
    hide Synthesised;
    hide DecoderMemory;
    Decoder(
      DecoderMemory(d.memory, PulsesIn(f), 4),
      NextRatios(d.ratios, LarcOf(f)),
      SynthesisDelays(d.v, FrameCoefficients(d.ratios, LarcOf(f)), SynthesisInput(d, f), FRAME_SAMPLES),
      Deemphasis(d.msr, Synthesised(d, f), FRAME_SAMPLES))
  }

  // ---- Lock-step ----------------------------------------------------------------------------------------------

  /** The two ends hold the same window and the same two sets of ratios in the same slots. */
  predicate InStep(e: Encoder, d: Decoder) {
    e.window == d.memory.window && e.ratios == d.ratios
  }

  lemma FrameKeepsStep(e: Encoder, d: Decoder, pcm: seq<Word>)
    requires EncoderOk(e) && DecoderOk(d) && |pcm| == FRAME_SAMPLES && InStep(e, d)
    ensures Fits(EncodedFrame(e, pcm)) && InStep(AfterEncode(e, pcm), AfterDecode(d, EncodedFrame(e, pcm)))
  {
    hide FramePulses;
    hide Codes;
    hide Fits;
    hide EncodedFrame;
    hide EncoderWindow;
    hide DecoderMemory;
    hide NextRatios;
    hide PulsesFit;
    EncodedFrameFits(e, pcm);
    var f := EncodedFrame(e, pcm);
    assert PulsesIn(f) == FramePulses(e, pcm);
    SameWindow(d.memory, PulsesIn(f), 4);
  }

  /** Whole frames of samples. */
  predicate Frames(pcm: seq<Word>, n: nat) {
    FRAME_SAMPLES * n <= |pcm|
  }

  function FrameAt(pcm: seq<Word>, i: nat): (s: seq<Word>)
    requires Frames(pcm, i + 1)
    ensures |s| == FRAME_SAMPLES
  {
    pcm[FRAME_SAMPLES * i..FRAME_SAMPLES * i + FRAME_SAMPLES]
  }

  function EncodeRun(e: Encoder, pcm: seq<Word>, n: nat): (next: Encoder)
    requires EncoderOk(e) && Frames(pcm, n)
    ensures EncoderOk(next)
  {
    hide AfterEncode;
    hide EncoderOk;
    if n == 0 then e else AfterEncode(EncodeRun(e, pcm, n - 1), FrameAt(pcm, n - 1))
  }

  /** The payload of `n` frames: 33 bytes each. */
  function Payload(e: Encoder, pcm: seq<Word>, n: nat): (bytes: seq<int>)
    requires EncoderOk(e) && Frames(pcm, n)
    ensures |bytes| == 33 * n
  {
    hide EncodedFrame;
    hide EncoderOk;
    if n == 0 then []
    else Payload(e, pcm, n - 1) + Pack(EncodedFrame(EncodeRun(e, pcm, n - 1), FrameAt(pcm, n - 1)))
  }

  function PacketAt(bytes: seq<int>, i: nat): (c: seq<int>)
    requires 33 * (i + 1) <= |bytes|
    ensures |c| == 33
  {
    bytes[33 * i..33 * i + 33]
  }

  function FrameIn(bytes: seq<int>, i: nat): (f: Frame)
    requires Bytes(bytes) && 33 * (i + 1) <= |bytes|
    ensures Fits(f)
  {
    UnpackFits(PacketAt(bytes, i));
    Unpack(PacketAt(bytes, i))
  }

  function DecodeRun(d: Decoder, bytes: seq<int>, n: nat): (next: Decoder)
    requires DecoderOk(d) && Bytes(bytes) && 33 * n <= |bytes|
    ensures DecoderOk(next)
  {
    hide AfterDecode;
    hide DecoderOk;
    hide Fits;
    if n == 0 then d else AfterDecode(DecodeRun(d, bytes, n - 1), FrameIn(bytes, n - 1))
  }

  function DecodedStream(d: Decoder, bytes: seq<int>, n: nat): (pcm: seq<Word>)
    requires DecoderOk(d) && Bytes(bytes) && 33 * n <= |bytes|
    ensures |pcm| == FRAME_SAMPLES * n
  {
    hide DecodedPcm;
    hide DecoderOk;
    hide Fits;
    if n == 0 then []
    else DecodedStream(d, bytes, n - 1) + DecodedPcm(DecodeRun(d, bytes, n - 1), FrameIn(bytes, n - 1))
  }

  /** What a decoder unpacks from the payload is what the encoder packed into it. */
  lemma {:induction false} PayloadHolds(e: Encoder, pcm: seq<Word>, i: nat, n: nat)
    requires EncoderOk(e) && Frames(pcm, n) && i < n
    ensures PacketAt(Payload(e, pcm, n), i) == Pack(EncodedFrame(EncodeRun(e, pcm, i), FrameAt(pcm, i)))
  {
    hide EncodedFrame;
    hide EncoderOk;
    hide EncodeRun;
    hide Pack;
    if i < n - 1 {
      PayloadHolds(e, pcm, i, n - 1);
      assert PacketAt(Payload(e, pcm, n), i) == PacketAt(Payload(e, pcm, n - 1), i);
    }
  }

  lemma NoBytes()
    ensures Bytes([])
  {
  }

  lemma BytesJoin(a: seq<int>, b: seq<int>)
    requires Bytes(a) && Bytes(b)
    ensures Bytes(a + b)
  {
  }

  lemma {:induction false} PayloadIsBytes(e: Encoder, pcm: seq<Word>, n: nat)
    requires EncoderOk(e) && Frames(pcm, n)
    ensures Bytes(Payload(e, pcm, n))
  {
    hide EncodedFrame;
    hide EncoderOk;
    hide EncodeRun;
    hide Pack;
    hide Bytes;
    hide Fits;
    hide Unpack;
    hide Codes;
    hide FramePulses;
    hide SubFrame;
    if n == 0 {
      NoBytes();
    } else {
      PayloadIsBytes(e, pcm, n - 1);
      var before := EncodeRun(e, pcm, n - 1);
      EncodedFrameFits(before, FrameAt(pcm, n - 1));
      UnpackOfPack(EncodedFrame(before, FrameAt(pcm, n - 1)));
      BytesJoin(Payload(e, pcm, n - 1), Pack(EncodedFrame(before, FrameAt(pcm, n - 1))));
    }
  }

  /**
   * Lock-step over every stream: a decoder that starts in step and is fed the encoder's payload is in
   * step after each frame, whatever the samples.
   */
  lemma {:induction false} LockStep(e: Encoder, d: Decoder, pcm: seq<Word>, i: nat, n: nat)
    requires EncoderOk(e) && DecoderOk(d) && InStep(e, d) && Frames(pcm, n) && i <= n
    ensures Bytes(Payload(e, pcm, n)) && InStep(EncodeRun(e, pcm, i), DecodeRun(d, Payload(e, pcm, n), i))
  {
    hide AfterEncode;
    hide AfterDecode;
    hide EncodedFrame;
    hide EncoderOk;
    hide DecoderOk;
    hide Payload;
    hide InStep;
    hide Fits;
    hide Pack;
    hide Unpack;
    hide Bytes;
    PayloadIsBytes(e, pcm, n);
    if i > 0 {
      LockStep(e, d, pcm, i - 1, n);
      PayloadHolds(e, pcm, i - 1, n);
      var before := EncodeRun(e, pcm, i - 1);
      FrameKeepsStep(before, DecodeRun(d, Payload(e, pcm, n), i - 1), FrameAt(pcm, i - 1));
      UnpackOfPack(EncodedFrame(before, FrameAt(pcm, i - 1)));
    }
  }
}
