/**
 * The GSM 06.10 codec object (`GsmState`, `encode_frame`, `decode_frame` and the codec's buffer calls in
 * `crates/siphon-rtp-codec/src/gsm_fr.rs`). The encoder writes four sub-frames into one 280-word
 * buffer and shifts it once per frame; the decoder writes behind a 120-word window and shifts it after
 * every sub-frame. Both are proved to be the window of `GsmStream`.
 */
module GsmCodec {
  import opened GsmAnalysis
  import opened GsmApcm
  import opened GsmFrame
  import opened GsmLar
  import opened GsmLattice
  import opened GsmLongTerm
  import opened GsmMath
  import opened GsmStream
  import opened Wrappers

  const SILENT_RATIOS := Ratios([[0, 0, 0, 0, 0, 0, 0, 0], [0, 0, 0, 0, 0, 0, 0, 0]], 0)

  /** `count` zero words. */
  function Zeros(count: nat): (z: seq<Word>)
    ensures |z| == count && forall i :: 0 <= i < count ==> z[i] == 0
  {
    seq(count, _ => 0)
  }

  /** The reset state of both directions: all zero except the last lag. */
  function FreshEncoder(): (e: Encoder)
    ensures EncoderOk(e)
  {
    Encoder(GsmOffset.SILENCE, Zeros(8), SILENT_RATIOS, Zeros(120))
  }

  function FreshDecoder(): (d: Decoder)
    ensures DecoderOk(d) && InStep(FreshEncoder(), d)
  {
    Decoder(Memory(Zeros(120), 40), SILENT_RATIOS, Zeros(9), 0)
  }

  class GsmState {
    const dp0: array<Word>
    var z1: Word
    var lz2: int
    var mp: Word
    var u: seq<Word>
    var larpp: seq<seq<Word>>
    var j: nat
    var nrp: int
    var v: seq<Word>
    var msr: Word

    ghost function EncoderView(): Encoder
      reads this, dp0
      requires dp0.Length == 280
    {
      Encoder(GsmOffset.Memory(z1, lz2, mp), u, Ratios(larpp, j), dp0[..120])
    }

    ghost function DecoderView(): Decoder
      reads this, dp0
      requires dp0.Length == 280
    {
      Decoder(Memory(dp0[..120], nrp), Ratios(larpp, j), v, msr)
    }

    ghost predicate Valid()
      reads this, dp0
    {
      dp0.Length == 280 && EncoderOk(EncoderView()) && DecoderOk(DecoderView())
    }

    constructor ()
      ensures Valid() && fresh(dp0) && EncoderView() == FreshEncoder() && DecoderView() == FreshDecoder()
    {
      dp0 := new Word[280](_ => 0);
      z1, lz2, mp := 0, 0, 0;
      u, v := Zeros(8), Zeros(9);
      larpp, j := SILENT_RATIOS.larpp, 0;
      nrp, msr := 40, 0;
      new;
      assert dp0[..120] == Zeros(120);
    }

    // ---- Encoder ------------------------------------------------------------------------------------------

    /** Write the prediction of sub-frame `base` into the buffer and return the residual. */
    method PredictLongTerm(base: nat, d: seq<Word>, nc: nat, bc: nat) returns (e: seq<Word>)
      requires dp0.Length == 280 && 120 <= base <= 240 && |d| == 40 && 40 <= nc <= 120 && bc <= 3
      modifies dp0
      ensures dp0[..base] == old(dp0[..base])
      ensures dp0[base..base + 40] == Prediction(old(dp0[base - 120..base]), nc, bc)
      ensures e == LtpResidual(d, Prediction(old(dp0[base - 120..base]), nc, bc))
    {
      hide MultR;
      hide Sub;
      ghost var window := dp0[base - 120..base];
      var bp := GSM_QLB[bc];
      e := [];
      for k := 0 to 40
        invariant dp0[..base] == old(dp0[..base])
        invariant dp0[base..base + k] == Prediction(window, nc, bc)[..k]
        invariant e == LtpResidual(d, Prediction(window, nc, bc))[..k]
      {
        assert dp0[base + k - nc] == dp0[..base][base + k - nc] == window[120 + k - nc];
        var dpp := MultR(bp, dp0[base + k - nc]);
        dp0[base + k] := dpp;
        assert dpp == Prediction(window, nc, bc)[k];
        e := e + [Sub(d[k], dp0[base + k])];
        assert dp0[base..base + k + 1] == dp0[base..base + k] + [dpp];
      }
    }

    /** Add the decoded excitation to the prediction in place. */
    method AddExcitation(base: nat, ep: seq<Word>)
      requires dp0.Length == 280 && 120 <= base <= 240 && |ep| == 40
      modifies dp0
      ensures dp0[..base] == old(dp0[..base])
      ensures dp0[base..base + 40] == Summed(ep, old(dp0[base..base + 40]))
    {
      hide Add;
      ghost var dpp := dp0[base..base + 40];
      for i := 0 to 40
        invariant dp0[..base] == old(dp0[..base])
        invariant dp0[base..base + i] == Summed(ep, dpp)[..i]
        invariant dp0[base + i..base + 40] == dpp[i..]
      {
        assert dp0[base + i] == dp0[base + i..base + 40][0] == dpp[i];
        dp0[base + i] := Add(ep[i], dp0[base + i]);
        assert dp0[base..base + i + 1] == dp0[base..base + i] + [dp0[base + i]];
        assert dp0[base + i + 1..base + 40] == dpp[i..][1..];
      }
    }

    method EncodePulses(nc: nat, bc: nat, e: seq<Word>) returns (p: Pulses, ep: seq<Word>)
      requires 40 <= nc <= 120 && bc <= 3 && |e| == 40
      ensures p == PulsesOf(nc, bc, e) && ep == Excitation(p)
    {
      hide WeightedBlock;
      hide BestGrid;
      hide PulseCodes;
      hide BlockOf;
      hide Positioned;
      hide DecodedPulses;
      var x := WeightingFilter(MARGIN + e + MARGIN);
      var xm, mc := SelectGrid(x);
      var xmc, xmaxc := QuantizePulses(xm);
      CodesFit(xm);
      p := Pulses(nc, bc, mc, xmaxc, xmc);
      var xmp := DecodePulses(xmc, xmaxc);
      ep := PositionGrid(mc, xmp);
    }

    method EncodeSubFrame(k: nat, d: seq<Word>) returns (p: Pulses)
      requires dp0.Length == 280 && k < 4 && |d| == 40
      modifies dp0
      ensures p == SubFrameFor(d, old(dp0[40 * k..40 * k + 120]))
      ensures dp0[..120 + 40 * k] == old(dp0[..120 + 40 * k])
      ensures dp0[40 * (k + 1)..40 * (k + 1) + 120] == NextWindow(old(dp0[40 * k..40 * k + 120]), p.nc, p)
    {
      hide LtpParams;
      hide PulsesOf;
      hide Excitation;
      hide Add;
      hide PulsesFit;
      hide LtpResidual;
      var base := 120 + k * 40;
      ghost var window := dp0[40 * k..40 * k + 120];
      var nc, bc := CalcLtpParams(d, dp0[base - 120..base]);
      var e := PredictLongTerm(base, d, nc, bc);
      var ep;
      p, ep := EncodePulses(nc, bc, e);
      AddExcitation(base, ep);
      ghost var written := dp0[base..base + 40];
      assert written == Reconstructed(window, p.nc, p);
      assert dp0[40 * k + 40..40 * k + 160] == dp0[..base][40 * k + 40..] + written;
      assert dp0[..base][40 * k + 40..] == window[40..];
    }

    /** Pre-processing, LPC analysis and the short-term filter. */
    method ShortTermStage(pcm: seq<Word>) returns (larc: seq<Word>, d: seq<Word>)
      requires Valid() && |pcm| == FRAME_SAMPLES
      modifies `z1, `lz2, `mp, `u, `larpp, `j
      ensures larc == Codes(old(EncoderView()), pcm) && d == ShortTermResidual(old(EncoderView()), pcm)
      ensures EncoderView() == AfterEncode(old(EncoderView()), pcm).(window := old(dp0[..120]))
    {
      hide GsmOffset.Bounded;
      hide GsmOffset.After;
      hide GsmOffset.Emphasised;
      hide LarCodes;
      hide AfterAnalysis;
      hide DecodedLars;
      hide RegionCoefficients;
      hide Residuals;
      hide Delays;
      hide EncoderWindow;
      hide FramePulses;
      ghost var before := EncoderView();
      var memory, emphasised := GsmOffset.Preprocess(GsmOffset.Memory(z1, lz2, mp), pcm);
      z1, lz2, mp := memory.z1, memory.lz2, memory.mp;
      var so := new Word[FRAME_SAMPLES](i requires 0 <= i < FRAME_SAMPLES => emphasised[i]);
      assert so[..] == emphasised;
      larc := LpcAnalysis(so);
      var slot := j;
      j := 1 - j;
      var prev := larpp[j];
      var cur := DecodeLars(larc);
      larpp := larpp[slot := cur];
      var rps := RegionTables(prev, cur);
      u := AnalyseFrame(u, rps, so);
      d := so[..];
    }

    method RegionTables(prev: seq<Word>, cur: seq<Word>) returns (rps: seq<seq<Word>>)
      requires |prev| == |cur| == 8
      ensures rps == [RegionCoefficients(prev, cur, 0), RegionCoefficients(prev, cur, 1),
                      RegionCoefficients(prev, cur, 2), RegionCoefficients(prev, cur, 3)]
    {
      hide RegionCoefficients;
      var r0 := Interpolate(prev, cur, 0);
      var r1 := Interpolate(prev, cur, 1);
      var r2 := Interpolate(prev, cur, 2);
      var r3 := Interpolate(prev, cur, 3);
      rps := [r0, r1, r2, r3];
    }

    /** The four sub-frames, then the shift that keeps the last 120 words. */
    method SubFrameStage(d: seq<Word>) returns (p: seq<Pulses>)
      requires dp0.Length == 280 && |d| == FRAME_SAMPLES
      modifies dp0
      ensures p == SubFrames(d, old(dp0[..120]), 4)
      ensures dp0[..120] == EncoderWindow(old(dp0[..120]), p, 4)
    {
      hide NextWindow;
      hide SubFrameFor;
      hide PulsesFit;
      ghost var window := dp0[..120];
      p := [];
      for k := 0 to 4
        invariant p == SubFrames(d, window, k)
        invariant dp0[40 * k..40 * k + 120] == EncoderWindow(window, p, k)
      {
        ghost var before := p;
        var sub := EncodeSubFrame(k, d[k * 40..k * 40 + 40]);
        p := p + [sub];
        PrefixWindow(window, before, sub, k);
      }
      ShiftBuffer(160);
    }

    /** The whole of `encode_frame`. */
    method EncodeFrame(pcm: seq<Word>) returns (frame: Frame)
      requires Valid() && |pcm| == FRAME_SAMPLES
      modifies this, dp0
      ensures Valid() && frame == EncodedFrame(old(EncoderView()), pcm)
      ensures EncoderView() == AfterEncode(old(EncoderView()), pcm)
      ensures nrp == old(nrp) && v == old(v) && msr == old(msr)
    {
      hide Codes;
      hide Analysed;
      hide ShortTermResidual;
      hide GsmOffset.Bounded;
      hide GsmOffset.After;
      hide Delays;
      hide EncoderWindow;
      hide SubFrames;
      hide NextRatios;
      hide FrameCoefficients;
      hide Assemble;
      ghost var before := EncoderView();
      var larc, d := ShortTermStage(pcm);
      var p := SubFrameStage(d);
      assert p == FramePulses(before, pcm);
      FitsShaped(p);
      frame := Assemble(larc, p);
    }

    /** `copy_within(from..from + 120, 0)`. */
    method ShiftBuffer(from: nat)
      requires dp0.Length == 280 && 0 < from <= 160
      modifies dp0
      ensures dp0[..120] == old(dp0[from..from + 120])
      ensures dp0[120..] == old(dp0[120..])
    {
      for i := 0 to 120
        invariant dp0[..i] == old(dp0[from..from + i])
        invariant dp0[i..] == old(dp0[i..])
      {
        assert dp0[from + i] == dp0[i..][from] == old(dp0[from + i]);
        dp0[i] := dp0[from + i];
        assert dp0[i + 1..] == old(dp0[i + 1..]);
      }
    }

    // ---- Decoder ------------------------------------------------------------------------------------------

    /** `long_term_synthesis_filtering`: forty words behind the window, then the window moves on. */
    method SynthesizeLongTerm(p: Pulses, erp: seq<Word>)
      requires Valid() && PulsesFit(p) && erp == Excitation(p)
      modifies `nrp, dp0
      ensures var nr := Lag(old(nrp), p.nc);
              && nrp == nr && dp0[..120] == NextWindow(old(dp0[..120]), nr, p)
              && dp0[120..160] == Reconstructed(old(dp0[..120]), nr, p)
    {
      hide Excitation;
      hide Add;
      hide MultR;
      var nr := if !(40 <= p.nc <= 120) then nrp else p.nc;
      nrp := nr;
      ghost var window := dp0[..120];
      ghost var words := Reconstructed(window, nr, p);
      var brp := GSM_QLB[p.bc];
      for k := 0 to 40
        invariant nrp == nr && dp0[..120] == window && dp0[120..120 + k] == words[..k]
      {
        assert dp0[120 + k - nr] == dp0[..120][120 + k - nr] == window[120 + k - nr];
        var drpp := MultR(brp, dp0[120 + k - nr]);
        assert drpp == Prediction(window, nr, p.bc)[k];
        dp0[120 + k] := Add(erp[k], drpp);
        assert dp0[120..120 + k + 1] == dp0[120..120 + k] + [dp0[120 + k]];
      }
      assert words[..40] == words;
      assert dp0[40..160] == dp0[..120][40..] + dp0[120..160] == NextWindow(window, nr, p);
      ghost var rest := dp0[120..];
      assert rest[..40] == dp0[120..160] == words;
      ShiftBuffer(40);
      assert dp0[120..160] == dp0[120..][..40] == rest[..40];
    }

    /** The four sub-frames of a frame. */
    method LongTermStage(p: seq<Pulses>) returns (wt: seq<Word>)
      requires Valid() && |p| == 4 && AllFit(p)
      modifies `nrp, dp0
      ensures Memory(dp0[..120], nrp) == DecoderMemory(old(DecoderView().memory), p, 4)
      ensures wt == Residual160(old(DecoderView().memory), p, 4)
    {
      hide NextWindow;
      hide PulsesFit;
      hide Excitation;
      hide Positioned;
      hide GsmOffset.Bounded;
      ghost var m := DecoderView().memory;
      wt := [];
      for k := 0 to 4
        invariant Valid() && Memory(dp0[..120], nrp) == DecoderMemory(m, p, k)
        invariant wt == Residual160(m, p, k)
      {
        var erp := DecodeExcitation(p[k]);
        SynthesizeLongTerm(p[k], erp);
        NewestWords(DecoderMemory(m, p, k).window, nrp, p[k]);
        wt := wt + dp0[120..160];
      }
    }

    method DecodeExcitation(p: Pulses) returns (erp: seq<Word>)
      requires PulsesFit(p)
      ensures erp == Excitation(p)
    {
      hide Positioned;
      hide DecodedPulses;
      var xmp := DecodePulses(p.x, p.xmaxc);
      erp := PositionGrid(p.mc, xmp);
    }

    method Postprocess(s: seq<Word>) returns (out: seq<Word>)
      modifies `msr
      ensures out == Postprocessed(old(msr), s, |s|) && msr == Deemphasis(old(msr), s, |s|)
    {
      hide MultR;
      hide Add;
      out := [];
      for k := 0 to |s|
        invariant out == Postprocessed(old(msr), s, k) && msr == Deemphasis(old(msr), s, k)
      {
        var tmp := MultR(msr, 28180);
        msr := Add(s[k], tmp);
        out := out + [Add(msr, msr) / 8 * 8];
      }
    }

    /** The whole of `decode_frame`. */
    method DecodeFrame(frame: Frame) returns (pcm: seq<Word>)
      requires Valid() && Fits(frame)
      modifies this, dp0
      ensures Valid() && pcm == DecodedPcm(old(DecoderView()), frame)
      ensures DecoderView() == AfterDecode(old(DecoderView()), frame)
      ensures z1 == old(z1) && lz2 == old(lz2) && mp == old(mp) && u == old(u)
    {
      hide DecoderMemory;
      hide Residual160;
      hide Postprocessed;
      hide Deemphasis;
      hide Outputs;
      hide SynthesisDelays;
      hide DecodedLars;
      hide RegionCoefficients;
      hide GsmOffset.Bounded;
      hide Fits;
      hide SubFrame;
      ghost var before := DecoderView();
      var wt := LongTermStage(PulsesIn(frame));
      var slot := j;
      j := 1 - j;
      var prev := larpp[j];
      var cur := DecodeLars(LarcOf(frame));
      larpp := larpp[slot := cur];
      var rps := RegionTables(prev, cur);
      var s;
      v, s := SynthesiseFrame(v, rps, wt);
      pcm := Postprocess(s);
    }

    // ---- Buffers --------------------------------------------------------------------------------------------

    /** Encode whole frames. */
    method Encode(pcm: seq<Word>, output: array<int>) returns (result: CodecResult)
      requires Valid()
      modifies this, dp0, output
      ensures Valid()
      ensures |pcm| % FRAME_SAMPLES != 0 ==> result == BadFrameSize(FRAME_SAMPLES, |pcm|)
      ensures |pcm| % FRAME_SAMPLES == 0 && output.Length < |pcm| / FRAME_SAMPLES * 33 ==>
                result == OutputTooSmall(|pcm| / FRAME_SAMPLES * 33, output.Length)
      ensures !result.Done? ==> EncoderView() == old(EncoderView()) && output[..] == old(output[..])
      ensures |pcm| % FRAME_SAMPLES == 0 && |pcm| / FRAME_SAMPLES * 33 <= output.Length ==>
                var frames := |pcm| / FRAME_SAMPLES;
                && result == Done(frames * 33)
                && EncoderView() == EncodeRun(old(EncoderView()), pcm, frames)
                && output[..] == Payload(old(EncoderView()), pcm, frames) + old(output[frames * 33..])
    {
      hide EncoderOk;
      hide DecoderOk;
      hide AfterEncode;
      hide EncodedFrame;
      hide Pack;
      if |pcm| % FRAME_SAMPLES != 0 {
        return BadFrameSize(FRAME_SAMPLES, |pcm|);
      }
      var frames := |pcm| / FRAME_SAMPLES;
      var bytes := frames * 33;
      if output.Length < bytes {
        return OutputTooSmall(bytes, output.Length);
      }
      ghost var start := EncoderView();
      for f := 0 to frames
        invariant Valid() && EncoderView() == EncodeRun(start, pcm, f)
        invariant output[..33 * f] == Payload(start, pcm, f) && output[33 * f..] == old(output[33 * f..])
      {
        var frame := EncodeFrame(FrameAt(pcm, f));
        CopyPacket(Pack(frame), output, 33 * f);
      }
      assert output[..] == output[..bytes] + output[bytes..];
      result := Done(bytes);
    }

    method CopyPacket(packet: seq<int>, output: array<int>, at: nat)
      requires |packet| == 33 && at + 33 <= output.Length
      modifies output
      ensures output[..at + 33] == old(output[..at]) + packet && output[at + 33..] == old(output[at + 33..])
    {
      for i := 0 to 33
        invariant output[..at + i] == old(output[..at]) + packet[..i] && output[at + i..] == old(output[at + i..])
      {
        output[at + i] := packet[i];
      }
    }

    /** Decode whole packets. The caller's buffer is never the codec's own. */
    method Decode(payload: seq<int>, output: array<Word>) returns (result: CodecResult)
      requires Valid() && Bytes(payload) && output != dp0
      modifies this, dp0, output
      ensures Valid()
      ensures |payload| % 33 != 0 ==> result == Malformed
      ensures |payload| % 33 == 0 && output.Length < |payload| / 33 * FRAME_SAMPLES ==>
                result == OutputTooSmall(|payload| / 33 * FRAME_SAMPLES, output.Length)
      ensures !result.Done? ==> DecoderView() == old(DecoderView()) && output[..] == old(output[..])
      ensures |payload| % 33 == 0 && |payload| / 33 * FRAME_SAMPLES <= output.Length ==>
                var frames := |payload| / 33;
                && result == Done(frames * FRAME_SAMPLES)
                && DecoderView() == DecodeRun(old(DecoderView()), payload, frames)
                && output[..]
                   == DecodedStream(old(DecoderView()), payload, frames) + old(output[frames * FRAME_SAMPLES..])
    {
      hide EncoderOk;
      hide DecoderOk;
      hide AfterDecode;
      hide DecodedPcm;
      hide Unpack;
      hide Fits;
      hide Bytes;
      if |payload| % 33 != 0 {
        return Malformed;
      }
      var frames := |payload| / 33;
      var samples := frames * FRAME_SAMPLES;
      if output.Length < samples {
        return OutputTooSmall(samples, output.Length);
      }
      ghost var start := DecoderView();
      for f := 0 to frames
        invariant Valid() && DecoderView() == DecodeRun(start, payload, f)
        invariant output[..FRAME_SAMPLES * f] == DecodedStream(start, payload, f)
        invariant output[FRAME_SAMPLES * f..] == old(output[FRAME_SAMPLES * f..])
      {
        var pcm := DecodeFrame(FrameIn(payload, f));
        CopyFrame(pcm, output, FRAME_SAMPLES * f);
      }
      assert output[..] == output[..samples] + output[samples..];
      result := Done(samples);
    }

    method CopyFrame(pcm: seq<Word>, output: array<Word>, at: nat)
      requires |pcm| == FRAME_SAMPLES && at + FRAME_SAMPLES <= output.Length
      modifies output
      ensures output[..at + FRAME_SAMPLES] == old(output[..at]) + pcm
      ensures output[at + FRAME_SAMPLES..] == old(output[at + FRAME_SAMPLES..])
    {
      for i := 0 to FRAME_SAMPLES
        invariant output[..at + i] == old(output[..at]) + pcm[..i] && output[at + i..] == old(output[at + i..])
      {
        output[at + i] := pcm[i];
      }
    }
  }

  /** Two fresh instances in the two directions end every stream of whole frames in step. */
  method RoundTrip(pcm: seq<Word>) returns (encoder: GsmState, decoder: GsmState, payload: seq<int>, decoded: seq<Word>)
    requires |pcm| % FRAME_SAMPLES == 0
    ensures encoder.Valid() && decoder.Valid() && InStep(encoder.EncoderView(), decoder.DecoderView())
    ensures payload == Payload(FreshEncoder(), pcm, |pcm| / FRAME_SAMPLES) && Bytes(payload)
    ensures decoded == DecodedStream(FreshDecoder(), payload, |pcm| / FRAME_SAMPLES) && |decoded| == |pcm|
  {
    hide EncoderOk;
    hide DecoderOk;
    hide EncodeRun;
    hide DecodeRun;
    hide Payload;
    hide DecodedStream;
    hide InStep;
    hide Bytes;
    hide FreshEncoder;
    hide FreshDecoder;
    encoder := new GsmState();
    decoder := new GsmState();
    var frames := |pcm| / FRAME_SAMPLES;
    var bytes := new int[frames * 33];
    var encoded := encoder.Encode(pcm, bytes);
    payload := bytes[..];
    assert payload == Payload(FreshEncoder(), pcm, frames);
    LockStep(FreshEncoder(), FreshDecoder(), pcm, frames, frames);
    var samples := new Word[frames * FRAME_SAMPLES];
    var done := decoder.Decode(payload, samples);
    decoded := samples[..];
    assert decoder.DecoderView() == DecodeRun(FreshDecoder(), payload, frames);
    assert encoder.EncoderView() == EncodeRun(FreshEncoder(), pcm, frames);
  }

  lemma NewestWords(window: seq<Word>, lag: int, p: Pulses)
    requires |window| == 120 && 40 <= lag <= 120 && PulsesFit(p)
    ensures NextWindow(window, lag, p)[80..] == Reconstructed(window, lag, p)
  {
  }

  lemma {:induction false} PrefixWindow(window: seq<Word>, p: seq<Pulses>, next: Pulses, k: nat)
    requires |window| == 120 && AllFit(p) && LagsInRange(p) && PulsesFit(next) && 40 <= next.nc <= 120 && k <= |p|
    ensures AllFit(p + [next]) && LagsInRange(p + [next])
    ensures EncoderWindow(window, p + [next], k) == EncoderWindow(window, p, k)
  {
    hide NextWindow;
    hide PulsesFit;
    if k > 0 { PrefixWindow(window, p, next, k - 1); }
  }
}
