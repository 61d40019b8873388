/**
 * The wrap of `GsmAnalysis.RestoreWraps` happens on real input: silence at the negative rail until the
 * offset filter has forgotten it, then the positive rail. The encoder's own frame then holds -32768
 * where pre-processing had 32764 (`preprocess` and `autocorrelation` in
 * `crates/siphon-rtp-codec/src/gsm_fr.rs`).
 */
module GsmFullScale {
  import opened GsmAnalysis
  import opened GsmCodec
  import opened GsmMath
  import opened GsmOffset
  import opened GsmStream
  import opened PowersOfTwo

  /** A filter memory after at least one sample at the negative rail. */
  predicate Lowered(m: GsmOffset.Memory) {
    Bounded(m) && m.z1 == -16384 && m.lz2 <= 0 && m.mp == (m.lz2 + 16384) / 32768
  }

  const RAIL: Word := -32768

  /** Another sample at the rail leaks towards zero, by at least one while anything is audible. */
  lemma RailLeaks(m: GsmOffset.Memory)
    requires Lowered(m)
    ensures Lowered(Step(m, RAIL)) && m.lz2 <= Step(m, RAIL).lz2
    ensures m.lz2 <= -16384 ==> m.lz2 < Step(m, RAIL).lz2
  {
    hide Step;
    NeverSaturates(m, RAIL);
    var msp: int, lsp: int := m.lz2 / 32768, m.lz2 % 32768;
    assert m.lz2 == msp * 32768 + lsp;
    StepTakes(m, RAIL);
  }

  lemma StepTakes(m: GsmOffset.Memory, s: Word)
    requires Bounded(m)
    ensures Step(m, s).z1 == Downscaled(s)
  {
  }

  lemma FirstRail()
    ensures Lowered(Step(SILENCE, RAIL))
  {
    hide Step;
    NeverSaturates(SILENCE, RAIL);
    StepTakes(SILENCE, RAIL);
  }

  /** A frame at the rail. */
  function RailFrame(): (s: seq<Word>)
    ensures |s| == FRAME_SAMPLES && forall i :: 0 <= i < |s| ==> s[i] == RAIL
  {
    seq(FRAME_SAMPLES, _ => RAIL)
  }

  lemma {:induction false} RailFrameLeaks(m: GsmOffset.Memory, n: nat)
    requires Lowered(m) && n <= FRAME_SAMPLES
    ensures var t := After(m, RailFrame(), n);
            Lowered(t) && m.lz2 <= t.lz2 && (n > 0 && m.lz2 <= -16384 ==> m.lz2 < t.lz2)
  {
    hide Step;
    if n > 0 {
      RailFrameLeaks(m, n - 1);
      RailLeaks(After(m, RailFrame(), n - 1));
    }
  }

  lemma {:induction false} FirstRailFrame(n: nat)
    requires 1 <= n <= FRAME_SAMPLES
    ensures Lowered(After(SILENCE, RailFrame(), n))
  {
    hide Step;
    hide Lowered;
    if n == 1 {
      assert After(SILENCE, RailFrame(), 0) == SILENCE;
      FirstRail();
    } else {
      FirstRailFrame(n - 1);
      RailLeaks(After(SILENCE, RailFrame(), n - 1));
    }
  }

  /** The filter memory after `k` frames at the rail. */
  function RailRun(m: GsmOffset.Memory, k: nat): (t: GsmOffset.Memory)
    requires Bounded(m)
    ensures Bounded(t)
  {
    if k == 0 then m else After(RailRun(m, k - 1), RailFrame(), FRAME_SAMPLES)
  }

  /** What is left after enough frames: nothing that rounds to a sample. */
  predicate Settled(m: GsmOffset.Memory) {
    Lowered(m) && -16384 < m.lz2
  }

  lemma {:induction false} RailRunShift(m: GsmOffset.Memory, k: nat)
    requires Bounded(m)
    ensures RailRun(After(m, RailFrame(), FRAME_SAMPLES), k) == RailRun(m, k + 1)
  {
    hide After;
    hide Bounded;
    if k > 0 { RailRunShift(m, k - 1); }
  }

  lemma {:induction false} SettlesFrom(m: GsmOffset.Memory) returns (k: nat)
    requires Lowered(m)
    ensures Settled(RailRun(m, k))
    decreases -m.lz2
  {
    hide After;
    k := 0;
    if m.lz2 <= -16384 {
      var next := After(m, RailFrame(), FRAME_SAMPLES);
      RailFrameLeaks(m, FRAME_SAMPLES);
      k := SettlesFrom(next);
      RailRunShift(m, k);
      k := k + 1;
    }
  }

  lemma Settles() returns (k: nat)
    ensures k > 0 && Settled(RailRun(SILENCE, k))
  {
    hide After;
    var first := After(SILENCE, RailFrame(), FRAME_SAMPLES);
    FirstRailFrame(FRAME_SAMPLES);
    k := SettlesFrom(first);
    RailRunShift(SILENCE, k);
    k := k + 1;
  }

  /** The other rail then jumps by the whole range. */
  lemma RailToRail(m: GsmOffset.Memory)
    requires Settled(m)
    ensures m.mp == 0 && Step(m, 32767).mp == 32764
  {
    hide Step;
    NeverSaturates(m, 32767);
    var msp: int, lsp: int := m.lz2 / 32768, m.lz2 % 32768;
    assert m.lz2 == msp * 32768 + lsp;
  }

  lemma {:induction false} FirstEmphasised(m: GsmOffset.Memory, s: seq<Word>, n: nat)
    requires Bounded(m) && 1 <= n <= |s|
    ensures Emphasised(m, s, n)[0] == Add(Step(m, s[0]).mp, MultR(m.mp, -28180))
  {
    hide Step;
    hide Bounded;
    hide Add;
    hide MultR;
    if n > 1 {
      FirstEmphasised(m, s, n - 1);
    } else {
      assert After(m, s, 0) == m && After(m, s, 1) == Step(m, s[0]);
      assert Emphasised(m, s, 0) == [];
    }
  }

  /** A frame whose first sample is 32764 comes out of the analysis with -32768 in its place. */
  lemma AnalysisWraps(s: seq<Word>)
    requires |s| > 0 && s[0] == 32764
    ensures AfterAnalysis(s)[0] == -32768
  {
    hide ScaleBits;
    hide Scaled;
    var peak := Peak(s, |s|);
    assert Magnitude(s[0]) <= peak;
    ScaleBitsFit(peak);
    SmallPowers();
    var bits := ScaleBits(peak);
    BitsOfFullScale(bits, peak);
    ScaledRounds(s[0], 4);
  }

  lemma BitsOfFullScale(bits: int, peak: Word)
    requires peak >= 16384 && bits <= 4 && (bits <= 0 ==> peak < 2048)
    requires bits > 0 ==> peak < 2048 * Pow2(bits)
    ensures bits == 4
  {
    SmallPowers();
  }

  /** The encoder's filter memory over frames at the rail. */
  lemma {:induction false} EncoderAtRail(pcm: seq<Word>, k: nat)
    requires Frames(pcm, k) && forall i :: 0 <= i < FRAME_SAMPLES * k ==> pcm[i] == RAIL
    ensures EncodeRun(FreshEncoder(), pcm, k).offset == RailRun(SILENCE, k)
  {
    hide AfterEncode;
    hide EncoderOk;
    hide After;
    if k > 0 {
      EncoderAtRail(pcm, k - 1);
      assert FrameAt(pcm, k - 1) == RailFrame();
      OffsetOf(EncodeRun(FreshEncoder(), pcm, k - 1), FrameAt(pcm, k - 1));
    }
  }

  lemma OffsetOf(e: Encoder, pcm: seq<Word>)
    requires EncoderOk(e) && |pcm| == FRAME_SAMPLES
    ensures AfterEncode(e, pcm).offset == After(e.offset, pcm, FRAME_SAMPLES)
  {
    hide After;
    hide Codes;
    hide Analysed;
    hide FramePulses;
  }

  /**
   * From a fresh encoder: some number of frames at the negative rail, then any frame that starts at the
   * positive rail. Pre-processing makes 32764 of its first sample, and the analysis leaves -32768 there.
   */
  lemma WrapIsReached(rest: seq<Word>) returns (k: nat, pcm: seq<Word>)
    requires |rest| == FRAME_SAMPLES - 1
    ensures Frames(pcm, k + 1) && FrameAt(pcm, k) == [32767] + rest
    ensures forall i :: 0 <= i < FRAME_SAMPLES * k ==> pcm[i] == RAIL
    ensures var e := EncodeRun(FreshEncoder(), pcm, k);
            && Emphasised(e.offset, FrameAt(pcm, k), FRAME_SAMPLES)[0] == 32764
            && Analysed(e, FrameAt(pcm, k))[0] == -32768
  {
    hide EncodeRun;
    hide RailRun;
    hide AfterAnalysis;
    hide Emphasised;
    hide EncoderOk;
    hide Step;
    hide MultR;
    k := Settles();
    pcm := seq(FRAME_SAMPLES * k, _ => RAIL) + [32767] + rest;
    EncoderAtRail(pcm, k);
    var e := EncodeRun(FreshEncoder(), pcm, k);
    RailToRail(e.offset);
    FirstEmphasised(e.offset, FrameAt(pcm, k), FRAME_SAMPLES);
    SilentProduct();
    AnalysisWraps(Emphasised(e.offset, FrameAt(pcm, k), FRAME_SAMPLES));
  }

  lemma SilentProduct()
    ensures MultR(0, -28180) == 0
  {
  }
}
