/**
 * Pre-processing of GSM 06.10 (sections 4.2.1 to 4.2.3; `crates/siphon-rtp-codec/src/gsm_fr.rs`):
 * downscaling, the recursive offset-compensation filter in 32 bits, and pre-emphasis. The source wraps
 * and saturates at several points; the theorem here is that no input stream ever makes it do so.
 */
module GsmOffset {
  import opened FixedPoint
  import opened GsmMath

  /** The filter's memory between frames. */
  datatype Memory = Memory(z1: Word, lz2: int, mp: Word)

  const SILENCE := Memory(0, 0, 0)

  function SaturatingAdd32(a: int, b: int): (r: int)
    ensures InI32(r) && (InI32(a + b) ==> r == a + b)
  {
    Clamp(a + b, -0x8000_0000, 0x7FFF_FFFF)
  }

  function Downscaled(s: Word): (so: Word)
    ensures -16384 <= so <= 16380
  {
    Wrap16(s / 8 * 4)
  }

  /**
   * What every reachable memory satisfies: the recursive state lags the scaled input by no more than
   * the input's own range, up to the rounding of its 15 low bits.
   */
  predicate Bounded(m: Memory) {
    && -16384 <= m.z1 <= 16380
    && -(16380 * 32768) - 512 <= m.lz2 - m.z1 * 32768 <= 16384 * 32768 + 512
  }

  /** The memory after one sample, wrapping and saturating where the source does. */
  function Step(m: Memory, s: Word): (next: Memory)
    requires Bounded(m)
    ensures Bounded(next)
  {
    var so := Downscaled(s);
    var s1 := Wrap16(so - m.z1);
    var msp := Wrap16(m.lz2 / 32768);
    var lsp := Wrap16(I32(m.lz2 - msp * 32768));
    var ls2 := I32(s1 * 32768 + MultR(lsp, 32735));
    StepExact(m, s);
    var lz2 := SaturatingAdd32(I32(msp * 32735), ls2);
    Memory(so, lz2, Wrap16(SaturatingAdd32(lz2, 16384) / 32768))
  }

  /** The exact filter, over integers of any size: a leak of 33 parts in 32768 per sample. */
  function ExactState(m: Memory, s: Word): int {
    m.lz2 / 32768 * 32735 + (m.lz2 % 32768 * 32735 + 16384) / 32768 + (Downscaled(s) - m.z1) * 32768
  }

  /** On a bounded memory no difference wraps, no sum saturates, and the bound holds again. */
  lemma StepExact(m: Memory, s: Word)
    requires Bounded(m)
    ensures InI16(Downscaled(s) - m.z1) && InI16(m.lz2 / 32768) && 0 <= m.lz2 % 32768 <= 32767
    ensures MultR(m.lz2 % 32768, 32735) == (m.lz2 % 32768 * 32735 + 16384) / 32768
    ensures -0x4000_0000 < ExactState(m, s) < 0x4000_0000 - 32768
    ensures Bounded(Memory(Downscaled(s), ExactState(m, s), 0))
  {
    var msp: int, lsp: int, so: int := m.lz2 / 32768, m.lz2 % 32768, Downscaled(s);
    assert m.lz2 == msp * 32768 + lsp;
    var rounded := (lsp * 32735 + 16384) / 32768;
    assert lsp * 32735 - 16384 < 32768 * rounded <= lsp * 32735 + 16384;
    var lag, next := m.lz2 - m.z1 * 32768, ExactState(m, s) - so * 32768;
    assert 32735 * lag - 33 * 32768 * m.z1 - 16384 < 32768 * next <= 32735 * lag - 33 * 32768 * m.z1 + 16384;
  }

  /** The source's step is the exact filter, and so is the word it keeps for pre-emphasis. */
  lemma NeverSaturates(m: Memory, s: Word)
    requires Bounded(m)
    ensures Step(m, s).lz2 == ExactState(m, s)
    ensures Step(m, s).mp == (ExactState(m, s) + 16384) / 32768
  {
    StepExact(m, s);
  }

  /** The memory after the first `n` samples. */
  function After(m: Memory, s: seq<Word>, n: nat): (next: Memory)
    requires Bounded(m) && n <= |s|
    ensures Bounded(next)
  {
    if n == 0 then m else Step(After(m, s, n - 1), s[n - 1])
  }

  /** Pre-emphasis of the first `n` samples. */
  function Emphasised(m: Memory, s: seq<Word>, n: nat): (so: seq<Word>)
    requires Bounded(m) && n <= |s|
    ensures |so| == n
  {
    if n == 0 then []
    else
      var before, after := After(m, s, n - 1), After(m, s, n);
      Emphasised(m, s, n - 1) + [Add(after.mp, MultR(before.mp, -28180))]
  }

  /** From silence, whatever the stream, the recursive state stays exact at every sample. */
  lemma StreamNeverSaturates(s: seq<Word>, n: nat)
    requires n < |s|
    ensures After(SILENCE, s, n + 1).lz2 == ExactState(After(SILENCE, s, n), s[n])
    ensures -0x4000_0000 < After(SILENCE, s, n + 1).lz2 < 0x4000_0000
  {
    hide Step;
    StepExact(After(SILENCE, s, n), s[n]);
    NeverSaturates(After(SILENCE, s, n), s[n]);
  }

  /** One pass of the loop body, over the three local copies of the memory. */
  method Sample(z1: Word, lz2: int, mp: Word, s: Word) returns (next: Memory, out: Word)
    requires Bounded(Memory(z1, lz2, mp))
    ensures next == Step(Memory(z1, lz2, mp), s) && out == Add(next.mp, MultR(mp, -28180))
  {
    ghost var before := Memory(z1, lz2, mp);
    StepExact(before, s);
    hide MultR;
    hide Add;
    var so: Word := Wrap16(s / 8 * 4);
    var s1 := Wrap16(so - z1);
    var msp: Word := Wrap16(lz2 / 32768);
    var lsp: Word := Wrap16(I32(lz2 - msp * 32768));
    var ls2 := I32(s1 * 32768 + MultR(lsp, 32735));
    var z2 := SaturatingAdd32(I32(msp * 32735), ls2);
    var temp := SaturatingAdd32(z2, 16384);
    var emphasis := MultR(mp, -28180);
    next := Memory(so, z2, Wrap16(temp / 32768));
    out := Add(next.mp, emphasis);
  }

  method Preprocess(m: Memory, s: seq<Word>) returns (next: Memory, so: seq<Word>)
    requires Bounded(m)
    ensures next == After(m, s, |s|) && so == Emphasised(m, s, |s|)
  {
    hide Bounded;
    hide Step;
    hide Add;
    hide MultR;
    next, so := m, [];
    for k := 0 to |s|
      invariant next == After(m, s, k) && so == Emphasised(m, s, k)
    {
      var out;
      next, out := Sample(next.z1, next.lz2, next.mp, s[k]);
      so := so + [out];
    }
  }
}
