/**
 * Clipping that does not show, and what it can do to the next sample: two concrete runs of the lattice
 * filters of GSM 06.10 (`crates/siphon-rtp-codec/src/gsm_fr.rs`) in which a sample climbs from the bottom
 * of the range to the top, is clipped there, and is synthesised through the bottom again.
 */
module GsmBounce {
  import opened FixedPoint
  import opened GsmMath
  import opened GsmLattice

  lemma BetweenStep(u: seq<Word>, rp: seq<Word>, s: Word, j: nat)
    requires |u| == |rp| == 8 && j < 8
    ensures Between(u, rp, s, 0) == s
    ensures Between(u, rp, s, j + 1) == Add(Between(u, rp, s, j), MultR(rp[j], u[j]))
    ensures StageFits(u, rp, s, j) <==> InI16(Between(u, rp, s, j) as int + MultR(rp[j], u[j]) as int)
  {
    hide MultR;
    hide Add;
    var f := Analysis(u, rp, s, j);
    assert f.u[j] == f.u[j..][0] == u[j];
  }

  /** Only the first four coefficients are not zero. */
  predicate Short(rp: seq<Word>) {
    |rp| == 8 && rp[4] == rp[5] == rp[6] == rp[7] == 0
  }

  lemma ZeroProduct(u: Word)
    ensures MultR(0, u) == 0
  {
  }

  /** The other four stages do nothing. */
  lemma {:induction false} QuietTail(u: seq<Word>, rp: seq<Word>, s: Word, j: nat)
    requires |u| == 8 && Short(rp) && 4 <= j <= 8
    ensures Between(u, rp, s, j) == Between(u, rp, s, 4)
    ensures j < 8 ==> StageFits(u, rp, s, j)
  {
    hide MultR;
    hide Between;
    hide StageFits;
    if j < 8 {
      BetweenStep(u, rp, s, j);
      ZeroProduct(u[j]);
    }
    if j > 4 {
      QuietTail(u, rp, s, j - 1);
      BetweenStep(u, rp, s, j - 1);
      ZeroProduct(u[j - 1]);
    }
  }

  /** One synthesis stage, whatever the delays. */
  lemma SynthesisStep(v: seq<Word>, rp: seq<Word>, w: Word, j: nat)
    requires |v| == 9 && |rp| == 8 && j < 8
    ensures Synthesis(v, rp, w, 8).sri == w
    ensures Synthesis(v, rp, w, j).sri == Sub(Synthesis(v, rp, w, j + 1).sri, MultR(rp[j], v[j]))
  {
    hide MultR;
    hide Add;
    hide Sub;
    var b := Synthesis(v, rp, w, j + 1);
    assert b.v[j] == b.v[..j + 2][j] == v[j];
  }

  lemma {:induction false} QuietStart(v: seq<Word>, rp: seq<Word>, w: Word, j: nat)
    requires |v| == 9 && Short(rp) && 4 <= j <= 8
    ensures Synthesis(v, rp, w, j).sri == w
    decreases 8 - j
  {
    hide MultR;
    hide Synthesis;
    if j < 8 {
      QuietStart(v, rp, w, j + 1);
      ZeroProduct(v[j]);
      SynthesisStep(v, rp, w, j);
    } else {
      SynthesisStep(v, rp, w, 7);
    }
  }

  /** A sample at the bottom whose only clipped sum is that of stage 3, at the top. */
  predicate Climbs(u: seq<Word>, rp: seq<Word>, s: Word)
    requires |u| == |rp| == 8
  {
    && s == -0x8000 && !StageFits(u, rp, s, 3) && Between(u, rp, s, 4) == 0x7FFF
    && StageFits(u, rp, s, 0) && StageFits(u, rp, s, 1) && StageFits(u, rp, s, 2)
  }

  /** The first values of a sample, from the products of its stages. */
  lemma ClimbOf(u: seq<Word>, rp: seq<Word>, s: Word, m0: int, m1: int, m2: int, m3: int)
    requires |u| == |rp| == 8 && MultR(rp[0], u[0]) == m0 && MultR(rp[1], u[1]) == m1
    requires MultR(rp[2], u[2]) == m2 && MultR(rp[3], u[3]) == m3
    requires InI16(s + m0) && InI16(s + m0 + m1) && InI16(s + m0 + m1 + m2)
    ensures Between(u, rp, s, 1) == s + m0 && Between(u, rp, s, 2) == s + m0 + m1
    ensures Between(u, rp, s, 3) == s + m0 + m1 + m2 && Between(u, rp, s, 4) == Saturate(s + m0 + m1 + m2 + m3)
    ensures StageFits(u, rp, s, 0) && StageFits(u, rp, s, 1) && StageFits(u, rp, s, 2)
    ensures StageFits(u, rp, s, 3) <==> InI16(s + m0 + m1 + m2 + m3)
  {
    hide MultR;
    hide Between;
    hide StageFits;
    BetweenStep(u, rp, s, 0);
    BetweenStep(u, rp, s, 1);
    BetweenStep(u, rp, s, 2);
    BetweenStep(u, rp, s, 3);
  }

  lemma ClimbHeals(u: seq<Word>, rp: seq<Word>, s: Word)
    requires |u| == 8 && Short(rp) && Climbs(u, rp, s)
    ensures Healed(u, rp, s) && !Unclipped(u, rp, s)
  {
    hide StageFits;
    hide Between;
    BetweenStep(u, rp, s, 0);
    forall k | 0 <= k < 8 && !StageFits(u, rp, s, k) ensures Bounced(u, rp, s, k) {
      if k >= 4 { QuietTail(u, rp, s, k); }
    }
  }

  lemma LostStep(u: seq<Word>, rp: seq<Word>, s: Word, j: nat)
    requires |u| == |rp| == 8 && j < 8
    ensures var d, sum := Between(u, rp, s, j), Between(u, rp, s, j) as int + MultR(rp[j], u[j]) as int;
            Lost(u, rp, s, j) == d - Saturate(d - (sum - Saturate(sum)) - Lost(u, rp, s, j + 1))
  {
    hide MultR;
    hide Between;
  }

  lemma {:induction false} NothingLost(u: seq<Word>, rp: seq<Word>, s: Word, j: nat)
    requires |u| == 8 && Short(rp) && 4 <= j <= 8
    ensures Lost(u, rp, s, j) == 0
    decreases 8 - j
  {
    hide MultR;
    hide Between;
    hide Lost;
    if j < 8 {
      NothingLost(u, rp, s, j + 1);
      LostStep(u, rp, s, j);
      ZeroProduct(u[j]);
    } else {
      LostEnd(u, rp, s);
    }
  }

  lemma LostEnd(u: seq<Word>, rp: seq<Word>, s: Word)
    requires |u| == |rp| == 8
    ensures Lost(u, rp, s, 8) == 0
  {
  }

  /** A sum clipped by one takes one from every value on the way back, down to the bottom of the range. */
  lemma OneLost(u: seq<Word>, rp: seq<Word>, s: Word)
    requires |u| == 8 && Short(rp) && Climbs(u, rp, s)
    requires Between(u, rp, s, 3) as int + MultR(rp[3], u[3]) as int == 0x8000
    requires forall j :: 1 <= j <= 3 ==> Between(u, rp, s, j) != -0x8000
    ensures Lost(u, rp, s, 0) == 0 && forall j :: 1 <= j <= 3 ==> Lost(u, rp, s, j) == 1
  {
    hide MultR;
    hide Between;
    hide Lost;
    hide StageFits;
    NothingLost(u, rp, s, 4);
    LostStep(u, rp, s, 3);
    BetweenStep(u, rp, s, 2);
    LostStep(u, rp, s, 2);
    BetweenStep(u, rp, s, 1);
    LostStep(u, rp, s, 1);
    BetweenStep(u, rp, s, 0);
    LostStep(u, rp, s, 0);
  }

  // ---- A clipped sample that comes back with its delays -----------------------------------------------

  const RETURN_DELAYS: seq<Word> := [-32768, -32768, -32768, 32767, 0, 0, 0, 0]
  const RETURN_COEFFICIENTS: seq<Word> := [-32767, -8000, -24768, 1, 0, 0, 0, 0]

  lemma ReturnProducts()
    ensures MultR(-32767, -32768) == 32767 && MultR(-8000, -32768) == 8000
    ensures MultR(-24768, -32768) == 24768 && MultR(1, 32767) == MultR(1, 32766) == 1
    ensures MultR(-8000, -1) == MultR(-8000, -2) == 0 && MultR(-24768, 7999) < 0 && MultR(-24768, 7998) < 0
  {
  }

  lemma ReturnValues(u: seq<Word>, rp: seq<Word>)
    requires u == RETURN_DELAYS && rp == RETURN_COEFFICIENTS
    ensures Climbs(u, rp, -32768) && Between(u, rp, -32768, 1) == -1
    ensures Between(u, rp, -32768, 2) == 7999 && Between(u, rp, -32768, 3) == 32767 && MultR(rp[3], u[3]) == 1
  {
    hide MultR;
    hide StageFits;
    hide Between;
    ReturnProducts();
    ClimbOf(u, rp, -32768, 32767, 8000, 24768, 1);
  }

  lemma ReturnDelays(u: seq<Word>, rp: seq<Word>)
    requires u == RETURN_DELAYS && rp == RETURN_COEFFICIENTS
    ensures DelaysSpared(u, rp, -32768)
  {
    hide MultR;
    hide StageFits;
    hide Between;
    hide Lost;
    ReturnProducts();
    ReturnValues(u, rp);
    OneLost(u, rp, -32768);
    BetweenStep(u, rp, -32768, 0);
    forall i | 1 <= i < 8 ensures DelaySpared(u, rp, -32768, i) {
      if i > 4 { NothingLost(u, rp, -32768, i - 1); }
    }
  }

  /** A clipped sum need not show, neither in the sample nor in the delays. */
  lemma ClippedCanReturn()
    ensures var u, rp := RETURN_DELAYS, RETURN_COEFFICIENTS;
            var v: seq<Word> := u + [0];
            && !Unclipped(u, rp, -32768) && Output(v, rp, Residual(u, rp, -32768)) == -32768
            && NextV(v, rp, Residual(u, rp, -32768))[..8] == NextU(u, rp, -32768)
  {
    var u, rp := RETURN_DELAYS, RETURN_COEFFICIENTS;
    Returns(u, rp);
  }

  lemma Returns(u: seq<Word>, rp: seq<Word>)
    requires u == RETURN_DELAYS && rp == RETURN_COEFFICIENTS
    ensures !Unclipped(u, rp, -32768) && Output(u + [0], rp, Residual(u, rp, -32768)) == -32768
    ensures NextV(u + [0], rp, Residual(u, rp, -32768))[..8] == NextU(u, rp, -32768)
  {
    hide Climbs;
    hide Healed;
    hide DelaysSpared;
    hide Unclipped;
    hide Output;
    hide NextU;
    hide NextV;
    hide Residual;
    ReturnValues(u, rp);
    ReturnDelays(u, rp);
    ClimbHeals(u, rp, -32768);
    SampleInStepIff(u, u + [0], rp, -32768);
  }

  // ---- A clipped sample that comes back and spoils the next one ---------------------------------------

  const SPOIL_DELAYS: seq<Word> := [-32768, -32768, -8000, 32767, 0, 0, 0, 0]
  const SPOIL_COEFFICIENTS: seq<Word> := [-32767, -24768, -32767, 1, 0, 0, 0, 0]

  lemma SpoilProducts()
    ensures MultR(-32767, -32768) == 32767 && MultR(-24768, -32768) == 24768 && MultR(-32767, -8000) == 8000
    ensures MultR(1, 32767) == 1 && MultR(-24768, -1) == 1 && MultR(-24768, -2) == 2
    ensures MultR(-32767, 24767) == -24766 && MultR(-32767, 24766) == -24765
    ensures MultR(-32767, -32767) == 32766 && MultR(-32767, -32766) == 32765
    ensures MultR(1, -32766) == MultR(1, -32765) == -1
  {
  }

  lemma SpoilValues(u: seq<Word>, rp: seq<Word>)
    requires u == SPOIL_DELAYS && rp == SPOIL_COEFFICIENTS
    ensures Climbs(u, rp, -32768) && Between(u, rp, -32768, 0) == -32768 && Between(u, rp, -32768, 1) == -1
    ensures Between(u, rp, -32768, 2) == 24767 && Between(u, rp, -32768, 3) == 32767 && MultR(rp[3], u[3]) == 1
  {
    hide MultR;
    hide StageFits;
    hide Between;
    SpoilProducts();
    ClimbOf(u, rp, -32768, 32767, 24768, 8000, 1);
    BetweenStep(u, rp, -32768, 0);
  }

  /** The delays both sides have after the clipped sample. */
  lemma SpoiledDelays(u: seq<Word>, v: seq<Word>, rp: seq<Word>)
    requires u == SPOIL_DELAYS && rp == SPOIL_COEFFICIENTS && |v| == 9 && v[..8] == u
    ensures Output(v, rp, Residual(u, rp, -32768)) == -32768
    ensures NextU(u, rp, -32768)[..4] == [-32768, -1, -32767, -32766]
    ensures NextV(v, rp, Residual(u, rp, -32768))[..4] == [-32768, -1, -32766, -32765]
  {
    hide MultR;
    hide StageFits;
    hide Between;
    hide Healed;
    hide Lost;
    hide NextU;
    hide Synthesis;
    SpoilProducts();
    SpoilValues(u, rp);
    ClimbHeals(u, rp, -32768);
    SampleInverseIff(u, v, rp, -32768);
    OneLost(u, rp, -32768);
    SpoiledDelay(u, v, rp, -32768, 0);
    SpoiledDelay(u, v, rp, -32768, 1);
    SpoiledDelay(u, v, rp, -32768, 2);
  }

  lemma SpoiledDelay(u: seq<Word>, v: seq<Word>, rp: seq<Word>, s: Word, j: nat)
    requires |u| == |rp| == 8 && |v| == 9 && v[..8] == u && j < 7
    ensures NextU(u, rp, s)[0] == s
    ensures NextU(u, rp, s)[j + 1] == Add(u[j], MultR(rp[j], Between(u, rp, s, j)))
    ensures NextV(v, rp, Residual(u, rp, s))[j + 1]
         == Add(u[j], MultR(rp[j], Between(u, rp, s, j) - Lost(u, rp, s, j)))
  {
    hide MultR;
    hide Add;
    hide Between;
    hide NextU;
    hide Lost;
    SavedDelay(u, rp, s, j);
    StoredDelay(u, v, rp, s, j, 0);
    RecoveredLacks(u, v, rp, s, j);
  }

  /** The next sample is not clipped, and is off by one all the same. */
  lemma SpoiledNext(u: seq<Word>, v: seq<Word>, rp: seq<Word>)
    requires |u| == 8 && |v| == 9 && rp == SPOIL_COEFFICIENTS
    requires u[..4] == [-32768, -1, -32767, -32766] && v[..4] == [-32768, -1, -32766, -32765]
    ensures Unclipped(u, rp, -32768) && Output(v, rp, Residual(u, rp, -32768)) == -32767
  {
    hide MultR;
    hide StageFits;
    hide Between;
    hide Synthesis;
    SpoilProducts();
    assert forall i :: 0 <= i < 4 ==> u[i] == u[..4][i] && v[i] == v[..4][i];
    ClimbOf(u, rp, -32768, 32767, 1, 32766, -1);
    forall k | 4 <= k < 8 ensures StageFits(u, rp, -32768, k) { QuietTail(u, rp, -32768, k); }
    QuietTail(u, rp, -32768, 8);
    ResidualIsLast(u, rp, -32768);
    QuietStart(v, rp, 32765, 4);
    SynthesisStep(v, rp, 32765, 3);
    SynthesisStep(v, rp, 32765, 2);
    SynthesisStep(v, rp, 32765, 1);
    SynthesisStep(v, rp, 32765, 0);
  }

  lemma ResidualIsLast(u: seq<Word>, rp: seq<Word>, s: Word)
    requires |u| == |rp| == 8
    ensures Residual(u, rp, s) == Between(u, rp, s, 8)
  {
  }

  /**
   * Why the samples of a frame need the condition on the delays: both samples of this one heal, the second
   * is not clipped at all, and it does not come back.
   */
  lemma HealedCanSpoil(v: seq<Word>, rps: seq<seq<Word>>, s: seq<Word>)
    requires |v| == 9 && v[..8] == SPOIL_DELAYS && Regions(rps) && rps[0] == SPOIL_COEFFICIENTS
    requires s == [-32768, -32768]
    ensures var u := SPOIL_DELAYS;
            && HealedAt(u, rps, s, 0) && HealedAt(u, rps, s, 1) && Unclipped(Delays(u, rps, s, 1), rps[0], s[1])
            && Outputs(v, rps, Residuals(u, rps, s, 2), 2) == [-32768, -32767]
  {
    Spoils(SPOIL_DELAYS, v, rps, s);
  }

  lemma Spoils(u: seq<Word>, v: seq<Word>, rps: seq<seq<Word>>, s: seq<Word>)
    requires u == SPOIL_DELAYS && |v| == 9 && v[..8] == u && Regions(rps) && rps[0] == SPOIL_COEFFICIENTS
    requires s == [-32768, -32768]
    ensures HealedAt(u, rps, s, 0) && HealedAt(u, rps, s, 1) && Unclipped(Delays(u, rps, s, 1), rps[0], s[1])
    ensures Outputs(v, rps, Residuals(u, rps, s, 2), 2) == [-32768, -32767]
  {
    hide Climbs;
    hide StageFits;
    hide Output;
    hide NextU;
    hide NextV;
    hide Residual;
    hide Bounced;
    var rp := rps[0];
    SpoilValues(u, rp);
    ClimbHeals(u, rp, -32768);
    SpoiledDelays(u, v, rp);
    SpoiledNext(NextU(u, rp, -32768), NextV(v, rp, Residual(u, rp, -32768)), rp);
    TwoSamples(u, v, rps, s);
  }

  lemma TwoSamples(u: seq<Word>, v: seq<Word>, rps: seq<seq<Word>>, s: seq<Word>)
    requires |u| == 8 && |v| == 9 && Regions(rps) && |s| == 2
    ensures Delays(u, rps, s, 0) == u && Delays(u, rps, s, 1) == NextU(u, rps[0], s[0])
    ensures var rp, w := rps[0], Residual(u, rps[0], s[0]);
            Outputs(v, rps, Residuals(u, rps, s, 2), 2)
            == [Output(v, rp, w), Output(NextV(v, rp, w), rp, Residual(NextU(u, rp, s[0]), rp, s[1]))]
  {
    hide Output;
    hide NextU;
    hide NextV;
    hide Residual;
    hide Delays;
    hide SynthesisDelays;
    hide Residuals;
    hide Outputs;
    var d := Residuals(u, rps, s, 2);
    ResidualAt(u, rps, s, 0, 2);
    ResidualAt(u, rps, s, 1, 2);
    OutputAt(v, rps, d, 0, 2);
    OutputAt(v, rps, d, 1, 2);
    FirstDelays(u, rps, s);
    FirstSynthesisDelays(v, rps, d);
  }

  lemma FirstDelays(u: seq<Word>, rps: seq<seq<Word>>, s: seq<Word>)
    requires |u| == 8 && Regions(rps) && |s| > 0
    ensures Delays(u, rps, s, 0) == u && Delays(u, rps, s, 1) == NextU(u, rps[0], s[0])
  {
    hide NextU;
  }

  lemma FirstSynthesisDelays(v: seq<Word>, rps: seq<seq<Word>>, w: seq<Word>)
    requires |v| == 9 && Regions(rps) && |w| > 0
    ensures SynthesisDelays(v, rps, w, 0) == v && SynthesisDelays(v, rps, w, 1) == NextV(v, rps[0], w[0])
  {
    hide NextV;
  }
}
