/**
 * The short-term lattice filters of GSM 06.10 (sections 4.2.10 and 4.3.4;
 * `crates/siphon-rtp-codec/src/gsm_fr.rs`), each run over a frame in four coefficient regions. Both
 * round every product. The main results say exactly when the synthesis lattice undoes the analysis
 * lattice, for one sample and over a frame, sample for sample and state for state: always when no
 * residual sum is clipped, and otherwise when each clipped sum has come from the other end of the range.
 */
module GsmLattice {
  import opened FixedPoint
  import opened GsmMath

  // ---- One sample -------------------------------------------------------------------------------------

  /** Inside the analysis of a sample: the delays, the forward residual and the value to store next. */
  datatype Forward = Forward(u: seq<Word>, di: Word, sav: Word)

  /** After the first `i` analysis stages. */
  function Analysis(u: seq<Word>, rp: seq<Word>, s: Word, i: nat): (f: Forward)
    requires |u| == |rp| == 8 && i <= 8
    ensures |f.u| == 8 && f.u[i..] == u[i..]
  {
    hide MultR;
    hide Add;
    if i == 0 then Forward(u, s, s)
    else
      var f := Analysis(u, rp, s, i - 1);
      var ui := f.u[i - 1];
      Forward(f.u[i - 1 := f.sav], Add(f.di, MultR(rp[i - 1], ui)), Add(ui, MultR(rp[i - 1], f.di)))
  }

  datatype Backward = Backward(v: seq<Word>, sri: Word)

  /** After the synthesis stages 7 down to `i`. */
  function Synthesis(v: seq<Word>, rp: seq<Word>, w: Word, i: nat): (b: Backward)
    requires |v| == 9 && |rp| == 8 && i <= 8
    ensures |b.v| == 9 && b.v[..i + 1] == v[..i + 1]
    decreases 8 - i
  {
    hide MultR;
    hide Add;
    hide Sub;
    if i == 8 then Backward(v, w)
    else
      var b := Synthesis(v, rp, w, i + 1);
      var sri := Sub(b.sri, MultR(rp[i], b.v[i]));
      Backward(b.v[i + 1 := Add(b.v[i], MultR(rp[i], sri))], sri)
  }

  /** The residual of a sample and the delays it leaves. */
  function Residual(u: seq<Word>, rp: seq<Word>, s: Word): Word
    requires |u| == |rp| == 8
  {
    Analysis(u, rp, s, 8).di
  }

  function NextU(u: seq<Word>, rp: seq<Word>, s: Word): (next: seq<Word>)
    requires |u| == |rp| == 8
    ensures |next| == 8
  {
    Analysis(u, rp, s, 8).u
  }

  function Output(v: seq<Word>, rp: seq<Word>, w: Word): Word
    requires |v| == 9 && |rp| == 8
  {
    Synthesis(v, rp, w, 0).sri
  }

  function NextV(v: seq<Word>, rp: seq<Word>, w: Word): (next: seq<Word>)
    requires |v| == 9 && |rp| == 8
    ensures |next| == 9
  {
    var b := Synthesis(v, rp, w, 0);
    b.v[0 := b.sri]
  }

  /** No residual sum of this sample leaves 16 bits. */
  predicate Unclipped(u: seq<Word>, rp: seq<Word>, s: Word)
    requires |u| == |rp| == 8
  {
    forall i :: 0 <= i < 8 ==> StageFits(u, rp, s, i)
  }

  predicate StageFits(u: seq<Word>, rp: seq<Word>, s: Word, i: nat)
    requires |u| == |rp| == 8 && i < 8
  {
    InI16(Analysis(u, rp, s, i).di + MultR(rp[i], u[i]))
  }

  /** A single stage is undone exactly when its sum was not clipped. */
  lemma StageInverseIff(d: Word, m: Word)
    requires m != -0x8000
    ensures Sub(Add(d, m), m) == d <==> InI16(d + m)
  {
  }

  /** Rounding never yields the one word whose negation does not fit. */
  lemma ProductNotMinimum(a: Word, b: Word)
    ensures MultR(a, b) != -0x8000
  {
    if a != -0x8000 || b != -0x8000 { LowerProduct(a, b); }
  }

  lemma LowerProduct(a: Word, b: Word)
    requires a != -0x8000 || b != -0x8000
    ensures a * b >= -0x8000 * 0x7FFF
  {
    if a >= 0 {
      assert a * b >= a * -0x8000;
    } else if b >= 0 {
      assert a * b >= -0x8000 * b;
    } else {
      assert a * b >= 0;
    }
  }

  /** What synthesis has recovered after stage `i`, for delays that match the analysis. */
  lemma {:induction false} SynthesisRecovers(u: seq<Word>, v: seq<Word>, rp: seq<Word>, s: Word, i: nat)
    requires |u| == |rp| == 8 && |v| == 9 && v[..8] == u && Unclipped(u, rp, s) && i <= 8
    ensures var b := Synthesis(v, rp, Residual(u, rp, s), i);
            && b.sri == Analysis(u, rp, s, i).di
            && forall j :: i < j < 8 ==> b.v[j] == Analysis(u, rp, s, j).sav
    decreases 8 - i
  {
    hide MultR;
    if i < 8 {
      SynthesisRecovers(u, v, rp, s, i + 1);
      var f, b := Analysis(u, rp, s, i), Synthesis(v, rp, Residual(u, rp, s), i + 1);
      assert b.v[i] == b.v[..i + 2][i] == v[i] == v[..8][i] == u[i];
      assert f.u[i] == f.u[i..][0] == u[i];
      assert StageFits(u, rp, s, i);
      ProductNotMinimum(rp[i], u[i]);
      StageInverseIff(f.di, MultR(rp[i], u[i]));
    }
  }

  /** The delays an analysed sample leaves are the values its stages saved. */
  lemma {:induction false} SavedDelays(u: seq<Word>, rp: seq<Word>, s: Word, j: nat, i: nat)
    requires |u| == |rp| == 8 && j < i <= 8
    ensures Analysis(u, rp, s, i).u[j] == Analysis(u, rp, s, j).sav
  {
    hide Add;
    hide MultR;
    if j < i - 1 { SavedDelays(u, rp, s, j, i - 1); }
  }

  /** One sample there and back: the sample, and the same delays on both sides. */
  lemma SampleInverse(u: seq<Word>, v: seq<Word>, rp: seq<Word>, s: Word)
    requires |u| == |rp| == 8 && |v| == 9 && v[..8] == u && Unclipped(u, rp, s)
    ensures Output(v, rp, Residual(u, rp, s)) == s
    ensures NextV(v, rp, Residual(u, rp, s))[..8] == NextU(u, rp, s)
  {
    hide Synthesis;
    SynthesisRecovers(u, v, rp, s, 0);
    var next := NextV(v, rp, Residual(u, rp, s));
    forall j | 0 <= j < 8 ensures next[j] == NextU(u, rp, s)[j] {
      SavedDelays(u, rp, s, j, 8);
    }
  }

  // ---- Clipping, exactly -------------------------------------------------------------------------------

  /** A value between the stages of an analysed sample, the sample itself at 0 and the residual at 8. */
  function Between(u: seq<Word>, rp: seq<Word>, s: Word, j: nat): Word
    requires |u| == |rp| == 8 && j <= 8
  {
    Analysis(u, rp, s, j).di
  }

  /** The end of the 16-bit range opposite to the one a clipped value is at. */
  function OtherEnd(d: Word): Word {
    if d == 0x7FFF then -0x8000 else 0x7FFF
  }

  /** Some value up to stage `k` was at the end of the range opposite to the value after that stage. */
  predicate Bounced(u: seq<Word>, rp: seq<Word>, s: Word, k: nat)
    requires |u| == |rp| == 8 && k < 8
  {
    exists j :: 0 <= j <= k && Between(u, rp, s, j) == OtherEnd(Between(u, rp, s, k + 1))
  }

  /** Every clipped sum has come all the way from the other end of the range. */
  predicate Healed(u: seq<Word>, rp: seq<Word>, s: Word)
    requires |u| == |rp| == 8
  {
    forall k :: 0 <= k < 8 && !StageFits(u, rp, s, k) ==> Bounced(u, rp, s, k)
  }

  /** The synthesised value where the analysis had `Between`. */
  function Recovered(u: seq<Word>, v: seq<Word>, rp: seq<Word>, s: Word, j: nat): Word
    requires |u| == |rp| == 8 && |v| == 9 && j <= 8
  {
    Synthesis(v, rp, Residual(u, rp, s), j).sri
  }

  /** One synthesis stage, for delays that match the analysis. */
  lemma RecoveredStep(u: seq<Word>, v: seq<Word>, rp: seq<Word>, s: Word, j: nat)
    requires |u| == |rp| == 8 && |v| == 9 && v[..8] == u && j < 8
    ensures Recovered(u, v, rp, s, j) == Sub(Recovered(u, v, rp, s, j + 1), MultR(rp[j], u[j]))
    ensures Between(u, rp, s, j + 1) == Add(Between(u, rp, s, j), MultR(rp[j], u[j]))
    ensures MultR(rp[j], u[j]) != -0x8000
  {
    hide MultR;
    hide Add;
    hide Sub;
    var f, b := Analysis(u, rp, s, j), Synthesis(v, rp, Residual(u, rp, s), j + 1);
    assert b.v[j] == b.v[..j + 2][j] == v[j] == v[..8][j] == u[j];
    assert f.u[j] == f.u[j..][0] == u[j];
    ProductNotMinimum(rp[j], u[j]);
  }

  /** How a synthesised value compares with the analysed one, from how the stage above compares. */
  lemma StageOrder(d: Word, m: Word, r: Word)
    requires m != -0x8000
    ensures Sub(r, m) < d <==> d != -0x8000 && (r < Add(d, m) || d as int + m as int > 0x7FFF)
    ensures Sub(r, m) > d <==> d != 0x7FFF && (r > Add(d, m) || d as int + m as int < -0x8000)
  {
  }

  /** The sum of stage `k` was clipped at the top, and no value from `i` to `k` is at the bottom. */
  ghost predicate ShortFrom(u: seq<Word>, rp: seq<Word>, s: Word, i: nat, k: nat)
    requires |u| == |rp| == 8
  {
    && i <= k < 8 && !StageFits(u, rp, s, k) && Between(u, rp, s, k + 1) == 0x7FFF
    && forall j :: i <= j <= k ==> Between(u, rp, s, j) != -0x8000
  }

  /** The mirror image: clipped at the bottom, and nothing at the top. */
  ghost predicate OverFrom(u: seq<Word>, rp: seq<Word>, s: Word, i: nat, k: nat)
    requires |u| == |rp| == 8
  {
    && i <= k < 8 && !StageFits(u, rp, s, k) && Between(u, rp, s, k + 1) == -0x8000
    && forall j :: i <= j <= k ==> Between(u, rp, s, j) != 0x7FFF
  }

  ghost predicate FallsShort(u: seq<Word>, rp: seq<Word>, s: Word, i: nat)
    requires |u| == |rp| == 8
  {
    exists k: nat :: ShortFrom(u, rp, s, i, k)
  }

  ghost predicate Overshoots(u: seq<Word>, rp: seq<Word>, s: Word, i: nat)
    requires |u| == |rp| == 8
  {
    exists k: nat :: OverFrom(u, rp, s, i, k)
  }

  lemma ClippedAtEnd(u: seq<Word>, rp: seq<Word>, s: Word, i: nat)
    requires |u| == |rp| == 8 && i < 8
    ensures var sum := Between(u, rp, s, i) as int + MultR(rp[i], u[i]) as int;
            && (sum > 0x7FFF <==> !StageFits(u, rp, s, i) && Between(u, rp, s, i + 1) == 0x7FFF)
            && (sum < -0x8000 <==> !StageFits(u, rp, s, i) && Between(u, rp, s, i + 1) == -0x8000)
            && (sum > 0x7FFF || sum < -0x8000 || StageFits(u, rp, s, i))
  {
    hide MultR;
    var f := Analysis(u, rp, s, i);
    assert f.u[i] == f.u[i..][0] == u[i];
  }

  lemma ShortStep(u: seq<Word>, rp: seq<Word>, s: Word, i: nat)
    requires |u| == |rp| == 8 && i < 8
    ensures FallsShort(u, rp, s, i)
       <==> Between(u, rp, s, i) != -0x8000
            && (FallsShort(u, rp, s, i + 1)
                || (!StageFits(u, rp, s, i) && Between(u, rp, s, i + 1) == 0x7FFF))
  {
    hide StageFits;
    hide Between;
    if Between(u, rp, s, i) != -0x8000 {
      if FallsShort(u, rp, s, i + 1) {
        var k: nat :| ShortFrom(u, rp, s, i + 1, k);
        assert ShortFrom(u, rp, s, i, k);
      }
      if !StageFits(u, rp, s, i) && Between(u, rp, s, i + 1) == 0x7FFF {
        assert ShortFrom(u, rp, s, i, i);
      }
    }
    if FallsShort(u, rp, s, i) {
      var k: nat :| ShortFrom(u, rp, s, i, k);
      assert k != i ==> ShortFrom(u, rp, s, i + 1, k);
    }
  }

  lemma OverStep(u: seq<Word>, rp: seq<Word>, s: Word, i: nat)
    requires |u| == |rp| == 8 && i < 8
    ensures Overshoots(u, rp, s, i)
       <==> Between(u, rp, s, i) != 0x7FFF
            && (Overshoots(u, rp, s, i + 1)
                || (!StageFits(u, rp, s, i) && Between(u, rp, s, i + 1) == -0x8000))
  {
    hide StageFits;
    hide Between;
    if Between(u, rp, s, i) != 0x7FFF {
      if Overshoots(u, rp, s, i + 1) {
        var k: nat :| OverFrom(u, rp, s, i + 1, k);
        assert OverFrom(u, rp, s, i, k);
      }
      if !StageFits(u, rp, s, i) && Between(u, rp, s, i + 1) == -0x8000 {
        assert OverFrom(u, rp, s, i, i);
      }
    }
    if Overshoots(u, rp, s, i) {
      var k: nat :| OverFrom(u, rp, s, i, k);
      assert k != i ==> OverFrom(u, rp, s, i + 1, k);
    }
  }

  /**
   * From the residual down: the synthesis is below the analysis exactly while a clip at the top has met
   * no value at the bottom since, and above it exactly in the mirror case.
   */
  lemma {:induction false} RecoveredOrder(u: seq<Word>, v: seq<Word>, rp: seq<Word>, s: Word, i: nat)
    requires |u| == |rp| == 8 && |v| == 9 && v[..8] == u && i <= 8
    ensures Recovered(u, v, rp, s, i) < Between(u, rp, s, i) <==> FallsShort(u, rp, s, i)
    ensures Recovered(u, v, rp, s, i) > Between(u, rp, s, i) <==> Overshoots(u, rp, s, i)
    decreases 8 - i
  {
    hide MultR;
    hide Add;
    hide Sub;
    hide StageFits;
    hide Recovered;
    hide Between;
    if i == 8 {
      TopAgrees(u, v, rp, s);
    } else {
      RecoveredOrder(u, v, rp, s, i + 1);
      RecoveredStep(u, v, rp, s, i);
      StageOrder(Between(u, rp, s, i), MultR(rp[i], u[i]), Recovered(u, v, rp, s, i + 1));
      ClippedAtEnd(u, rp, s, i);
      ShortStep(u, rp, s, i);
      OverStep(u, rp, s, i);
    }
  }

  lemma TopAgrees(u: seq<Word>, v: seq<Word>, rp: seq<Word>, s: Word)
    requires |u| == |rp| == 8 && |v| == 9
    ensures Recovered(u, v, rp, s, 8) == Between(u, rp, s, 8)
  {
  }

  /** Nothing is lost at the sample exactly when every clip has bounced. */
  lemma HealedIff(u: seq<Word>, rp: seq<Word>, s: Word)
    requires |u| == |rp| == 8
    ensures Healed(u, rp, s) <==> !FallsShort(u, rp, s, 0) && !Overshoots(u, rp, s, 0)
  {
    hide StageFits;
    hide Between;
    forall k | 0 <= k < 8 && !StageFits(u, rp, s, k)
      ensures Bounced(u, rp, s, k) <==> !ShortFrom(u, rp, s, 0, k) && !OverFrom(u, rp, s, 0, k)
    {
      ClippedAtEnd(u, rp, s, k);
    }
  }

  /**
   * The exact condition for one sample, whatever the delays and the coefficients: it comes back if and
   * only if every clipped sum had come from the other end of the range. The synthesis then saturates at
   * that end and is right again from there on.
   */
  lemma SampleInverseIff(u: seq<Word>, v: seq<Word>, rp: seq<Word>, s: Word)
    requires |u| == |rp| == 8 && |v| == 9 && v[..8] == u
    ensures Output(v, rp, Residual(u, rp, s)) == s <==> Healed(u, rp, s)
  {
    hide Synthesis;
    hide Healed;
    hide FallsShort;
    hide Overshoots;
    RecoveredOrder(u, v, rp, s, 0);
    HealedIff(u, rp, s);
  }

  /**
   * What clipping has taken from a value by the time the synthesis is back at it: what the stage cut off
   * and what was missing above it, except for what saturation gives back.
   */
  function Lost(u: seq<Word>, rp: seq<Word>, s: Word, j: nat): (lost: int)
    requires |u| == |rp| == 8 && j <= 8
    ensures InI16(Between(u, rp, s, j) - lost)
    decreases 8 - j
  {
    var d: int := Between(u, rp, s, j);
    if j == 8 then 0
    else
      var sum := d + MultR(rp[j], u[j]);
      d - Saturate(d - (sum - Saturate(sum)) - Lost(u, rp, s, j + 1))
  }

  lemma {:induction false} RecoveredLacks(u: seq<Word>, v: seq<Word>, rp: seq<Word>, s: Word, i: nat)
    requires |u| == |rp| == 8 && |v| == 9 && v[..8] == u && i <= 8
    ensures Recovered(u, v, rp, s, i) == Between(u, rp, s, i) - Lost(u, rp, s, i)
    decreases 8 - i
  {
    hide MultR;
    hide Recovered;
    hide Between;
    if i == 8 {
      TopAgrees(u, v, rp, s);
    } else {
      RecoveredLacks(u, v, rp, s, i + 1);
      RecoveredStep(u, v, rp, s, i);
    }
  }

  /** The values that go into the next delays are the same with and without what was lost. */
  predicate DelaysSpared(u: seq<Word>, rp: seq<Word>, s: Word)
    requires |u| == |rp| == 8
  {
    forall i :: 1 <= i < 8 ==> DelaySpared(u, rp, s, i)
  }

  predicate DelaySpared(u: seq<Word>, rp: seq<Word>, s: Word, i: nat)
    requires |u| == |rp| == 8 && 1 <= i < 8
  {
    var d := Between(u, rp, s, i - 1);
    Add(u[i - 1], MultR(rp[i - 1], d - Lost(u, rp, s, i - 1))) == Add(u[i - 1], MultR(rp[i - 1], d))
  }

  lemma {:induction false} StoredDelay(u: seq<Word>, v: seq<Word>, rp: seq<Word>, s: Word, j: nat, i: nat)
    requires |u| == |rp| == 8 && |v| == 9 && v[..8] == u && i <= j < 7
    ensures Synthesis(v, rp, Residual(u, rp, s), i).v[j + 1] == Add(u[j], MultR(rp[j], Recovered(u, v, rp, s, j)))
    decreases j - i
  {
    hide MultR;
    hide Add;
    hide Sub;
    if i < j {
      StoredDelay(u, v, rp, s, j, i + 1);
    } else {
      var b := Synthesis(v, rp, Residual(u, rp, s), j + 1);
      assert b.v[j] == b.v[..j + 2][j] == v[j] == v[..8][j] == u[j];
    }
  }

  lemma SavedDelay(u: seq<Word>, rp: seq<Word>, s: Word, j: nat)
    requires |u| == |rp| == 8 && j < 7
    ensures NextU(u, rp, s)[0] == s
    ensures NextU(u, rp, s)[j + 1] == Add(u[j], MultR(rp[j], Between(u, rp, s, j)))
  {
    hide MultR;
    hide Add;
    SavedDelays(u, rp, s, 0, 8);
    SavedDelays(u, rp, s, j + 1, 8);
    var f := Analysis(u, rp, s, j);
    assert f.u[j] == f.u[j..][0] == u[j];
  }

  lemma DelaySparedIff(u: seq<Word>, v: seq<Word>, rp: seq<Word>, s: Word, i: nat)
    requires |u| == |rp| == 8 && |v| == 9 && v[..8] == u && 1 <= i < 8
    ensures NextV(v, rp, Residual(u, rp, s))[i] == NextU(u, rp, s)[i] <==> DelaySpared(u, rp, s, i)
  {
    hide MultR;
    hide Add;
    hide Analysis;
    hide Synthesis;
    hide NextU;
    hide Lost;
    StoredDelay(u, v, rp, s, i - 1, 0);
    SavedDelay(u, rp, s, i - 1);
    RecoveredLacks(u, v, rp, s, i - 1);
  }

  /** One sample there and back, sample and delays: exactly when it heals and spares the delays. */
  lemma SampleInStepIff(u: seq<Word>, v: seq<Word>, rp: seq<Word>, s: Word)
    requires |u| == |rp| == 8 && |v| == 9 && v[..8] == u
    ensures Output(v, rp, Residual(u, rp, s)) == s && NextV(v, rp, Residual(u, rp, s))[..8] == NextU(u, rp, s)
       <==> Healed(u, rp, s) && DelaysSpared(u, rp, s)
  {
    hide Healed;
    hide DelaySpared;
    hide Synthesis;
    hide NextU;
    SampleInverseIff(u, v, rp, s);
    SavedDelay(u, rp, s, 0);
    var next, saved := NextV(v, rp, Residual(u, rp, s)), NextU(u, rp, s);
    forall i | 1 <= i < 8 ensures next[i] == saved[i] <==> DelaySpared(u, rp, s, i) {
      DelaySparedIff(u, v, rp, s, i);
    }
    assert next[..8] == saved <==> forall i :: 0 <= i < 8 ==> next[i] == saved[i];
  }

  // ---- A frame ------------------------------------------------------------------------------------------

  /** The region of a sample: 0 to 12, 13 to 26, 27 to 39, and the rest. */
  function RegionOf(k: nat): (r: nat)
    ensures r < 4
  {
    if k < 13 then 0 else if k < 27 then 1 else if k < 40 then 2 else 3
  }

  /** Coefficients of the four regions. */
  predicate Regions(rps: seq<seq<Word>>) {
    |rps| == 4 && forall i :: 0 <= i < 4 ==> |rps[i]| == 8
  }

  function Delays(u: seq<Word>, rps: seq<seq<Word>>, s: seq<Word>, n: nat): (next: seq<Word>)
    requires |u| == 8 && Regions(rps) && n <= |s|
    ensures |next| == 8
  {
    if n == 0 then u else NextU(Delays(u, rps, s, n - 1), rps[RegionOf(n - 1)], s[n - 1])
  }

  function Residuals(u: seq<Word>, rps: seq<seq<Word>>, s: seq<Word>, n: nat): (d: seq<Word>)
    requires |u| == 8 && Regions(rps) && n <= |s|
    ensures |d| == n
  {
    if n == 0 then []
    else Residuals(u, rps, s, n - 1) + [Residual(Delays(u, rps, s, n - 1), rps[RegionOf(n - 1)], s[n - 1])]
  }

  function SynthesisDelays(v: seq<Word>, rps: seq<seq<Word>>, w: seq<Word>, n: nat): (next: seq<Word>)
    requires |v| == 9 && Regions(rps) && n <= |w|
    ensures |next| == 9
  {
    if n == 0 then v else NextV(SynthesisDelays(v, rps, w, n - 1), rps[RegionOf(n - 1)], w[n - 1])
  }

  function Outputs(v: seq<Word>, rps: seq<seq<Word>>, w: seq<Word>, n: nat): (s: seq<Word>)
    requires |v| == 9 && Regions(rps) && n <= |w|
    ensures |s| == n
  {
    if n == 0 then []
    else Outputs(v, rps, w, n - 1) + [Output(SynthesisDelays(v, rps, w, n - 1), rps[RegionOf(n - 1)], w[n - 1])]
  }

  predicate HealedAt(u: seq<Word>, rps: seq<seq<Word>>, s: seq<Word>, k: nat)
    requires |u| == 8 && Regions(rps) && k < |s|
  {
    Healed(Delays(u, rps, s, k), rps[RegionOf(k)], s[k])
  }

  predicate SparedAt(u: seq<Word>, rps: seq<seq<Word>>, s: seq<Word>, k: nat)
    requires |u| == 8 && Regions(rps) && k < |s|
  {
    DelaysSpared(Delays(u, rps, s, k), rps[RegionOf(k)], s[k])
  }

  /** Each of the first `n` samples heals and spares the delays. */
  predicate FrameKept(u: seq<Word>, rps: seq<seq<Word>>, s: seq<Word>, n: nat)
    requires |u| == 8 && Regions(rps) && n <= |s|
  {
    forall k :: 0 <= k < n ==> HealedAt(u, rps, s, k) && SparedAt(u, rps, s, k)
  }

  predicate FrameUnclipped(u: seq<Word>, rps: seq<seq<Word>>, s: seq<Word>, n: nat)
    requires |u| == 8 && Regions(rps) && n <= |s|
  {
    forall k :: 0 <= k < n ==> Unclipped(Delays(u, rps, s, k), rps[RegionOf(k)], s[k])
  }

  lemma UnclippedIsKept(u: seq<Word>, rps: seq<seq<Word>>, s: seq<Word>, n: nat)
    requires |u| == 8 && Regions(rps) && n <= |s| && FrameUnclipped(u, rps, s, n)
    ensures FrameKept(u, rps, s, n)
  {
    hide Unclipped;
    hide Healed;
    hide DelaysSpared;
    hide Delays;
    hide NextU;
    hide NextV;
    forall k | 0 <= k < n ensures HealedAt(u, rps, s, k) && SparedAt(u, rps, s, k) {
      var delays := Delays(u, rps, s, k);
      SampleInverse(delays, delays + [0], rps[RegionOf(k)], s[k]);
      SampleInStepIff(delays, delays + [0], rps[RegionOf(k)], s[k]);
    }
  }

  lemma {:induction false} ResidualAt(u: seq<Word>, rps: seq<seq<Word>>, s: seq<Word>, k: nat, n: nat)
    requires |u| == 8 && Regions(rps) && k < n <= |s|
    ensures Residuals(u, rps, s, n)[k] == Residual(Delays(u, rps, s, k), rps[RegionOf(k)], s[k])
  {
    hide Residual;
    hide Delays;
    if k < n - 1 { ResidualAt(u, rps, s, k, n - 1); }
  }

  lemma {:induction false} OutputAt(v: seq<Word>, rps: seq<seq<Word>>, w: seq<Word>, k: nat, n: nat)
    requires |v| == 9 && Regions(rps) && k < n <= |w|
    ensures Outputs(v, rps, w, n)[k] == Output(SynthesisDelays(v, rps, w, k), rps[RegionOf(k)], w[k])
  {
    hide Output;
    hide SynthesisDelays;
    if k < n - 1 { OutputAt(v, rps, w, k, n - 1); }
  }

  /** As long as every sample is kept, the delays agree. */
  lemma {:induction false} DelaysAgree(
      u: seq<Word>, v: seq<Word>, rps: seq<seq<Word>>, s: seq<Word>, k: nat, n: nat)
    requires |u| == 8 && |v| == 9 && v[..8] == u && Regions(rps) && k <= n <= |s| && FrameKept(u, rps, s, k)
    ensures SynthesisDelays(v, rps, Residuals(u, rps, s, n), k)[..8] == Delays(u, rps, s, k)
  {
    hide Residual;
    hide Output;
    hide NextU;
    hide NextV;
    hide Healed;
    hide DelaysSpared;
    hide Residuals;
    if k > 0 {
      DelaysAgree(u, v, rps, s, k - 1, n);
      ResidualAt(u, rps, s, k - 1, n);
      var d := Residuals(u, rps, s, n);
      assert HealedAt(u, rps, s, k - 1) && SparedAt(u, rps, s, k - 1);
      SampleInStepIff(Delays(u, rps, s, k - 1), SynthesisDelays(v, rps, d, k - 1), rps[RegionOf(k - 1)], s[k - 1]);
    }
  }

  /** Where the delays agree, a sample is recovered exactly when it heals. */
  lemma RecoveredAtIff(u: seq<Word>, v: seq<Word>, rps: seq<seq<Word>>, s: seq<Word>, k: nat, n: nat)
    requires |u| == 8 && |v| == 9 && v[..8] == u && Regions(rps) && k < n <= |s|
    requires SynthesisDelays(v, rps, Residuals(u, rps, s, n), k)[..8] == Delays(u, rps, s, k)
    ensures Outputs(v, rps, Residuals(u, rps, s, n), n)[k] == s[k] <==> HealedAt(u, rps, s, k)
  {
    hide Residual;
    hide Output;
    hide Healed;
    hide Residuals;
    hide Outputs;
    hide Delays;
    hide SynthesisDelays;
    var d := Residuals(u, rps, s, n);
    ResidualAt(u, rps, s, k, n);
    OutputAt(v, rps, d, k, n);
    SampleInverseIff(Delays(u, rps, s, k), SynthesisDelays(v, rps, d, k), rps[RegionOf(k)], s[k]);
  }

  /** Where the delays agree before and after a sample and it is recovered, it was kept. */
  lemma KeptAt(u: seq<Word>, v: seq<Word>, rps: seq<seq<Word>>, s: seq<Word>, k: nat, n: nat)
    requires |u| == 8 && |v| == 9 && v[..8] == u && Regions(rps) && k < n <= |s|
    requires SynthesisDelays(v, rps, Residuals(u, rps, s, n), k)[..8] == Delays(u, rps, s, k)
    requires SynthesisDelays(v, rps, Residuals(u, rps, s, n), k + 1)[..8] == Delays(u, rps, s, k + 1)
    requires Outputs(v, rps, Residuals(u, rps, s, n), n)[k] == s[k]
    ensures HealedAt(u, rps, s, k) && SparedAt(u, rps, s, k)
  {
    hide Residual;
    hide Output;
    hide NextU;
    hide NextV;
    hide Healed;
    hide DelaysSpared;
    hide Residuals;
    hide Outputs;
    var d := Residuals(u, rps, s, n);
    ResidualAt(u, rps, s, k, n);
    OutputAt(v, rps, d, k, n);
    SampleInStepIff(Delays(u, rps, s, k), SynthesisDelays(v, rps, d, k), rps[RegionOf(k)], s[k]);
  }

  /** The two filters are in step over a frame: samples recovered, and equal delays all along. */
  ghost predicate FrameInStep(u: seq<Word>, v: seq<Word>, rps: seq<seq<Word>>, s: seq<Word>, n: nat)
    requires |u| == 8 && |v| == 9 && Regions(rps) && n <= |s|
  {
    var d := Residuals(u, rps, s, n);
    && Outputs(v, rps, d, n) == s[..n]
    && forall k :: 0 <= k <= n ==> SynthesisDelays(v, rps, d, k)[..8] == Delays(u, rps, s, k)
  }

  /**
   * The exact condition for a frame, sample for sample and state for state, whatever the delays, the
   * coefficients of the four regions and the samples.
   */
  lemma FrameInStepIff(u: seq<Word>, v: seq<Word>, rps: seq<seq<Word>>, s: seq<Word>, n: nat)
    requires |u| == 8 && |v| == 9 && v[..8] == u && Regions(rps) && n <= |s|
    ensures FrameInStep(u, v, rps, s, n) <==> FrameKept(u, rps, s, n)
  {
    hide HealedAt;
    hide SparedAt;
    hide Residuals;
    hide Outputs;
    hide Delays;
    hide SynthesisDelays;
    if FrameKept(u, rps, s, n) {
      forall k | 0 <= k <= n
        ensures SynthesisDelays(v, rps, Residuals(u, rps, s, n), k)[..8] == Delays(u, rps, s, k)
      {
        DelaysAgree(u, v, rps, s, k, n);
      }
      forall k | 0 <= k < n ensures Outputs(v, rps, Residuals(u, rps, s, n), n)[k] == s[k] {
        RecoveredAtIff(u, v, rps, s, k, n);
      }
    } else if FrameInStep(u, v, rps, s, n) {
      forall k | 0 <= k < n ensures HealedAt(u, rps, s, k) && SparedAt(u, rps, s, k) {
        KeptAt(u, v, rps, s, k, n);
      }
    }
  }

  /**
   * Filtering a frame and filtering it back gives the frame, if no residual sum clipped. The delays agree
   * again afterwards, so the statement carries over to the next frame.
   */
  lemma SynthesisInvertsAnalysis(u: seq<Word>, v: seq<Word>, rps: seq<seq<Word>>, s: seq<Word>, n: nat)
    requires |u| == 8 && |v| == 9 && v[..8] == u && Regions(rps) && n <= |s| && FrameUnclipped(u, rps, s, n)
    ensures FrameInStep(u, v, rps, s, n)
  {
    UnclippedIsKept(u, rps, s, n);
    FrameInStepIff(u, v, rps, s, n);
  }

  /** No sample but the last heals at the cost of its delays while everything before it was kept. */
  ghost predicate NoneSpoils(u: seq<Word>, rps: seq<seq<Word>>, s: seq<Word>, n: nat)
    requires |u| == 8 && Regions(rps) && n <= |s|
  {
    forall k: nat :: k < n - 1 && FrameKept(u, rps, s, k) && HealedAt(u, rps, s, k) ==> SparedAt(u, rps, s, k)
  }

  lemma {:induction false} HealedIsKept(u: seq<Word>, rps: seq<seq<Word>>, s: seq<Word>, n: nat, k: nat)
    requires |u| == 8 && Regions(rps) && k < n <= |s| && NoneSpoils(u, rps, s, n)
    requires forall i :: 0 <= i < k ==> HealedAt(u, rps, s, i)
    ensures FrameKept(u, rps, s, k)
  {
    hide HealedAt;
    hide SparedAt;
    if k > 0 {
      HealedIsKept(u, rps, s, n, k - 1);
      assert SparedAt(u, rps, s, k - 1);
    }
  }

  lemma FirstUnhealed(u: seq<Word>, rps: seq<seq<Word>>, s: seq<Word>, n: nat) returns (k: nat)
    requires |u| == 8 && Regions(rps) && n <= |s|
    ensures k <= n && (forall i :: 0 <= i < k ==> HealedAt(u, rps, s, i)) && (k < n ==> !HealedAt(u, rps, s, k))
  {
    hide HealedAt;
    k := 0;
    while k < n && HealedAt(u, rps, s, k)
      invariant k <= n && forall i :: 0 <= i < k ==> HealedAt(u, rps, s, i)
    {
      k := k + 1;
    }
  }

  lemma RecoveredWhenKept(u: seq<Word>, v: seq<Word>, rps: seq<seq<Word>>, s: seq<Word>, n: nat, k: nat)
    requires |u| == 8 && |v| == 9 && v[..8] == u && Regions(rps) && k < n <= |s| && NoneSpoils(u, rps, s, n)
    requires forall i :: 0 <= i < k ==> HealedAt(u, rps, s, i)
    ensures Outputs(v, rps, Residuals(u, rps, s, n), n)[k] == s[k] <==> HealedAt(u, rps, s, k)
  {
    hide *;
    HealedIsKept(u, rps, s, n, k);
    DelaysAgree(u, v, rps, s, k, n);
    RecoveredAtIff(u, v, rps, s, k, n);
  }

  /**
   * The samples alone: unless a healed sample spoils the delays, a frame comes back if and only if each
   * of its samples heals.
   */
  lemma FrameInverseIff(u: seq<Word>, v: seq<Word>, rps: seq<seq<Word>>, s: seq<Word>, n: nat)
    requires |u| == 8 && |v| == 9 && v[..8] == u && Regions(rps) && n <= |s| && NoneSpoils(u, rps, s, n)
    ensures Outputs(v, rps, Residuals(u, rps, s, n), n) == s[..n]
       <==> forall k :: 0 <= k < n ==> HealedAt(u, rps, s, k)
  {
    hide HealedAt;
    hide NoneSpoils;
    hide Residuals;
    hide Outputs;
    var first := FirstUnhealed(u, rps, s, n);
    if first < n {
      RecoveredWhenKept(u, v, rps, s, n, first);
    } else {
      forall k | 0 <= k < n ensures Outputs(v, rps, Residuals(u, rps, s, n), n)[k] == s[k] {
        RecoveredWhenKept(u, v, rps, s, n, k);
      }
    }
  }

  // ---- The filters as loops -----------------------------------------------------------------------------

  const REGION_START: seq<nat> := [0, 13, 27, 40]
  const REGION_LENGTH: seq<nat> := [13, 14, 13, 120]

  method AnalyseSample(u: seq<Word>, rp: seq<Word>, s: Word) returns (next: seq<Word>, d: Word)
    requires |u| == |rp| == 8
    ensures next == NextU(u, rp, s) && d == Residual(u, rp, s)
  {
    hide MultR;
    hide Add;
    next := u;
    d := s;
    var sav := s;
    for i := 0 to 8
      invariant Forward(next, d, sav) == Analysis(u, rp, s, i)
    {
      var ui, rpi := next[i], rp[i];
      next := next[i := sav];
      var zzz := MultR(rpi, d);
      sav := Add(ui, zzz);
      zzz := MultR(rpi, ui);
      d := Add(d, zzz);
    }
  }

  method SynthesiseSample(v: seq<Word>, rp: seq<Word>, w: Word) returns (next: seq<Word>, sri: Word)
    requires |v| == 9 && |rp| == 8
    ensures next == NextV(v, rp, w) && sri == Output(v, rp, w)
  {
    hide MultR;
    hide Add;
    hide Sub;
    next := v;
    sri := w;
    for i := 8 downto 0
      invariant Backward(next, sri) == Synthesis(v, rp, w, i)
    {
      sri := Sub(sri, MultR(rp[i], next[i]));
      next := next[i + 1 := Add(next[i], MultR(rp[i], sri))];
    }
    next := next[0 := sri];
  }

  /** The analysis of one region, in place. */
  method AnalyseRegion(
      u: seq<Word>, rps: seq<seq<Word>>, s: array<Word>, region: nat, ghost u0: seq<Word>, ghost s0: seq<Word>)
    returns (next: seq<Word>)
    requires Regions(rps) && region < 4 && s.Length == |s0| == 160 && |u0| == 8
    requires var start := REGION_START[region];
             u == Delays(u0, rps, s0, start) && s[..] == Residuals(u0, rps, s0, start) + s0[start..]
    modifies s
    ensures var end := REGION_START[region] + REGION_LENGTH[region];
            next == Delays(u0, rps, s0, end) && s[..] == Residuals(u0, rps, s0, end) + s0[end..]
  {
    hide NextU;
    hide Residual;
    hide Delays;
    hide Residuals;
    next := u;
    var start, len := REGION_START[region], REGION_LENGTH[region];
    for k := start to start + len
      invariant next == Delays(u0, rps, s0, k)
      invariant s[..k] == Residuals(u0, rps, s0, k) && s[k..] == s0[k..]
    {
      FrameStep(u0, rps, s0, k);
      assert RegionOf(k) == region && s[k] == s[k..][0] == s0[k];
      var d;
      next, d := AnalyseSample(next, rps[region], s[k]);
      s[k] := d;
      assert s[..k + 1] == s[..k] + [d] && s[k + 1..] == s0[k..][1..];
    }
    assert s[..][..start + len] == s[..start + len] && s[..][start + len..] == s[start + len..];
    Halves(s[..], start + len);
  }

  lemma Halves(s: seq<Word>, k: nat)
    requires k <= |s|
    ensures s == s[..k] + s[k..]
  {
  }

  lemma FrameStep(u: seq<Word>, rps: seq<seq<Word>>, s: seq<Word>, k: nat)
    requires |u| == 8 && Regions(rps) && k < |s|
    ensures Delays(u, rps, s, k + 1) == NextU(Delays(u, rps, s, k), rps[RegionOf(k)], s[k])
    ensures Residuals(u, rps, s, k + 1)
         == Residuals(u, rps, s, k) + [Residual(Delays(u, rps, s, k), rps[RegionOf(k)], s[k])]
  {
    hide NextU;
    hide Residual;
  }

  lemma FrameStart(u: seq<Word>, rps: seq<seq<Word>>, s: seq<Word>)
    requires |u| == 8 && Regions(rps)
    ensures Delays(u, rps, s, 0) == u && Residuals(u, rps, s, 0) == []
  {
  }

  method AnalyseFrame(u: seq<Word>, rps: seq<seq<Word>>, s: array<Word>) returns (next: seq<Word>)
    requires |u| == 8 && Regions(rps) && s.Length == 160
    modifies s
    ensures next == Delays(u, rps, old(s[..]), 160) && s[..] == Residuals(u, rps, old(s[..]), 160)
  {
    hide Delays;
    hide Residuals;
    ghost var s0 := s[..];
    next := u;
    FrameStart(u, rps, s0);
    for region := 0 to 4
      invariant var start := if region < 4 then REGION_START[region] else 160;
                next == Delays(u, rps, s0, start) && s[..] == Residuals(u, rps, s0, start) + s0[start..]
    {
      next := AnalyseRegion(next, rps, s, region, u, s0);
    }
  }

  method SynthesiseFrame(v: seq<Word>, rps: seq<seq<Word>>, wt: seq<Word>) returns (next: seq<Word>, s: seq<Word>)
    requires |v| == 9 && Regions(rps) && |wt| == 160
    ensures next == SynthesisDelays(v, rps, wt, 160) && s == Outputs(v, rps, wt, 160)
  {
    hide NextV;
    hide Output;
    next, s := v, [];
    for region := 0 to 4
      invariant var start := if region < 4 then REGION_START[region] else 160;
                next == SynthesisDelays(v, rps, wt, start) && s == Outputs(v, rps, wt, start)
    {
      var start, len := REGION_START[region], REGION_LENGTH[region];
      for k := start to start + len
        invariant next == SynthesisDelays(v, rps, wt, k) && s == Outputs(v, rps, wt, k)
      {
        assert RegionOf(k) == region;
        var sri;
        next, sri := SynthesiseSample(next, rps[region], wt[k]);
        s := s + [sri];
      }
    }
  }
}
