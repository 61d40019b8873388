/**
 * Pre-emphasis and de-emphasis of GSM 06.10 (sections 4.2.3 and 4.3.5;
 * `crates/siphon-rtp-codec/src/gsm_fr.rs`) against each other: over every stream the decoder's recursive
 * filter undoes the encoder's, up to a rounding error that never grows beyond seven.
 */
module GsmEmphasis {
  import opened Arithmetic
  import opened FixedPoint
  import opened GsmMath
  import opened GsmOffset
  import opened GsmStream

  /** The emphasised sum of sample `k` fits 16 bits. */
  predicate EmphasisFits(m: GsmOffset.Memory, s: seq<Word>, k: nat)
    requires Bounded(m) && k < |s|
  {
    InI16(After(m, s, k + 1).mp as int + MultR(After(m, s, k).mp, -28180) as int)
  }

  /** What rounding adds when the two products meet: at most one either way. */
  lemma ProductsCancel(x: Word, y: Word)
    requires Abs(y - x) <= 7
    ensures Abs(MultR(x, -28180) as int + MultR(y, 28180) as int) <= 7
  {
  }

  lemma {:induction false} EmphasisedAt(m: GsmOffset.Memory, s: seq<Word>, k: nat, n: nat)
    requires Bounded(m) && k < n <= |s|
    ensures Emphasised(m, s, n)[k] == Add(After(m, s, k + 1).mp, MultR(After(m, s, k).mp, -28180))
  {
    hide Add;
    hide MultR;
    hide Bounded;
    hide Step;
    if k < n - 1 { EmphasisedAt(m, s, k, n - 1); }
  }

  lemma OneSample(next: Word, before: Word, state: Word)
    requires Abs(state - before) <= 7 && InI16(next as int + MultR(before, -28180) as int)
    ensures Abs(Add(Add(next, MultR(before, -28180)), MultR(state, 28180)) - next) <= 7
  {
    ProductsCancel(before, state);
    hide MultR;
  }

  /**
   * De-emphasis undoes pre-emphasis: from states that agree to within seven, they agree to within seven after
   * every sample of every stream whose emphasised sums fit.
   */
  lemma {:induction false} DeemphasisUndoes(m: GsmOffset.Memory, s: seq<Word>, msr: Word, n: nat, total: nat)
    requires Bounded(m) && n <= total <= |s| && Abs(msr - m.mp) <= 7
    requires forall k :: 0 <= k < n ==> EmphasisFits(m, s, k)
    ensures Abs(Deemphasis(msr, Emphasised(m, s, total), n) - After(m, s, n).mp) <= 7
  {
    hide MultR;
    hide Add;
    hide Bounded;
    hide Step;
    hide Emphasised;
    if n > 0 {
      DeemphasisUndoes(m, s, msr, n - 1, total);
      EmphasisedAt(m, s, n - 1, total);
      assert EmphasisFits(m, s, n - 1);
      OneSample(After(m, s, n).mp, After(m, s, n - 1).mp, Deemphasis(msr, Emphasised(m, s, total), n - 1));
    }
  }

  lemma {:induction false} PostprocessedAt(msr: Word, s: seq<Word>, k: nat, n: nat)
    requires k < n <= |s|
    ensures Postprocessed(msr, s, n)[k] == Truncated(Deemphasis(msr, s, k + 1))
  {
    hide Deemphasis;
    hide Truncated;
    if k < n - 1 { PostprocessedAt(msr, s, k, n - 1); }
  }

  /** The decoder's output is twice the encoder's offset-free signal, which was the input halved. */
  lemma OutputIsTwice(m: GsmOffset.Memory, s: seq<Word>, msr: Word, k: nat, n: nat)
    requires Bounded(m) && k < n <= |s| && Abs(msr - m.mp) <= 7
    requires forall i :: 0 <= i < n ==> EmphasisFits(m, s, i)
    ensures Abs(Postprocessed(msr, Emphasised(m, s, n), n)[k] - Saturate(2 * After(m, s, k + 1).mp as int)) <= 21
  {
    hide Deemphasis;
    hide Emphasised;
    hide After;
    hide EmphasisFits;
    PostprocessedAt(msr, Emphasised(m, s, n), k, n);
    DeemphasisUndoes(m, s, msr, k + 1, n);
  }
}
