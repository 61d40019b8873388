/**
 * What the Schur recursion of GSM 06.10 (section 4.2.5; `crates/siphon-rtp-codec/src/gsm_fr.rs`) is for. On
 * exact numbers its two rows carry the correlation of the prediction error with the signal, and its reflection
 * coefficients are those of the optimal predictor: the error is orthogonal to the samples it was predicted
 * from, which are the normal equations. The fixed-point stages are the exact ones, rounded.
 */
module LinearPrediction {
  import opened Arithmetic
  import opened FixedPoint
  import opened GsmLar
  import opened GsmLattice
  import opened GsmMath
  import opened PowersOfTwo

  /** Correlations at all lags, the same in both directions. */
  ghost predicate IsCorrelation(c: int -> real) {
    forall m :: c(m) == c(-m)
  }

  /**
   * The correlation of the error of an `n`-th order predictor with the signal `m` samples back, from the
   * reflection coefficients.
   */
  ghost function Error(c: int -> real, r: seq<real>, n: nat, m: int): real
    requires n <= |r|
  {
    if n == 0 then c(m) else Error(c, r, n - 1, m) + r[n - 1] * Error(c, r, n - 1, n - m)
  }

  lemma ErrorStep(c: int -> real, r: seq<real>, n: nat, m: int, mirrored: int)
    requires 1 <= n <= |r| && mirrored == n - m
    ensures Error(c, r, n, m) == Error(c, r, n - 1, m) + r[n - 1] * Error(c, r, n - 1, mirrored)
  {
  }

  /** Each coefficient cancels the first correlation that is left. */
  ghost predicate Reflects(c: int -> real, r: seq<real>) {
    forall n :: 0 <= n < |r| ==> ReflectsAt(c, r, n)
  }

  ghost predicate ReflectsAt(c: int -> real, r: seq<real>, n: nat)
    requires n < |r|
  {
    r[n] * Error(c, r, n, 0) == -Error(c, r, n, n + 1)
  }

  /** The error of the predictor is orthogonal to all the samples it predicts from. */
  lemma {:induction false} ErrorIsOrthogonal(c: int -> real, r: seq<real>, n: nat, m: nat)
    requires Reflects(c, r) && n <= |r| && 1 <= m <= n
    ensures Error(c, r, n, m) == 0.0
  {
    if m < n {
      ErrorIsOrthogonal(c, r, n - 1, m);
      ErrorIsOrthogonal(c, r, n - 1, n - m);
    } else {
      assert ReflectsAt(c, r, n - 1);
    }
  }

  /** Its energy shrinks by the square of each coefficient. */
  lemma EnergyShrinks(c: int -> real, r: seq<real>, n: nat)
    requires Reflects(c, r) && n < |r|
    ensures Error(c, r, n + 1, 0) == (1.0 - r[n] * r[n]) * Error(c, r, n, 0)
  {
    assert ReflectsAt(c, r, n);
    SquareOf(r[n], Error(c, r, n, 0), Error(c, r, n, n + 1));
  }

  lemma SquareOf(r: real, energy: real, next: real)
    requires r * energy == -next
    ensures energy + r * next == (1.0 - r * r) * energy
  {
  }

  // ---- The normal equations --------------------------------------------------------------------------------------

  /** The coefficients of the error filter, 1 first, by the step-up recursion. */
  ghost function Tap(r: seq<real>, n: nat, i: int): real
    requires n <= |r|
  {
    if i < 0 || i > n then 0.0
    else if n == 0 then 1.0
    else Tap(r, n - 1, i) + r[n - 1] * Tap(r, n - 1, n - i)
  }

  /** The first `k` terms of the filter's correlation with the signal `m` samples back. */
  ghost function Terms(c: int -> real, r: seq<real>, n: nat, m: int, k: nat): real
    requires n <= |r|
  {
    if k == 0 then 0.0 else Terms(c, r, n, m, k - 1) + Tap(r, n, k - 1) * c(m - (k - 1))
  }

  /** The same terms from the far end: `k` of them, of the filter turned around. */
  ghost function TurnedTerms(c: int -> real, r: seq<real>, n: nat, m: int, k: nat): real
    requires n <= |r|
  {
    if k == 0 then 0.0 else TurnedTerms(c, r, n, m, k - 1) + Tap(r, n, n + 1 - (k - 1)) * c(m - (k - 1))
  }

  lemma TapStep(r: seq<real>, n: nat, i: nat)
    requires n < |r| && i <= n + 1
    ensures Tap(r, n + 1, i) == Tap(r, n, i) + r[n] * Tap(r, n, n + 1 - i)
  {
  }

  lemma {:induction false} TermsSplit(c: int -> real, r: seq<real>, n: nat, m: int, k: nat)
    requires n < |r| && k <= n + 2
    ensures Terms(c, r, n + 1, m, k) == Terms(c, r, n, m, k) + r[n] * TurnedTerms(c, r, n, m, k)
  {
    hide Tap;
    if k > 0 {
      var i := k - 1;
      TermsSplit(c, r, n, m, i);
      TapStep(r, n, i);
      Gather(Terms(c, r, n, m, i), Tap(r, n, i), r[n], TurnedTerms(c, r, n, m, i), Tap(r, n, n + 1 - i), c(m - i));
    }
  }

  lemma Gather(s: real, a: real, r: real, t: real, b: real, x: real)
    ensures s + r * t + (a + r * b) * x == s + a * x + r * (t + b * x)
  {
  }

  lemma {:induction false} TurnedIsRest(c: int -> real, r: seq<real>, n: nat, m: int, k: nat)
    requires IsCorrelation(c) && n < |r| && k <= n + 2
    ensures TurnedTerms(c, r, n, m, k) == Terms(c, r, n, n + 1 - m, n + 2) - Terms(c, r, n, n + 1 - m, n + 2 - k)
  {
    hide Tap;
    if k > 0 {
      TurnedIsRest(c, r, n, m, k - 1);
      assert c(m - (k - 1)) == c(-(m - (k - 1)));
    }
  }

  /** The recursion gives the correlation of the filter's output with the signal. */
  lemma {:induction false} ErrorIsTerms(c: int -> real, r: seq<real>, n: nat, m: int)
    requires IsCorrelation(c) && n <= |r|
    ensures Error(c, r, n, m) == Terms(c, r, n, m, n + 1)
  {
    hide *;
    if n == 0 {
      OneTerm(c, r, m);
    } else {
      ErrorIsTerms(c, r, n - 1, m);
      ErrorIsTerms(c, r, n - 1, n - m);
      ErrorStep(c, r, n, m, n - m);
      TermsStep(c, r, n, m, n - m);
      Combined(r[n - 1], Error(c, r, n - 1, m), Terms(c, r, n - 1, m, n),
               Error(c, r, n - 1, n - m), Terms(c, r, n - 1, n - m, n));
    }
  }

  lemma OneTerm(c: int -> real, r: seq<real>, m: int)
    ensures Error(c, r, 0, m) == Terms(c, r, 0, m, 1)
  {
    assert Terms(c, r, 0, m, 1) == Terms(c, r, 0, m, 0) + Tap(r, 0, 0) * c(m);
  }

  lemma Combined(r: real, x: real, x': real, y: real, y': real)
    requires x == x' && y == y'
    ensures x + r * y == x' + r * y'
  {
  }

  lemma TermsStep(c: int -> real, r: seq<real>, n: nat, m: int, mirrored: int)
    requires IsCorrelation(c) && 1 <= n <= |r| && mirrored == n - m
    ensures Terms(c, r, n, m, n + 1) == Terms(c, r, n - 1, m, n) + r[n - 1] * Terms(c, r, n - 1, mirrored, n)
  {
    hide *;
    TermsSplit(c, r, n - 1, m, n + 1);
    TurnedIsWhole(c, r, n - 1, m, mirrored);
    NoTermPast(c, r, n - 1, m);
  }

  lemma TurnedIsWhole(c: int -> real, r: seq<real>, n: nat, m: int, mirrored: int)
    requires IsCorrelation(c) && n < |r| && mirrored == n + 1 - m
    ensures TurnedTerms(c, r, n, m, n + 2) == Terms(c, r, n, mirrored, n + 1)
  {
    hide *;
    TurnedIsRest(c, r, n, m, n + 2);
    NoTermPast(c, r, n, mirrored);
  }

  lemma NoTermPast(c: int -> real, r: seq<real>, n: nat, m: int)
    requires n <= |r|
    ensures Terms(c, r, n, m, n + 2) == Terms(c, r, n, m, n + 1) && Terms(c, r, n, m, 0) == 0.0
  {
    hide Tap;
    LastTap(r, n);
  }

  lemma LastTap(r: seq<real>, n: nat)
    requires n <= |r|
    ensures Tap(r, n, n + 1) == 0.0
  {
  }

  /** The normal equations: the error filter is orthogonal to the samples it predicts from. */
  lemma NormalEquations(c: int -> real, r: seq<real>, n: nat, m: nat)
    requires IsCorrelation(c) && Reflects(c, r) && n <= |r| && 1 <= m <= n
    ensures Tap(r, n, 0) == 1.0 && Terms(c, r, n, m, n + 1) == 0.0
  {
    FirstTap(r, n);
    ErrorIsOrthogonal(c, r, n, m);
    ErrorIsTerms(c, r, n, m);
  }

  lemma {:induction false} FirstTap(r: seq<real>, n: nat)
    requires n <= |r|
    ensures Tap(r, n, 0) == 1.0
  {
    if n > 0 {
      FirstTap(r, n - 1);
      LastTap(r, n - 1);
    }
  }

  // ---- The lattice -------------------------------------------------------------------------------------------------

  /** The forward and the backward residual of a lattice of `n` stages, at time `t`. */
  ghost function ForwardAt(s: int -> real, r: seq<real>, n: nat, t: int): real
    requires n <= |r|
    decreases n, 1
  {
    if n == 0 then s(t) else ForwardAt(s, r, n - 1, t) + r[n - 1] * BackwardAt(s, r, n - 1, t - 1)
  }

  ghost function BackwardAt(s: int -> real, r: seq<real>, n: nat, t: int): real
    requires n <= |r|
    decreases n, 0
  {
    if n == 0 then s(t) else BackwardAt(s, r, n - 1, t - 1) + r[n - 1] * ForwardAt(s, r, n - 1, t)
  }

  lemma {:induction false} TurnedSplit(s: int -> real, r: seq<real>, n: nat, t: int, k: nat)
    requires n < |r| && k <= n + 2
    ensures TurnedTerms(s, r, n + 1, t + 1, k + 1) == TurnedTerms(s, r, n, t, k) + r[n] * Terms(s, r, n, t, k)
  {
    hide Tap;
    LastTap(r, n + 1);
    if k == 0 {
      assert TurnedTerms(s, r, n + 1, t + 1, 1)
          == TurnedTerms(s, r, n + 1, t + 1, 0) + Tap(r, n + 1, n + 2) * s(t + 1);
    } else {
      var i := k - 1;
      TurnedSplit(s, r, n, t, i);
      TapStep(r, n, n + 1 - i);
      Gather(TurnedTerms(s, r, n, t, i), Tap(r, n, n + 1 - i), r[n], Terms(s, r, n, t, i), Tap(r, n, i), s(t - i));
    }
  }

  /**
   * The lattice is the error filter: its forward residual is the filter's output, its backward residual that of
   * the filter turned around.
   */
  lemma {:induction false} LatticeIsFilter(s: int -> real, r: seq<real>, n: nat, t: int)
    requires n <= |r|
    ensures ForwardAt(s, r, n, t) == Terms(s, r, n, t, n + 1)
    ensures BackwardAt(s, r, n, t) == TurnedTerms(s, r, n, t + 1, n + 2)
  {
    hide *;
    LatticeStep(s, r, n, t);
    if n == 0 {
      NoStages(s, r, t);
    } else {
      LatticeIsFilter(s, r, n - 1, t);
      LatticeIsFilter(s, r, n - 1, t - 1);
      TermsSplit(s, r, n - 1, t, n + 1);
      TurnedSplit(s, r, n - 1, t, n + 1);
      LastTerm(s, r, n - 1, t);
    }
  }

  lemma LatticeStep(s: int -> real, r: seq<real>, n: nat, t: int)
    requires n <= |r|
    ensures n == 0 ==> ForwardAt(s, r, n, t) == BackwardAt(s, r, n, t) == s(t)
    ensures n > 0 ==>
      && ForwardAt(s, r, n, t) == ForwardAt(s, r, n - 1, t) + r[n - 1] * BackwardAt(s, r, n - 1, t - 1)
      && BackwardAt(s, r, n, t) == BackwardAt(s, r, n - 1, t - 1) + r[n - 1] * ForwardAt(s, r, n - 1, t)
  {
  }

  lemma NoStages(s: int -> real, r: seq<real>, t: int)
    ensures Terms(s, r, 0, t, 1) == TurnedTerms(s, r, 0, t + 1, 2) == s(t)
  {
    assert Terms(s, r, 0, t, 1) == Terms(s, r, 0, t, 0) + Tap(r, 0, 0) * s(t);
    assert TurnedTerms(s, r, 0, t + 1, 1) == TurnedTerms(s, r, 0, t + 1, 0) + Tap(r, 0, 1) * s(t + 1);
    assert TurnedTerms(s, r, 0, t + 1, 2) == TurnedTerms(s, r, 0, t + 1, 1) + Tap(r, 0, 0) * s(t);
  }

  lemma LastTerm(s: int -> real, r: seq<real>, n: nat, t: int)
    requires n <= |r|
    ensures Terms(s, r, n, t, n + 2) == Terms(s, r, n, t, n + 1)
  {
    LastTap(r, n);
    hide Tap;
  }

  // ---- The two rows ------------------------------------------------------------------------------------------------

  /** The rows of the recursion on exact numbers. */
  datatype Rows = Rows(k: seq<real>, p: seq<real>)

  /** One stage on exact numbers, in the shape of the fixed-point one. */
  function ExactStage(rows: Rows, r: real, n: nat): (next: Rows)
    requires |rows.k| == |rows.p| == 9 && 1 <= n < 8
    ensures |next.k| == |next.p| == 9
  {
    var k, p := rows.k, rows.p;
    Rows(
      seq(9, m requires 0 <= m < 9 => if 1 <= m <= 8 - n then k[m] + r * p[m + 1] else k[m]),
      seq(9, m requires 0 <= m < 9 =>
        if m == 0 then p[0] + r * p[1] else if m <= 8 - n then p[m + 1] + r * k[m] else p[m]))
  }

  ghost function FirstRows(c: int -> real): (rows: Rows)
    ensures |rows.k| == |rows.p| == 9
  {
    Rows(seq(9, m requires 0 <= m < 9 => if 1 <= m <= 7 then c(m) else 0.0), seq(9, m requires 0 <= m < 9 => c(m)))
  }

  ghost function RowsAfter(c: int -> real, r: seq<real>, n: nat): (rows: Rows)
    requires n <= |r| && n < 8
    ensures |rows.k| == |rows.p| == 9
  {
    if n == 0 then FirstRows(c) else ExactStage(RowsAfter(c, r, n - 1), r[n - 1], n)
  }

  lemma StageEntries(c: int -> real, r: seq<real>, n: nat, m: int)
    requires 1 <= n <= |r| && n < 8 && 1 <= m <= 8 - n
    ensures var before, after := RowsAfter(c, r, n - 1), RowsAfter(c, r, n);
            && after.p[0] == before.p[0] + r[n - 1] * before.p[1]
            && after.p[m] == before.p[m + 1] + r[n - 1] * before.k[m]
            && after.k[m] == before.k[m] + r[n - 1] * before.p[m + 1]
  {
    hide *;
    RowsUnfold(c, r, n);
    EntriesOf(RowsAfter(c, r, n - 1), r[n - 1], n, m);
  }

  lemma RowsUnfold(c: int -> real, r: seq<real>, n: nat)
    requires 1 <= n <= |r| && n < 8
    ensures RowsAfter(c, r, n) == ExactStage(RowsAfter(c, r, n - 1), r[n - 1], n)
  {
    hide ExactStage;
    hide FirstRows;
  }

  lemma EntriesOf(rows: Rows, r: real, n: nat, m: int)
    requires |rows.k| == |rows.p| == 9 && 1 <= n < 8 && 1 <= m <= 8 - n
    ensures var next := ExactStage(rows, r, n);
            && next.p[0] == rows.p[0] + r * rows.p[1]
            && next.p[m] == rows.p[m + 1] + r * rows.k[m]
            && next.k[m] == rows.k[m] + r * rows.p[m + 1]
  {
  }

  lemma FirstRowsCarry(c: int -> real, r: seq<real>, m: int)
    requires IsCorrelation(c) && 1 <= m <= 8
    ensures RowsAfter(c, r, 0).p[0] == Error(c, r, 0, 0) && RowsAfter(c, r, 0).p[m] == Error(c, r, 0, m)
    ensures m <= 7 ==> RowsAfter(c, r, 0).k[m] == Error(c, r, 0, -m)
  {
    assert c(m) == c(-m);
  }

  /** The rows carry the error's correlations, ahead of the predictor and behind the sample. */
  lemma {:induction false} RowsCarryError(c: int -> real, r: seq<real>, n: nat, m: int)
    requires IsCorrelation(c) && n <= |r| && n < 8 && 1 <= m <= 8 - n
    ensures RowsAfter(c, r, n).p[0] == Error(c, r, n, 0)
    ensures RowsAfter(c, r, n).p[m] == Error(c, r, n, n + m)
    ensures m <= 7 ==> RowsAfter(c, r, n).k[m] == Error(c, r, n, -m)
  {
    if n == 0 {
      FirstRowsCarry(c, r, m);
    } else {
      hide *;
      RowsCarryError(c, r, n - 1, 1);
      RowsCarryError(c, r, n - 1, m + 1);
      RowsCarryError(c, r, n - 1, m);
      RowsCarryOn(c, r, n, m);
    }
  }

  lemma RowsCarryOn(c: int -> real, r: seq<real>, n: nat, m: int)
    requires 1 <= n <= |r| && n < 8 && 1 <= m <= 8 - n
    requires var rows := RowsAfter(c, r, n - 1);
             && rows.p[0] == Error(c, r, n - 1, 0) && rows.p[1] == Error(c, r, n - 1, n)
             && rows.p[m + 1] == Error(c, r, n - 1, n + m) && rows.k[m] == Error(c, r, n - 1, -m)
    ensures RowsAfter(c, r, n).p[0] == Error(c, r, n, 0)
    ensures RowsAfter(c, r, n).p[m] == Error(c, r, n, n + m)
    ensures RowsAfter(c, r, n).k[m] == Error(c, r, n, -m)
  {
    hide *;
    StageEntries(c, r, n, m);
    ErrorStep(c, r, n, 0, n);
    ErrorStep(c, r, n, n + m, -m);
    ErrorStep(c, r, n, -m, n + m);
  }

  /** The choice that the recursion makes at every stage: cancel the first entry with the energy. */
  ghost predicate SchurCoefficients(c: int -> real, r: seq<real>)
    requires |r| <= 8
  {
    forall n :: 0 <= n < |r| ==> r[n] * RowsAfter(c, r, n).p[0] == -RowsAfter(c, r, n).p[1]
  }

  /** The coefficients of the recursion are those of the optimal predictor of every order up to eight. */
  lemma SchurSolvesNormalEquations(c: int -> real, r: seq<real>, n: nat, m: nat)
    requires IsCorrelation(c) && |r| <= 8 && SchurCoefficients(c, r) && n <= |r| && 1 <= m <= n
    ensures Tap(r, n, 0) == 1.0 && Terms(c, r, n, m, n + 1) == 0.0
  {
    hide RowsAfter;
    hide Error;
    hide Terms;
    hide Tap;
    forall i | 0 <= i < |r| ensures ReflectsAt(c, r, i) {
      RowsCarryError(c, r, i, 1);
    }
    NormalEquations(c, r, n, m);
  }

  // ---- The fixed-point recursion ---------------------------------------------------------------------------------

  /** The coefficient of a stage cancels its first entry to within the rounding of the division. */
  lemma CoefficientCancels(p0: Word, p1: Word)
    requires Magnitude(p1) <= p0
    ensures var signed := Magnitude(p1) as int * (if p1 > 0 then 1 else -1);
            Abs(Coefficient(p0, p1) as int * p0 as int + 32768 * signed) <= p0
  {
    var num: int, den: int := Magnitude(p1), p0;
    hide Magnitude;
    if 0 < num < den {
      FractionFloor(num, den);
    }
  }

  lemma FractionFloor(num: int, den: int)
    requires 0 < num < den <= 0x7FFF
    ensures 0 <= Fraction(num, den) && Fraction(num, den) * den <= num * 0x8000 < Fraction(num, den) * den + den
  {
    FractionFits(num, den);
    FloorBounds(num * 0x8000, den);
  }

  /** Where no sum saturates, a fixed-point stage is the exact one rounded to the nearest. */
  lemma StageIsRounded(k: seq<Word>, p: seq<Word>, rn: Word, n: nat, m: nat)
    requires |k| == |p| == 9 && 1 <= n < 8 && 1 <= m <= 8 - n && rn != -0x8000
    ensures InI16(p[m + 1] as int + MultR(k[m], rn) as int) ==>
              Abs(32768 * NextP(k, p, rn, n)[m] as int - (32768 * p[m + 1] as int + k[m] as int * rn as int)) <= 16384
    ensures InI16(k[m] as int + MultR(p[m + 1], rn) as int) ==>
              Abs(32768 * NextK(k, p, rn, n)[m] as int - (32768 * k[m] as int + p[m + 1] as int * rn as int)) <= 16384
    ensures InI16(p[0] as int + MultR(p[1], rn) as int) ==>
              Abs(32768 * NextP(k, p, rn, n)[0] as int - (32768 * p[0] as int + p[1] as int * rn as int)) <= 16384
  {
    hide MultR;
    hide Add;
    RoundedSum(p[m + 1], k[m], rn);
    RoundedSum(k[m], p[m + 1], rn);
    RoundedSum(p[0], p[1], rn);
  }

  lemma RoundedSum(x: Word, a: Word, b: Word)
    requires b != -0x8000
    ensures InI16(x as int + MultR(a, b) as int) ==>
              Abs(32768 * Add(x, MultR(a, b)) as int - (32768 * x as int + a as int * b as int)) <= 16384
  {
    Rounded(a, b);
    hide MultR;
  }

  /** Normalizing scales all nine correlations alike, and brings the energy just below the sign bit. */
  lemma NormalizingKeepsRatios(acf: seq<int>, i: nat)
    requires Dominated(acf) && acf[0] != 0 && i < 9
    ensures Norm(acf[0]) >= 0
    ensures var scale := Pow2(Norm(acf[0]));
            65536 * Normalized(acf, i) as int <= acf[i] * scale < 65536 * (Normalized(acf, i) as int + 1)
    ensures 16384 <= Normalized(acf, 0)
  {
    hide Norm;
    hide Pow2;
    NormFits(acf[0]);
  }

  /** Where no sum saturates, a stage of the fixed-point lattice is the exact one rounded to the nearest. */
  lemma LatticeStageIsRounded(u: seq<Word>, rp: seq<Word>, s: Word, i: nat)
    requires |u| == |rp| == 8 && i < 8 && u[i] != -0x8000 && Analysis(u, rp, s, i).di != -0x8000
    ensures var f, next := Analysis(u, rp, s, i), Analysis(u, rp, s, i + 1);
            && (InI16(f.di as int + MultR(rp[i], u[i]) as int) ==>
                  Abs(32768 * next.di as int - (32768 * f.di as int + rp[i] as int * u[i] as int)) <= 16384)
            && (InI16(u[i] as int + MultR(rp[i], f.di) as int) ==>
                  Abs(32768 * next.sav as int - (32768 * u[i] as int + rp[i] as int * f.di as int)) <= 16384)
  {
    hide MultR;
    hide Add;
    var f := Analysis(u, rp, s, i);
    assert f.u[i] == f.u[i..][0] == u[i];
    RoundedSum(f.di, rp[i], u[i]);
    RoundedSum(u[i], rp[i], f.di);
  }
}
