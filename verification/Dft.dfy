/**
 * Finite sums of complex terms and the quadratic discrete Fourier transform: the reference the
 * fast transform in `RealFft` is compared with. Everything here is stated for an arbitrary root of
 * unity `w`, given by `w * conj(w) == 1` and `w^(n/2) == -1`.
 */
module Dft {
  import opened Arithmetic
  import opened ComplexNumbers
  import opened PowersOfTwo

  // ---- Finite sums ------------------------------------------------------------------------

  ghost function Sum(n: nat, f: nat -> Complex): Complex {
    if n == 0 then ZERO else Add(Sum(n - 1, f), f(n - 1))
  }

  lemma {:induction false} SumExt(n: nat, f: nat -> Complex, g: nat -> Complex)
    requires forall i: nat :: i < n ==> f(i) == g(i)
    ensures Sum(n, f) == Sum(n, g)
  {
    if n != 0 { SumExt(n - 1, f, g); }
  }

  lemma {:induction false} SumAdd(n: nat, f: nat -> Complex, g: nat -> Complex)
    ensures Sum(n, (i: nat) => Add(f(i), g(i))) == Add(Sum(n, f), Sum(n, g))
  {
    if n != 0 { SumAdd(n - 1, f, g); }
  }

  lemma {:induction false} SumMul(n: nat, c: Complex, f: nat -> Complex)
    ensures Sum(n, (i: nat) => Mul(c, f(i))) == Mul(c, Sum(n, f))
  {
    hide Mul;
    if n == 0 {
      MulZero(c);
    } else {
      SumMul(n - 1, c, f);
      MulDistrib(c, Sum(n - 1, f), f(n - 1));
    }
  }

  lemma MulZero(c: Complex)
    ensures Mul(c, ZERO) == ZERO
  {
  }

  lemma {:induction false} SumConj(n: nat, f: nat -> Complex)
    ensures Sum(n, (i: nat) => Conj(f(i))) == Conj(Sum(n, f))
  {
    hide Conj;
    hide Add;
    if n == 0 {
      ConjAdd(ZERO, ZERO);
    } else {
      SumConj(n - 1, f);
      ConjAdd(Sum(n - 1, f), f(n - 1));
    }
  }

  lemma ConjAdd(a: Complex, b: Complex)
    ensures Conj(Add(a, b)) == Add(Conj(a), Conj(b))
    ensures Conj(ZERO) == ZERO
  {
  }

  lemma {:induction false} SumZero(n: nat, f: nat -> Complex)
    requires forall i: nat :: i < n ==> f(i) == ZERO
    ensures Sum(n, f) == ZERO
  {
    if n != 0 { SumZero(n - 1, f); }
  }

  /** A sum with at most one non-zero term is that term. */
  lemma {:induction false} SumSingle(n: nat, f: nat -> Complex, at: nat)
    requires at < n
    requires forall i: nat :: i < n && i != at ==> f(i) == ZERO
    ensures Sum(n, f) == f(at)
  {
    if at == n - 1 {
      SumZero(n - 1, f);
    } else {
      SumSingle(n - 1, f, at);
    }
  }

  /** A sum over `2 * h` terms, taken by even and odd index. */
  lemma {:induction false} SumEvenOdd(h: nat, f: nat -> Complex)
    ensures Sum(2 * h, f)
         == Add(Sum(h, (j: nat) => f(2 * j)), Sum(h, (j: nat) => f(2 * j + 1)))
  {
    hide Sum;
    hide Add;
    var even, odd := (j: nat) => f(2 * j), (j: nat) => f(2 * j + 1);
    SumNone(f);
    SumNone(even);
    SumNone(odd);
    if h == 0 {
      AddZero();
    } else {
      var k := h - 1;
      SumEvenOdd(k, f);
      SumStep(2 * k, f);
      SumStep(2 * k + 1, f);
      SumStep(k, even);
      SumStep(k, odd);
      AddPairs(Sum(k, even), Sum(k, odd), f(2 * k), f(2 * k + 1));
    }
  }

  lemma SumNone(f: nat -> Complex)
    ensures Sum(0, f) == ZERO
  {
  }

  lemma SumStep(n: nat, f: nat -> Complex)
    ensures Sum(n + 1, f) == Add(Sum(n, f), f(n))
  {
  }

  lemma AddZero()
    ensures Add(ZERO, ZERO) == ZERO
  {
  }

  lemma AddPairs(a: Complex, b: Complex, c: Complex, d: Complex)
    ensures Add(Add(Add(a, b), c), d) == Add(Add(a, c), Add(b, d))
  {
  }

  /** A sum over `a + b` terms, split after the first `a`. */
  lemma {:induction false} SumConcat(a: nat, b: nat, f: nat -> Complex)
    ensures Sum(a + b, f) == Add(Sum(a, f), Sum(b, (j: nat) => f(a + j)))
  {
    if b != 0 {
      SumConcat(a, b - 1, f);
    }
  }

  ghost function Rows(b: nat, f: (nat, nat) -> Complex): nat -> Complex {
    (i: nat) => Sum(b, (j: nat) => f(i, j))
  }

  ghost function Columns(a: nat, f: (nat, nat) -> Complex): nat -> Complex {
    (j: nat) => Sum(a, (i: nat) => f(i, j))
  }

  /** The two orders of a finite double sum agree. */
  lemma {:induction false} SumSwap(a: nat, b: nat, f: (nat, nat) -> Complex)
    ensures Sum(a, Rows(b, f)) == Sum(b, Columns(a, f))
  {
    if a == 0 {
      SumZero(b, Columns(0, f));
    } else {
      SumSwap(a - 1, b, f);
      var last := (j: nat) => f(a - 1, j);
      SumAdd(b, Columns(a - 1, f), last);
      SumExt(b, Columns(a, f), (j: nat) => Add(Columns(a - 1, f)(j), last(j)));
      SumExt(b, last, (j: nat) => f(a - 1, j));
    }
  }

  // ---- The transform, and its decimation in time -------------------------------------------

  ghost function At(x: seq<Complex>, i: nat): Complex {
    if i < |x| then x[i] else ZERO
  }

  /** The quadratic transform: bin `k` of `x` under the root `w`. */
  ghost function DftAt(x: seq<Complex>, w: Complex, k: nat): Complex {
    Sum(|x|, (m: nat) => Mul(At(x, m), Pow(w, k * m)))
  }

  ghost predicate IsRoot(w: Complex, n: nat) {
    n % 2 == 0 && Mul(w, Conj(w)) == ONE && Pow(w, n / 2) == Neg(ONE)
  }

  ghost function StridedTerm(x: seq<Complex>, w: Complex, r: nat, s: nat, k: nat): nat -> Complex {
    (j: nat) => Mul(At(x, r + s * j), Pow(w, k * j))
  }

  /** Bin `k` of the size-`len` transform of the subsequence `x[r], x[r + s], x[r + 2s], ...`. */
  ghost function StridedDft(x: seq<Complex>, w: Complex, r: nat, s: nat, len: nat, k: nat): Complex {
    Sum(len, StridedTerm(x, w, r, s, k))
  }

  lemma StridedIsDft(x: seq<Complex>, w: Complex, k: nat)
    ensures StridedDft(x, w, 0, 1, |x|, k) == DftAt(x, w, k)
  {
    SumExt(|x|, StridedTerm(x, w, 0, 1, k), (m: nat) => Mul(At(x, m), Pow(w, k * m)));
  }

  lemma EvenTerm(x: seq<Complex>, w: Complex, r: nat, s: nat, k: nat, j: nat)
    ensures StridedTerm(x, w, r, s, k)(2 * j) == StridedTerm(x, Pow(w, 2), r, 2 * s, k)(j)
  {
    hide Mul;
    hide Pow;
    hide At;
    assert s * (2 * j) == 2 * s * j;
    assert k * (2 * j) == 2 * (k * j);
    PowPow(w, 2, k * j);
  }

  lemma OddIndex(r: nat, s: nat, k: nat, j: nat)
    ensures r + s * (2 * j + 1) == r + s + 2 * s * j
    ensures k * (2 * j + 1) == k + 2 * (k * j)
  {
  }

  lemma {:induction false} OddTerm(x: seq<Complex>, w: Complex, r: nat, s: nat, k: nat, j: nat)
    ensures StridedTerm(x, w, r, s, k)(2 * j + 1)
         == Mul(Pow(w, k), StridedTerm(x, Pow(w, 2), r + s, 2 * s, k)(j))
  {
    hide Mul;
    hide Pow;
    hide At;
    var v := At(x, r + s + 2 * s * j);
    OddIndex(r, s, k, j);
    PowPow(w, 2, k * j);
    PowAdd(w, k, 2 * (k * j));
    var q := Pow(w, 2 * (k * j));
    MulAssoc(v, Pow(w, k), q);
    MulComm(v, Pow(w, k));
    MulAssoc(Pow(w, k), v, q);
  }

  /** Decimation in time: a transform of even size is two half-size ones over the squared root. */
  lemma Decimate(x: seq<Complex>, w: Complex, r: nat, s: nat, h: nat, k: nat)
    ensures StridedDft(x, w, r, s, 2 * h, k)
         == Add(StridedDft(x, Pow(w, 2), r, 2 * s, h, k),
                Mul(Pow(w, k), StridedDft(x, Pow(w, 2), r + s, 2 * s, h, k)))
  {
    hide Mul;
    hide Pow;
    hide Sum;
    hide StridedTerm;
    var f := StridedTerm(x, w, r, s, k);
    var even := StridedTerm(x, Pow(w, 2), r, 2 * s, k);
    var odd := StridedTerm(x, Pow(w, 2), r + s, 2 * s, k);
    SumEvenOdd(h, f);
    forall j: nat | j < h ensures f(2 * j) == even(j) { EvenTerm(x, w, r, s, k, j); }
    SumExt(h, (j: nat) => f(2 * j), even);
    forall j: nat | j < h ensures f(2 * j + 1) == Mul(Pow(w, k), odd(j)) { OddTerm(x, w, r, s, k, j); }
    SumExt(h, (j: nat) => f(2 * j + 1), (j: nat) => Mul(Pow(w, k), odd(j)));
    SumMul(h, Pow(w, k), odd);
  }

  lemma MulOne(a: Complex)
    ensures Mul(ONE, a) == a == Mul(a, ONE)
  {
  }

  lemma MulNegOne(a: Complex)
    ensures Mul(Neg(ONE), a) == Neg(a) == Mul(a, Neg(ONE))
  {
  }

  lemma NegNeg()
    ensures Neg(Neg(ONE)) == ONE
  {
  }

  lemma MulNeg(a: Complex, b: Complex)
    ensures Mul(Neg(a), b) == Neg(Mul(a, b))
  {
  }

  lemma SquareHasHalfOrder(w: Complex, h: nat)
    requires Pow(w, h) == Neg(ONE)
    ensures Pow(Pow(w, 2), h) == ONE
  {
    hide *;
    PowPow(w, 2, h);
    PowAdd(w, h, h);
    assert Mul(Neg(ONE), Neg(ONE)) == ONE by { MulNegOne(Neg(ONE)); NegNeg(); }
  }

  lemma {:induction false} PeriodicPower(u: Complex, h: nat, k: nat, j: nat)
    requires Pow(u, h) == ONE
    ensures Pow(u, (k + h) * j) == Pow(u, k * j)
  {
    hide *;
    SumTimes(k, h, j);
    PowAdd(u, k * j, h * j);
    PowPow(u, h, j);
    PowOne(j);
    MulOne(Pow(u, k * j));
  }

  /** A half-size transform repeats after `h` bins. */
  lemma HalfPeriod(x: seq<Complex>, w: Complex, r: nat, s: nat, h: nat, k: nat)
    requires Pow(w, h) == Neg(ONE)
    ensures StridedDft(x, Pow(w, 2), r, s, h, k + h) == StridedDft(x, Pow(w, 2), r, s, h, k)
  {
    hide Mul;
    hide Pow;
    var u := Pow(w, 2);
    SquareHasHalfOrder(w, h);
    forall j: nat | j < h
      ensures StridedTerm(x, u, r, s, k + h)(j) == StridedTerm(x, u, r, s, k)(j)
    {
      PeriodicPower(u, h, k, j);
    }
    SumExt(h, StridedTerm(x, u, r, s, k + h), StridedTerm(x, u, r, s, k));
  }

  /** The butterfly: both halves of a block of size `2h` from the two blocks of size `h`. */
  lemma Butterfly(x: seq<Complex>, w: Complex, r: nat, s: nat, h: nat, k: nat)
    requires Pow(w, h) == Neg(ONE)
    ensures var e := StridedDft(x, Pow(w, 2), r, 2 * s, h, k);
            var o := StridedDft(x, Pow(w, 2), r + s, 2 * s, h, k);
            && StridedDft(x, w, r, s, 2 * h, k) == Add(e, Mul(o, Pow(w, k)))
            && StridedDft(x, w, r, s, 2 * h, k + h) == Sub(e, Mul(o, Pow(w, k)))
  {
    hide Mul;
    var o := StridedDft(x, Pow(w, 2), r + s, 2 * s, h, k);
    Decimate(x, w, r, s, h, k);
    Decimate(x, w, r, s, h, k + h);
    HalfPeriod(x, w, r, 2 * s, h, k);
    HalfPeriod(x, w, r + s, 2 * s, h, k);
    PowAdd(w, k, h);
    MulNegOne(Pow(w, k));
    MulComm(Pow(w, k), o);
    MulNeg(Pow(w, k), o);
  }

  // ---- Orthogonality and inversion -----------------------------------------------------------

  ghost function Powers(u: Complex): nat -> Complex {
    (k: nat) => Pow(u, k)
  }

  /** A geometric sum of even length, folded at its middle. */
  lemma FoldGeometric(u: Complex, h: nat)
    ensures Sum(2 * h, Powers(u)) == Mul(Add(ONE, Pow(u, h)), Sum(h, Powers(u)))
  {
    hide Mul;
    hide Pow;
    hide Add;
    hide Sum;
    var f := Powers(u);
    var g := Sum(h, f);
    SumConcat(h, h, f);
    forall j: nat | j < h ensures f(h + j) == Mul(Pow(u, h), f(j)) { PowAdd(u, h, j); }
    SumExt(h, (j: nat) => f(h + j), (j: nat) => Mul(Pow(u, h), f(j)));
    SumMul(h, Pow(u, h), f);
    MulComm(Add(ONE, Pow(u, h)), g);
    MulDistrib(g, ONE, Pow(u, h));
    MulOne(g);
    MulComm(g, Pow(u, h));
  }

  lemma {:induction false} NegOnePow(e: nat)
    ensures Pow(Neg(ONE), e) == if e % 2 == 0 then ONE else Neg(ONE)
  {
    hide Mul;
    hide Neg;
    if e != 0 {
      NegOnePow(e - 1);
      MulNegOne(Pow(Neg(ONE), e - 1));
      NegNeg();
    }
  }

  lemma HalfwayPower(w: Complex, h: nat, d: nat)
    requires Pow(w, h) == Neg(ONE)
    ensures Pow(Pow(w, d), h) == if d % 2 == 0 then ONE else Neg(ONE)
  {
    hide *;
    PowPow(w, d, h);
    PowPow(w, h, d);
    assert d * h == h * d;
    NegOnePow(d);
  }

  lemma FoldVanishes(u: Complex, h: nat)
    requires Pow(u, h) == Neg(ONE) || Sum(h, Powers(u)) == ZERO
    ensures Sum(2 * h, Powers(u)) == ZERO
  {
    hide Mul;
    hide Pow;
    hide Sum;
    var c, g := Add(ONE, Pow(u, h)), Sum(h, Powers(u));
    FoldGeometric(u, h);
    MulComm(c, g);
    MulZero(c);
    MulZero(g);
  }

  /** The powers of a non-trivial power of a `2^(p+1)`-th root of unity add up to zero. */
  lemma {:induction false} PowersCancel(w: Complex, p: nat, d: nat)
    requires Pow(w, Pow2(p)) == Neg(ONE)
    requires 0 < d < Pow2(p + 1)
    ensures Sum(Pow2(p + 1), Powers(Pow(w, d))) == ZERO
    decreases p
  {
    hide Mul;
    hide Pow;
    hide Sum;
    hide Neg;
    hide Powers;
    if d % 2 == 1 {
      HalfwayPower(w, Pow2(p), d);
    } else {
      PowPow(w, 2, Pow2(p - 1));
      PowPow(w, 2, d / 2);
      PowersCancel(Pow(w, 2), p - 1, d / 2);
    }
    FoldVanishes(Pow(w, d), Pow2(p));
  }

  lemma {:induction false} SumOfOnes(n: nat)
    ensures Sum(n, Powers(ONE)) == Complex(n as real, 0.0)
  {
    hide Mul;
    if n != 0 {
      SumOfOnes(n - 1);
      PowOne(n - 1);
    }
  }

  lemma KernelTerm(w: Complex, v: Complex, k: nat, a: nat, b: nat)
    requires Mul(w, v) == ONE && b <= a
    ensures Mul(Pow(w, k * a), Pow(v, k * b)) == Pow(Pow(w, a - b), k)
  {
    hide *;
    assert k * a == (a - b) * k + k * b;
    PowAdd(w, (a - b) * k, k * b);
    PowPow(w, a - b, k);
    var p, q, t := Pow(w, (a - b) * k), Pow(w, k * b), Pow(v, k * b);
    MulAssoc(p, q, t);
    PowMul(w, v, k * b);
    PowOne(k * b);
    MulOne(p);
  }

  ghost function Kernel(w: Complex, j: nat, m: nat): nat -> Complex {
    (k: nat) => Mul(Pow(w, k * j), Pow(Conj(w), m * k))
  }

  ghost function KernelBase(w: Complex, j: nat, m: nat): Complex {
    if m <= j then Pow(w, j - m) else Pow(Conj(w), m - j)
  }

  lemma KernelIsPower(w: Complex, j: nat, m: nat, k: nat)
    requires Mul(w, Conj(w)) == ONE
    ensures Kernel(w, j, m)(k) == Powers(KernelBase(w, j, m))(k)
  {
    hide Mul;
    hide Pow;
    var v := Conj(w);
    assert m * k == k * m;
    if m <= j {
      KernelTerm(w, v, k, j, m);
    } else {
      MulComm(w, v);
      MulComm(Pow(w, k * j), Pow(v, k * m));
      KernelTerm(v, w, k, m, j);
    }
  }

  lemma RootFacts(w: Complex, p: nat)
    requires IsRoot(w, Pow2(p + 1))
    ensures Mul(w, Conj(w)) == ONE
    ensures Pow(w, Pow2(p)) == Neg(ONE)
    ensures Pow(Conj(w), Pow2(p)) == Neg(ONE)
  {
    hide Mul;
    hide Pow;
    PowConj(w, Pow2(p));
  }

  /** Orthogonality: the kernel of a transform and back sums to `n` on the diagonal, else to zero. */
  lemma Orthogonality(w: Complex, p: nat, j: nat, m: nat)
    requires IsRoot(w, Pow2(p + 1))
    requires j < Pow2(p + 1) && m < Pow2(p + 1)
    ensures Sum(Pow2(p + 1), Kernel(w, j, m))
         == if j == m then Complex(Pow2(p + 1) as real, 0.0) else ZERO
  {
    hide Mul;
    hide Pow;
    hide Sum;
    hide Kernel;
    hide Powers;
    hide IsRoot;
    hide Neg;
    hide Conj;
    RootFacts(w, p);
    var n, u := Pow2(p + 1), KernelBase(w, j, m);
    forall k: nat | k < n ensures Kernel(w, j, m)(k) == Powers(u)(k) { KernelIsPower(w, j, m, k); }
    SumExt(n, Kernel(w, j, m), Powers(u));
    if m < j {
      PowersCancel(w, p, j - m);
    } else if j < m {
      PowersCancel(Conj(w), p, m - j);
    } else {
      PowZero(w);
      SumOfOnes(n);
    }
  }

  lemma PowZero(w: Complex)
    ensures Pow(w, 0) == ONE
  {
  }

  ghost function Spectrum(x: seq<Complex>, w: Complex): (bins: seq<Complex>)
    ensures |bins| == |x|
  {
    seq(|x|, (k: nat) => DftAt(x, w, k))
  }

  ghost function RoundTripTerm(x: seq<Complex>, w: Complex, m: nat): (nat, nat) -> Complex {
    (k: nat, j: nat) => Mul(At(x, j), Kernel(w, j, m)(k))
  }

  lemma RoundTripRow(x: seq<Complex>, w: Complex, m: nat, k: nat)
    ensures Rows(|x|, RoundTripTerm(x, w, m))(k) == Mul(DftAt(x, w, k), Pow(Conj(w), m * k))
  {
    hide Mul;
    hide Pow;
    var c := Pow(Conj(w), m * k);
    var f := (j: nat) => Mul(At(x, j), Pow(w, k * j));
    forall j: nat | j < |x| ensures RoundTripTerm(x, w, m)(k, j) == Mul(c, f(j)) {
      assert Kernel(w, j, m)(k) == Mul(Pow(w, k * j), c);
      MulAssoc(At(x, j), Pow(w, k * j), c);
      MulComm(f(j), c);
    }
    SumExt(|x|, (j: nat) => RoundTripTerm(x, w, m)(k, j), (j: nat) => Mul(c, f(j)));
    SumMul(|x|, c, f);
    MulComm(c, Sum(|x|, f));
  }

  lemma RoundTripColumn(x: seq<Complex>, w: Complex, p: nat, m: nat, j: nat)
    requires |x| == Pow2(p + 1) && IsRoot(w, |x|)
    requires j < |x| && m < |x|
    ensures Columns(|x|, RoundTripTerm(x, w, m))(j)
         == if j == m then Mul(x[m], Complex(|x| as real, 0.0)) else ZERO
  {
    hide Mul;
    hide Pow;
    hide Sum;
    var f := RoundTripTerm(x, w, m);
    SumExt(|x|, (k: nat) => f(k, j), (k: nat) => Mul(At(x, j), Kernel(w, j, m)(k)));
    SumMul(|x|, At(x, j), Kernel(w, j, m));
    Orthogonality(w, p, j, m);
    MulZero(At(x, j));
  }

  /** Transforming back under the conjugate root gives every sample, scaled by the size. */
  lemma Inversion(x: seq<Complex>, w: Complex, p: nat, m: nat)
    requires |x| == Pow2(p + 1) && IsRoot(w, |x|)
    requires m < |x|
    ensures DftAt(Spectrum(x, w), Conj(w), m) == Scale(|x| as real, x[m])
  {
    hide Mul;
    hide Pow;
    hide Sum;
    var n, f := |x|, RoundTripTerm(x, w, m);
    var back := (k: nat) => Mul(At(Spectrum(x, w), k), Pow(Conj(w), m * k));
    forall k: nat | k < n ensures back(k) == Rows(n, f)(k) { RoundTripRow(x, w, m, k); }
    SumExt(n, back, Rows(n, f));
    SumSwap(n, n, f);
    forall j: nat | j < n
      ensures Columns(n, f)(j) == if j == m then Mul(x[m], Complex(n as real, 0.0)) else ZERO
    {
      RoundTripColumn(x, w, p, m, j);
    }
    SumSingle(n, Columns(n, f), m);
    ScaleIsMul(x[m], n as real);
  }

  lemma ScaleIsMul(a: Complex, r: real)
    ensures Mul(a, Complex(r, 0.0)) == Scale(r, a)
  {
  }
}
