/**
 * What a half spectrum knows: Hermitian symmetry of real signals, the two round trips between
 * `n` real samples and `n/2 + 1` bins, and the energy balance. All for every size `2^(p+1)`.
 */
module Spectra {
  import opened ComplexNumbers
  import opened Dft
  import opened PowersOfTwo

  /** `input`, cut or zero-filled to `n` samples, as complex numbers. */
  ghost function Padded(input: seq<real>, n: nat): (x: seq<Complex>)
    ensures |x| == n
  {
    seq(n, i requires 0 <= i => Complex(if i < |input| then input[i] else 0.0, 0.0))
  }

  /** `input`, cut or zero-filled to `n/2 + 1` bins. */
  ghost function HalfSpectrum(input: seq<Complex>, n: nat): (bins: seq<Complex>)
    ensures |bins| == n / 2 + 1
  {
    seq(n / 2 + 1, i requires 0 <= i => if i < |input| then input[i] else ZERO)
  }

  /** The full spectrum a half spectrum stands for: the bins above `n/2` mirror the ones below. */
  ghost function Mirrored(bins: seq<Complex>, n: nat): (full: seq<Complex>)
    requires n % 2 == 0 && |bins| == n / 2 + 1
    ensures |full| == n
  {
    seq(n, i requires 0 <= i < n => if i <= n / 2 then bins[i] else Conj(bins[n - i]))
  }

  function Reciprocal(n: nat): real
    requires n > 0
  {
    1.0 / n as real
  }

  ghost function Scaled(r: real, x: seq<Complex>): (y: seq<Complex>)
    ensures |y| == |x|
  {
    seq(|x|, i requires 0 <= i < |x| => Scale(r, x[i]))
  }

  ghost function RealParts(x: seq<Complex>): (y: seq<real>)
    ensures |y| == |x|
  {
    seq(|x|, i requires 0 <= i < |x| => x[i].re)
  }

  /** The samples the inverse transform produces from `n/2 + 1` bins. */
  ghost function InverseOf(bins: seq<Complex>, w: Complex, n: nat): (y: seq<real>)
    requires n % 2 == 0 && n > 0 && |bins| == n / 2 + 1
    ensures |y| == n
  {
    RealParts(Scaled(Reciprocal(n), Spectrum(Mirrored(bins, n), Conj(w))))
  }

  /** The bins the forward transform produces from real samples. */
  ghost function ForwardOf(x: seq<real>, w: Complex, n: nat): (bins: seq<Complex>)
    ensures |bins| == n / 2 + 1
  {
    seq(n / 2 + 1, (k: nat) => DftAt(Padded(x, n), w, k))
  }

  // ---- Conjugate bins ------------------------------------------------------------------------

  ghost function Conjugated(x: seq<Complex>): (y: seq<Complex>)
    ensures |y| == |x|
  {
    seq(|x|, i requires 0 <= i < |x| => Conj(x[i]))
  }

  lemma OppositePowers(w: Complex, a: nat, b: nat, m: nat)
    requires Mul(w, Conj(w)) == ONE && Pow(w, a + b) == ONE
    ensures Pow(w, b * m) == Conj(Pow(w, a * m))
  {
    hide *;
    var p, q, t := Pow(w, b * m), Pow(w, a * m), Pow(Conj(w), a * m);
    assert (a + b) * m == b * m + a * m;
    PowAdd(w, b * m, a * m);
    PowPow(w, a + b, m);
    PowOne(m);
    PowMul(w, Conj(w), a * m);
    PowOne(a * m);
    MulAssoc(p, q, t);
    MulOne(p);
    MulOne(t);
    PowConj(w, a * m);
  }

  /** Conjugating a signal mirrors and conjugates its spectrum. */
  lemma ConjugateBin(x: seq<Complex>, w: Complex, a: nat, b: nat)
    requires Mul(w, Conj(w)) == ONE && Pow(w, a + b) == ONE
    ensures DftAt(Conjugated(x), w, b) == Conj(DftAt(x, w, a))
  {
    hide Mul;
    hide Pow;
    hide Sum;
    var f := (m: nat) => Mul(At(x, m), Pow(w, a * m));
    var g := (m: nat) => Mul(At(Conjugated(x), m), Pow(w, b * m));
    forall m: nat | m < |x| ensures g(m) == Conj(f(m)) {
      OppositePowers(w, a, b, m);
      ConjMul(x[m], Pow(w, a * m));
    }
    SumExt(|x|, g, (m: nat) => Conj(f(m)));
    SumConj(|x|, f);
  }

  lemma FullTurn(w: Complex, n: nat)
    requires IsRoot(w, n)
    ensures Pow(w, n) == ONE && Pow(w, 0) == ONE
    ensures Pow(Conj(w), n / 2) == Neg(ONE) && Mul(Conj(w), w) == ONE
  {
    hide Mul;
    PowAdd(w, n / 2, n / 2);
    assert Mul(Neg(ONE), Neg(ONE)) == ONE by { MulNegOne(Neg(ONE)); }
    PowConj(w, n / 2);
    MulComm(w, Conj(w));
  }

  /** Hermitian symmetry: bins `k` and `n - k` of a real signal are conjugate. */
  lemma Hermitian(x: seq<real>, w: Complex, n: nat, k: nat)
    requires IsRoot(w, n) && k <= n
    ensures DftAt(Padded(x, n), w, n - k) == Conj(DftAt(Padded(x, n), w, k))
  {
    hide DftAt;
    FullTurn(w, n);
    assert Conjugated(Padded(x, n)) == Padded(x, n);
    ConjugateBin(Padded(x, n), w, k, n - k);
  }

  // ---- The round trips -----------------------------------------------------------------------

  lemma MirrorOfForward(x: seq<real>, w: Complex, n: nat)
    requires IsRoot(w, n)
    ensures Mirrored(ForwardOf(x, w, n), n) == Spectrum(Padded(x, n), w)
  {
    hide DftAt;
    hide Padded;
    var full := Mirrored(ForwardOf(x, w, n), n);
    forall i: nat | i < n ensures full[i] == DftAt(Padded(x, n), w, i) {
      if i > n / 2 { Hermitian(x, w, n, n - i); }
    }
  }

  /** `inverse(forward(x)) == x` for every real signal. */
  lemma InverseOfForward(x: seq<real>, w: Complex, p: nat)
    requires |x| == Pow2(p + 1) && IsRoot(w, |x|)
    ensures InverseOf(ForwardOf(x, w, |x|), w, |x|) == x
  {
    hide IsRoot;
    hide Spectrum;
    hide ForwardOf;
    hide Reciprocal;
    hide Scale;
    hide Mirrored;
    hide DftAt;
    hide Conj;
    hide InverseOf;
    var n := |x|;
    EvenPower(p);
    forall m: nat | m < n ensures InverseOf(ForwardOf(x, w, n), w, n)[m] == x[m] {
      InverseOfForwardAt(x, w, p, m);
    }
  }

  lemma EvenPower(p: nat)
    ensures Pow2(p + 1) % 2 == 0 && Pow2(p + 1) > 0
  {
  }

  lemma InverseOfForwardAt(x: seq<real>, w: Complex, p: nat, m: nat)
    requires |x| == Pow2(p + 1) && |x| % 2 == 0 && IsRoot(w, |x|) && m < |x|
    ensures InverseOf(ForwardOf(x, w, |x|), w, |x|)[m] == x[m]
  {
    hide IsRoot;
    hide Spectrum;
    hide ForwardOf;
    hide Reciprocal;
    hide Scale;
    hide Mirrored;
    hide DftAt;
    hide Conj;
    hide Pow2;
    MirrorOfForward(x, w, |x|);
    InverseSample(Padded(x, |x|), w, p, m);
  }

  lemma InverseSample(x: seq<Complex>, w: Complex, p: nat, m: nat)
    requires |x| == Pow2(p + 1) && IsRoot(w, |x|) && m < |x|
    ensures Scaled(Reciprocal(|x|), Spectrum(Spectrum(x, w), Conj(w)))[m] == x[m]
  {
    hide IsRoot;
    hide DftAt;
    hide Pow2;
    Inversion(x, w, p, m);
    Unscale(|x| as real, x[m]);
  }

  lemma Unscale(r: real, a: Complex)
    requires r != 0.0
    ensures Scale(1.0 / r, Scale(r, a)) == a
  {
  }

  /** The spectrum of the real part of a signal is the Hermitian part of its spectrum. */
  lemma RealPartBin(z: seq<Complex>, w: Complex, a: nat, b: nat)
    requires Mul(w, Conj(w)) == ONE && Pow(w, a + b) == ONE
    ensures Scale(2.0, DftAt(Padded(RealParts(z), |z|), w, b))
         == Add(DftAt(z, w, b), Conj(DftAt(z, w, a)))
  {
    hide Mul;
    hide Pow;
    hide Sum;
    var y, c := Padded(RealParts(z), |z|), Conjugated(z);
    var two := Complex(2.0, 0.0);
    var f := (m: nat) => Mul(At(z, m), Pow(w, b * m));
    var g := (m: nat) => Mul(At(c, m), Pow(w, b * m));
    var h := (m: nat) => Mul(At(y, m), Pow(w, b * m));
    forall m: nat | m < |z| ensures Add(f(m), g(m)) == Mul(two, h(m)) {
      TwiceRealPart(z[m], Pow(w, b * m));
    }
    SumExt(|z|, (m: nat) => Add(f(m), g(m)), (m: nat) => Mul(two, h(m)));
    SumAdd(|z|, f, g);
    SumMul(|z|, two, h);
    ScaleIsMul(Sum(|z|, h), 2.0);
    MulComm(two, Sum(|z|, h));
    ConjugateBin(z, w, a, b);
  }

  lemma TwiceRealPart(z: Complex, t: Complex)
    ensures Add(Mul(z, t), Mul(Conj(z), t)) == Mul(Complex(2.0, 0.0), Mul(Complex(z.re, 0.0), t))
  {
  }

  lemma RealPartOfInverse(full: seq<Complex>, w: Complex, p: nat, k: nat, opposite: nat)
    requires |full| == Pow2(p + 1) && IsRoot(w, |full|) && k < |full| && opposite < |full|
    requires Pow(w, opposite + k) == ONE
    ensures Scale(2.0, DftAt(Padded(RealParts(Scaled(Reciprocal(|full|), Spectrum(full, Conj(w)))), |full|), w, k))
         == Add(full[k], Conj(full[opposite]))
  {
    hide *;
    RootFacts(w, p);
    SpectrumOfInverse(full, w, p, k);
    SpectrumOfInverse(full, w, p, opposite);
    RealPartBin(Scaled(Reciprocal(|full|), Spectrum(full, Conj(w))), w, opposite, k);
  }

  /** Forward after inverse keeps every inner bin and the real parts of the two outer ones. */
  lemma ForwardOfInverse(bins: seq<Complex>, w: Complex, p: nat, k: nat)
    requires IsRoot(w, Pow2(p + 1)) && |bins| == Pow2(p) + 1 && k <= Pow2(p)
    ensures ForwardOf(InverseOf(bins, w, Pow2(p + 1)), w, Pow2(p + 1))[k]
         == if k == 0 || k == Pow2(p) then Complex(bins[k].re, 0.0) else bins[k]
  {
    hide IsRoot;
    hide Reciprocal;
    hide Conj;
    hide DftAt;
    hide Pow;
    hide Mul;
    hide Mirrored;
    hide Spectrum;
    hide Scaled;
    hide RealParts;
    hide Padded;
    hide Add;
    hide Scale;
    var n := Pow2(p + 1);
    var opposite := if k == 0 then 0 else n - k;
    RootTurn(w, n);
    MirroredPair(bins, n, k);
    RealPartOfInverse(Mirrored(bins, n), w, p, k, opposite);
    HalfSum(DftAt(Padded(InverseOf(bins, w, n), n), w, k), Mirrored(bins, n)[k], Mirrored(bins, n)[opposite]);
  }

  lemma MirroredPair(bins: seq<Complex>, n: nat, k: nat)
    requires n % 2 == 0 && n > 0 && |bins| == n / 2 + 1 && k <= n / 2
    ensures var opposite := if k == 0 then 0 else n - k;
            && Mirrored(bins, n)[k] == bins[k]
            && Mirrored(bins, n)[opposite] == if k == 0 || k == n / 2 then bins[k] else Conj(bins[k])
  {
  }

  lemma RootTurn(w: Complex, n: nat)
    requires IsRoot(w, n)
    ensures Pow(w, n) == ONE && Pow(w, 0) == ONE
  {
    FullTurn(w, n);
  }

  lemma HalfSum(d: Complex, a: Complex, b: Complex)
    requires Scale(2.0, d) == Add(a, Conj(b))
    ensures b == Conj(a) ==> d == a
    ensures b == a ==> d == Complex(a.re, 0.0)
  {
  }

  /** Transforming the inverse of a full spectrum gives that spectrum. */
  lemma SpectrumOfInverse(full: seq<Complex>, w: Complex, p: nat, k: nat)
    requires |full| == Pow2(p + 1) && IsRoot(w, |full|) && k < |full|
    ensures DftAt(Scaled(Reciprocal(|full|), Spectrum(full, Conj(w))), w, k) == full[k]
  {
    hide Mul;
    hide Pow;
    hide Sum;
    var n, s := |full|, Spectrum(full, Conj(w));
    var r := Reciprocal(n);
    ConjRoot(w, n);
    Inversion(full, Conj(w), p, k);
    var f := (m: nat) => Mul(At(s, m), Pow(w, k * m));
    var g := (m: nat) => Mul(At(Scaled(r, s), m), Pow(w, k * m));
    forall m: nat | m < n ensures g(m) == Mul(Complex(r, 0.0), f(m)) {
      ScaleIsMul(s[m], r);
      MulComm(s[m], Complex(r, 0.0));
      MulAssoc(Complex(r, 0.0), s[m], Pow(w, k * m));
    }
    SumExt(n, g, (m: nat) => Mul(Complex(r, 0.0), f(m)));
    SumMul(n, Complex(r, 0.0), f);
    ScaleIsMul(Sum(n, f), r);
    MulComm(Complex(r, 0.0), Sum(n, f));
    Unscale(n as real, full[k]);
  }

  lemma ConjRoot(w: Complex, n: nat)
    requires IsRoot(w, n)
    ensures IsRoot(Conj(w), n) && Conj(Conj(w)) == w
  {
    hide Pow;
    hide Mul;
    FullTurn(w, n);
  }

  /** `forward(inverse(X)) == X` exactly for the half spectra whose DC and Nyquist bins are real. */
  lemma ForwardOfInverseIff(bins: seq<Complex>, w: Complex, p: nat)
    requires IsRoot(w, Pow2(p + 1)) && |bins| == Pow2(p) + 1
    ensures ForwardOf(InverseOf(bins, w, Pow2(p + 1)), w, Pow2(p + 1)) == bins
       <==> bins[0].im == 0.0 && bins[Pow2(p)].im == 0.0
  {
    hide IsRoot;
    hide InverseOf;
    hide ForwardOf;
    var back := ForwardOf(InverseOf(bins, w, Pow2(p + 1)), w, Pow2(p + 1));
    forall k: nat | k <= Pow2(p)
      ensures back[k] == if k == 0 || k == Pow2(p) then Complex(bins[k].re, 0.0) else bins[k]
    {
      ForwardOfInverse(bins, w, p, k);
    }
    assert back[0] == Complex(bins[0].re, 0.0) && back[Pow2(p)] == Complex(bins[Pow2(p)].re, 0.0);
  }

  // ---- Energy --------------------------------------------------------------------------------

  ghost function Energy(z: Complex): Complex {
    Complex(z.re * z.re + z.im * z.im, 0.0)
  }

  ghost function EnergyTerm(x: seq<Complex>, w: Complex): (nat, nat) -> Complex {
    (k: nat, m: nat) => Mul(At(x, m), Conj(Mul(At(Spectrum(x, w), k), Pow(Conj(w), m * k))))
  }

  lemma EnergyRow(x: seq<Complex>, w: Complex, k: nat)
    requires k < |x|
    ensures Rows(|x|, EnergyTerm(x, w))(k) == Energy(Spectrum(x, w)[k])
  {
    hide Mul;
    hide Pow;
    var bin := Spectrum(x, w)[k];
    var f := (m: nat) => Mul(At(x, m), Pow(w, k * m));
    forall m: nat | m < |x| ensures EnergyTerm(x, w)(k, m) == Mul(Conj(bin), f(m)) {
      assert m * k == k * m;
      ConjMul(bin, Pow(Conj(w), k * m));
      PowConj(w, k * m);
      MulAssoc(x[m], Conj(bin), Pow(w, k * m));
      MulComm(x[m], Conj(bin));
      MulAssoc(Conj(bin), x[m], Pow(w, k * m));
    }
    SumExt(|x|, (m: nat) => EnergyTerm(x, w)(k, m), (m: nat) => Mul(Conj(bin), f(m)));
    SumMul(|x|, Conj(bin), f);
    ConjTimes(bin);
  }

  lemma ConjTimes(z: Complex)
    ensures Mul(Conj(z), z) == Energy(z)
  {
  }

  lemma EnergyColumn(x: seq<Complex>, w: Complex, p: nat, m: nat)
    requires |x| == Pow2(p + 1) && IsRoot(w, |x|) && m < |x|
    ensures Columns(|x|, EnergyTerm(x, w))(m) == Mul(Complex(|x| as real, 0.0), Energy(x[m]))
  {
    hide Mul;
    hide Pow;
    hide Sum;
    hide IsRoot;
    hide Energy;
    hide Scale;
    hide Pow2;
    var n, s := |x|, Spectrum(x, w);
    var f := (k: nat) => Mul(At(s, k), Pow(Conj(w), m * k));
    var g := (k: nat) => Conj(f(k));
    Inversion(x, w, p, m);
    forall k: nat | k < n ensures EnergyTerm(x, w)(k, m) == Mul(x[m], g(k)) {
      assert f(k) == Mul(At(s, k), Pow(Conj(w), m * k));
    }
    SumExt(n, (k: nat) => EnergyTerm(x, w)(k, m), (k: nat) => Mul(x[m], g(k)));
    SumMul(n, x[m], g);
    SumConj(n, f);
    ScaledEnergy(n as real, x[m]);
  }

  lemma ScaledEnergy(r: real, a: Complex)
    ensures Mul(a, Conj(Scale(r, a))) == Mul(Complex(r, 0.0), Energy(a))
  {
  }

  /** Parseval: the bins carry `n` times the energy of the samples. */
  lemma Parseval(x: seq<Complex>, w: Complex, p: nat)
    requires |x| == Pow2(p + 1) && IsRoot(w, |x|)
    ensures Sum(|x|, (k: nat) => Energy(At(Spectrum(x, w), k)))
         == Mul(Complex(|x| as real, 0.0), Sum(|x|, (m: nat) => Energy(At(x, m))))
  {
    hide Mul;
    hide Pow;
    hide Sum;
    hide IsRoot;
    hide EnergyTerm;
    hide Energy;
    hide Rows;
    hide Columns;
    hide Spectrum;
    var n, f, c := |x|, EnergyTerm(x, w), Complex(|x| as real, 0.0);
    forall k: nat | k < n ensures Rows(n, f)(k) == Energy(At(Spectrum(x, w), k)) { EnergyRow(x, w, k); }
    SumExt(n, Rows(n, f), (k: nat) => Energy(At(Spectrum(x, w), k)));
    SumSwap(n, n, f);
    var e := (m: nat) => Energy(At(x, m));
    forall m: nat | m < n ensures Columns(n, f)(m) == Mul(c, e(m)) { EnergyColumn(x, w, p, m); }
    SumExt(n, Columns(n, f), (m: nat) => Mul(c, e(m)));
    SumMul(n, c, e);
  }

  lemma {:induction false} SumReversed(n: nat, f: nat -> Complex, g: nat -> Complex)
    requires forall i: nat :: i < n ==> g(i) == f(n - 1 - i)
    ensures Sum(n, f) == Sum(n, g)
  {
    hide Add;
    if n != 0 {
      var rest := (j: nat) => g(1 + j);
      SumConcat(1, n - 1, g);
      SumExt(n - 1, (j: nat) => g(1 + j), rest);
      assert forall i: nat :: i < n - 1 ==> rest(i) == f(n - 1 - 1 - i);
      SumReversed(n - 1, f, rest);
      SumOne(g);
      AddComm(g(0), Sum(n - 1, rest));
    }
  }

  /** A sum over `2h` terms that is symmetric about `h`, by its two centres and one half. */
  lemma SumSymmetric(h: nat, f: nat -> Complex)
    requires h > 0 && forall k: nat :: 0 < k < h ==> f(2 * h - k) == f(k)
    ensures Sum(2 * h, f) == Add(Add(f(0), f(h)), Scale(2.0, Sum(h - 1, (j: nat) => f(j + 1))))
  {
    hide Sum;
    hide Add;
    hide Scale;
    var left := (j: nat) => f(j + 1);
    var high := (j: nat) => f(h + j);
    var right := (j: nat) => high(j + 1);
    SumConcat(h, h, f);
    SumFromOne(h, f);
    SumFromOne(h, high);
    forall j: nat | j < h - 1 ensures right(j) == left(h - 1 - 1 - j) {
      assert f(2 * h - (h - 1 - j)) == f(h - 1 - j);
    }
    SumReversed(h - 1, left, right);
    Twice(f(0), f(h), Sum(h - 1, left));
  }

  lemma SumFromOne(n: nat, f: nat -> Complex)
    requires n > 0
    ensures Sum(n, f) == Add(f(0), Sum(n - 1, (j: nat) => f(j + 1)))
  {
    hide Sum;
    hide Add;
    SumConcat(1, n - 1, f);
    SumExt(n - 1, (j: nat) => f(1 + j), (j: nat) => f(j + 1));
    SumOne(f);
  }

  lemma SumOne(f: nat -> Complex)
    ensures Sum(1, f) == f(0)
  {
    assert Sum(1, f) == Add(Sum(0, f), f(0));
  }

  lemma AddComm(a: Complex, b: Complex)
    ensures Add(a, b) == Add(b, a)
  {
  }

  lemma Twice(a: Complex, b: Complex, c: Complex)
    ensures Add(Add(a, c), Add(b, c)) == Add(Add(a, b), Scale(2.0, c))
  {
  }

  /** The energy balance of a real signal, read off the stored half spectrum. */
  lemma HalfSpectrumEnergy(x: seq<real>, w: Complex, p: nat)
    requires |x| == Pow2(p + 1) && IsRoot(w, |x|)
    ensures Mul(Complex(|x| as real, 0.0), Sum(|x|, (m: nat) => Energy(At(Padded(x, |x|), m))))
         == Add(Add(Energy(ForwardOf(x, w, |x|)[0]), Energy(ForwardOf(x, w, |x|)[Pow2(p)])),
                Scale(2.0, Sum(Pow2(p) - 1, (j: nat) => Energy(At(ForwardOf(x, w, |x|), j + 1)))))
  {
    hide Mul;
    hide Pow;
    hide Sum;
    hide IsRoot;
    hide DftAt;
    var n, h, bins, full := |x|, Pow2(p), ForwardOf(x, w, |x|), Spectrum(Padded(x, |x|), w);
    var f := (k: nat) => Energy(At(full, k));
    Parseval(Padded(x, n), w, p);
    forall k: nat | 0 < k < h ensures f(2 * h - k) == f(k) { Hermitian(x, w, n, k); }
    SumSymmetric(h, f);
    SumExt(h - 1, (j: nat) => f(j + 1), (j: nat) => Energy(At(bins, j + 1)));
  }
}
