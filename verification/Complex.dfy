/**
 * Complex numbers over exact reals, with the ring laws and the power laws that the
 * transform proofs in `Dft` and `RealFft` rest on.
 */
module ComplexNumbers {

  datatype Complex = Complex(re: real, im: real)

  const ZERO := Complex(0.0, 0.0)
  const ONE := Complex(1.0, 0.0)

  function Add(a: Complex, b: Complex): Complex {
    Complex(a.re + b.re, a.im + b.im)
  }

  function Sub(a: Complex, b: Complex): Complex {
    Complex(a.re - b.re, a.im - b.im)
  }

  function Neg(a: Complex): Complex {
    Complex(-a.re, -a.im)
  }

  function Mul(a: Complex, b: Complex): Complex {
    Complex(a.re * b.re - a.im * b.im, a.re * b.im + a.im * b.re)
  }

  function Conj(a: Complex): Complex {
    Complex(a.re, -a.im)
  }

  function Scale(r: real, a: Complex): Complex {
    Complex(r * a.re, r * a.im)
  }

  function Pow(w: Complex, e: nat): Complex {
    if e == 0 then ONE else Mul(w, Pow(w, e - 1))
  }

  lemma MulComm(a: Complex, b: Complex)
    ensures Mul(a, b) == Mul(b, a)
  {
  }

  lemma MulAssoc(a: Complex, b: Complex, c: Complex)
    ensures Mul(Mul(a, b), c) == Mul(a, Mul(b, c))
  {
  }

  lemma MulDistrib(a: Complex, b: Complex, c: Complex)
    ensures Mul(a, Add(b, c)) == Add(Mul(a, b), Mul(a, c))
  {
  }

  lemma ConjMul(a: Complex, b: Complex)
    ensures Conj(Mul(a, b)) == Mul(Conj(a), Conj(b))
  {
  }

  lemma {:induction false} PowAdd(w: Complex, d: nat, e: nat)
    ensures Pow(w, d + e) == Mul(Pow(w, d), Pow(w, e))
  {
    if d != 0 {
      PowAdd(w, d - 1, e);
      MulAssoc(w, Pow(w, d - 1), Pow(w, e));
    }
  }

  lemma {:induction false} PowPow(w: Complex, d: nat, e: nat)
    ensures Pow(Pow(w, d), e) == Pow(w, d * e)
  {
    hide Mul;
    if e != 0 {
      PowPow(w, d, e - 1);
      PowAdd(w, d, d * (e - 1));
      assert d + d * (e - 1) == d * e;
    }
  }

  lemma {:induction false} PowMul(a: Complex, b: Complex, e: nat)
    ensures Pow(Mul(a, b), e) == Mul(Pow(a, e), Pow(b, e))
  {
    if e != 0 {
      PowMul(a, b, e - 1);
      var p, q := Pow(a, e - 1), Pow(b, e - 1);
      MulAssoc(a, b, Mul(p, q));
      MulAssoc(b, p, q);
      MulComm(b, p);
      MulAssoc(p, b, q);
      MulAssoc(a, p, Mul(b, q));
    }
  }

  lemma {:induction false} PowConj(w: Complex, e: nat)
    ensures Pow(Conj(w), e) == Conj(Pow(w, e))
  {
    if e != 0 {
      PowConj(w, e - 1);
      ConjMul(w, Pow(w, e - 1));
    }
  }

  lemma {:induction false} PowOne(e: nat)
    ensures Pow(ONE, e) == ONE
  {
    if e != 0 {
      PowOne(e - 1);
      assert Mul(ONE, ONE) == ONE;
    }
  }
}
