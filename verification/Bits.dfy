/** Powers of two and bit reversal, as the transform size and its permutation use them. */
module PowersOfTwo {
  import opened Arithmetic

  function Pow2(e: nat): (p: nat)
    ensures p > 0
  {
    if e == 0 then 1 else 2 * Pow2(e - 1)
  }

  lemma PowerZero()
    ensures Pow2(0) == 1
  {
  }

  lemma PowerPositive(e: nat)
    ensures Pow2(e) > 0
  {
  }

  lemma PowerStep(e: nat)
    ensures Pow2(e + 1) == 2 * Pow2(e) && Pow2(e) > 0
  {
  }

  lemma {:induction false} Pow2Add(d: nat, e: nat)
    ensures Pow2(d + e) == Pow2(d) * Pow2(e)
  {
    if d != 0 { Pow2Add(d - 1, e); }
  }

  lemma {:induction false} Pow2Order(d: nat, e: nat)
    ensures Pow2(d) <= Pow2(e) <==> d <= e
  {
    if d != 0 && e != 0 { Pow2Order(d - 1, e - 1); }
  }

  predicate IsPowerOfTwo(n: nat) {
    n == 1 || (n > 1 && n % 2 == 0 && IsPowerOfTwo(n / 2))
  }

  function TrailingZeros(n: nat): nat
    requires n > 0
  {
    if n % 2 == 1 then 0 else 1 + TrailingZeros(n / 2)
  }

  lemma {:induction false} PowerOfTwoExponent(n: nat)
    requires IsPowerOfTwo(n)
    ensures n == Pow2(TrailingZeros(n))
  {
    if n != 1 { PowerOfTwoExponent(n / 2); }
  }

  /** The low `bits` bits of `x`, in reverse order. */
  function Reverse(x: nat, bits: nat): (r: nat)
    ensures r < Pow2(bits)
  {
    if bits == 0 then 0 else x % 2 * Pow2(bits - 1) + Reverse(x / 2, bits - 1)
  }

  lemma TimesTwice(a: nat, b: nat)
    ensures a * (2 * b) == 2 * (a * b)
  {
  }

  /** Reversal puts the top bit last. */
  lemma {:induction false} ReverseTop(top: nat, x: nat, bits: nat)
    requires top < 2 && x < Pow2(bits)
    ensures Reverse(top * Pow2(bits) + x, bits + 1) == 2 * Reverse(x, bits) + top
  {
    hide Reverse;
    if bits == 0 {
      ReverseStep(top, 0);
      ReverseEmpty(top);
    } else {
      var y, h := top * Pow2(bits) + x, Pow2(bits - 1);
      HalfOfTop(top, x, h);
      ReverseTop(top, x / 2, bits - 1);
      ReverseStep(y, bits);
      ReverseStep(x, bits - 1);
      TimesTwice(x % 2, h);
    }
  }

  lemma ReverseEmpty(x: nat)
    ensures Reverse(x, 0) == 0
  {
  }

  lemma ReverseStep(x: nat, bits: nat)
    ensures Reverse(x, bits + 1) == x % 2 * Pow2(bits) + Reverse(x / 2, bits)
  {
  }

  lemma HalfOfTop(top: nat, x: nat, h: nat)
    requires top < 2
    ensures (top * (2 * h) + x) / 2 == top * h + x / 2
    ensures (top * (2 * h) + x) % 2 == x % 2
  {
    if top == 0 {
      assert top * (2 * h) == 0 == top * h;
    } else {
      assert top * (2 * h) == 2 * h && top * h == h;
    }
  }

  /** Reversing twice is the identity, so swapping each pair once applies the permutation. */
  lemma {:induction false} ReverseInvolution(x: nat, bits: nat)
    requires x < Pow2(bits)
    ensures Reverse(Reverse(x, bits), bits) == x
  {
    if bits != 0 {
      ReverseInvolution(x / 2, bits - 1);
      ReverseTop(x % 2, Reverse(x / 2, bits - 1), bits - 1);
    }
  }

  /** Reversing a short value in a wider word leaves it in the top bits. */
  lemma {:induction false} ReverseWider(x: nat, bits: nat, extra: nat)
    requires x < Pow2(bits)
    ensures Reverse(x, bits + extra) == Reverse(x, bits) * Pow2(extra)
  {
    if bits == 0 {
      ReverseZero(extra);
    } else {
      ReverseWider(x / 2, bits - 1, extra);
      Pow2Add(bits - 1, extra);
      Distribute(x % 2, Pow2(bits - 1), Reverse(x / 2, bits - 1), Pow2(extra));
    }
  }

  lemma Distribute(a: nat, b: nat, c: nat, d: nat)
    ensures (a * b + c) * d == a * (b * d) + c * d
  {
  }

  lemma {:induction false} ReverseZero(bits: nat)
    ensures Reverse(0, bits) == 0
  {
    if bits != 0 { ReverseZero(bits - 1); }
  }

  /** Reversing a 32-bit word and shifting the result down is the reversal of its low bits. */
  lemma ReverseInWord(x: nat, bits: nat)
    requires bits <= 32 && x < Pow2(bits)
    ensures Reverse(x, 32) / Pow2(32 - bits) == Reverse(x, bits)
  {
    ReverseWider(x, bits, 32 - bits);
    DivideProduct(Reverse(x, bits), Pow2(32 - bits));
  }

  lemma SmallPowers()
    ensures Pow2(0) == 1 && Pow2(1) == 2 && Pow2(2) == 4 && Pow2(3) == 8 && Pow2(4) == 16 && Pow2(5) == 32
    ensures Pow2(6) == 64 && Pow2(7) == 128 && Pow2(8) == 256 && Pow2(9) == 512 && Pow2(10) == 1024 && Pow2(11) == 2048
  {
    assert Pow2(4) == 16;
    assert Pow2(8) == 256;
  }
}
