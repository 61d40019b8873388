/** Fixed-width integer arithmetic over unbounded integers: wrap, saturate, clamp, shift, top bit. */
module FixedPoint {
  import opened PowersOfTwo

  predicate InI16(x: int) {
    -0x8000 <= x <= 0x7FFF
  }

  predicate InI32(x: int) {
    -0x8000_0000 <= x <= 0x7FFF_FFFF
  }

  /** An intermediate that the program computes in `i32`: calling this proves it does not overflow. */
  function I32(x: int): int
    requires InI32(x)
  {
    x
  }

  /** `x as i16`. */
  function Wrap16(x: int): (r: int)
    ensures InI16(r) && (InI16(x) ==> r == x)
  {
    (x + 0x8000) % 0x1_0000 - 0x8000
  }

  function Clamp(x: int, low: int, high: int): (r: int)
    requires low <= high
    ensures low <= r <= high && (low <= x <= high ==> r == x)
  {
    if x < low then low else if x > high then high else x
  }

  function Saturate(x: int): (r: int)
    ensures InI16(r) && (InI16(x) ==> r == x)
  {
    Clamp(x, -0x8000, 0x7FFF)
  }

  /** Index of the highest set bit, -1 for zero. */
  function TopBit(n: nat): (t: int)
    ensures t >= -1 && (t == -1 <==> n == 0)
  {
    if n == 0 then -1 else 1 + TopBit(n / 2)
  }

  lemma {:induction false} TopBitBounds(n: nat)
    requires n > 0
    ensures Pow2(TopBit(n)) <= n < Pow2(TopBit(n) + 1)
  {
    if n == 1 {
      assert TopBit(1) == 0;
      assert Pow2(1) == 2;
    } else {
      TopBitBounds(n / 2);
      assert TopBit(n) == 1 + TopBit(n / 2);
    }
  }

  lemma {:induction false} TopBitBelow(n: nat, bits: nat)
    requires n < Pow2(bits)
    ensures TopBit(n) < bits
  {
    if n != 0 && bits != 0 { TopBitBelow(n / 2, bits - 1); }
  }
}
