// Integer facts the byte framing relies on. Dafny's `/` and `%` round toward
// negative infinity for a positive divisor, which is what an arithmetic right
// shift followed by `& 0xFF` does to a two's-complement int32.

module Arith {

  /** 256 to the power n: the weight of the n-th byte from the right. */
  function Pow256(n: nat): (p: nat)
    ensures p >= 1
  {
    if n == 0 then 1 else 256 * Pow256(n - 1)
  }

  lemma MulNonneg(a: int, b: int)
    requires 0 <= a && 0 <= b
    ensures 0 <= a * b
  {
  }

  /** Quotient and remainder are determined by the division equation. */
  lemma DivModUnique(v: int, d: int, q: int, r: int)
    requires d > 0 && 0 <= r < d && v == d * q + r
    ensures v / d == q && v % d == r
  {
    var q', r' := v / d, v % d;
    if q' < q {
      MulNonneg(d, q - q' - 1);
      assert false;
    } else if q < q' {
      MulNonneg(d, q' - q - 1);
      assert false;
    }
  }

  /** A byte survives the trip through bv8 and back, in either direction. */
  lemma BvOfInt(x: int)
    requires 0 <= x < 256
    ensures (x as bv8) as int == x
  {
    BvOfIntMod(x);
    ModOfByte(x);
  }

  /** The trip through bv8 keeps the low byte. */
  lemma BvOfIntMod(x: int)
    requires 0 <= x < 256
    ensures (x as bv8) as int == x % 256
  {
  }

  lemma ModOfByte(x: int)
    requires 0 <= x < 256
    ensures x % 256 == x
  {
  }

  /** Only the zero byte converts to the integer 0. */
  lemma ZeroOfBv(x: bv8)
    ensures x as int == 0 <==> x == 0
  {
  }

  lemma IntOfBv(x: bv8)
    ensures (x as int) as bv8 == x
  {
  }

  /** Comparing two bytes as integers is comparing them as bit vectors. */
  lemma BvLe(a: bv8, b: bv8)
    requires a as int <= b as int
    ensures a <= b
  {
  }

  lemma IntLe(a: bv8, b: bv8)
    requires a <= b
    ensures a as int <= b as int
  {
  }

  /** The low six bits of a byte are its remainder modulo 64. */
  lemma LowSixBits(y: bv8)
    ensures (y & 0x3F) as int == (y as int) % 64
  {
  }
}
