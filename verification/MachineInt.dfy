/**
  The C integer model the fixed-point library is written against.

  Values are mathematical integers. A conversion to a narrower type wraps in two's
  complement, an arithmetic right shift by a constant is the floor division `/` of Dafny
  (Euclidean division by a positive number is floor division), and a left shift is a
  multiplication followed by the wrap of the type it is stored in.
*/
module MachineInt {
  type Q7 = x: int | -0x80 <= x < 0x80
  type Q15 = x: int | -0x8000 <= x < 0x8000
  type Q31 = x: int | -0x8000_0000 <= x < 0x8000_0000
  type Q63 = x: int | -0x8000_0000_0000_0000 <= x < 0x8000_0000_0000_0000
  type U8 = x: int | 0 <= x < 0x100
  type U16 = x: int | 0 <= x < 0x1_0000
  type U32 = x: int | 0 <= x < 0x1_0000_0000
  type U64 = x: int | 0 <= x < 0x1_0000_0000_0000_0000

  predicate FitsQ7(x: int) { -0x80 <= x < 0x80 }

  predicate FitsQ15(x: int) { -0x8000 <= x < 0x8000 }

  predicate FitsQ31(x: int) { -0x8000_0000 <= x < 0x8000_0000 }

  predicate FitsQ63(x: int) { -0x8000_0000_0000_0000 <= x < 0x8000_0000_0000_0000 }

  function ToU16(x: int): U16 { x % 0x1_0000 }

  function ToU32(x: int): U32 { x % 0x1_0000_0000 }

  function ToU64(x: int): U64 { x % 0x1_0000_0000_0000_0000 }

  function ToQ7(x: int): Q7 { (x + 0x80) % 0x100 - 0x80 }

  function ToQ15(x: int): Q15 { (x + 0x8000) % 0x1_0000 - 0x8000 }

  function ToQ31(x: int): Q31 { (x + 0x8000_0000) % 0x1_0000_0000 - 0x8000_0000 }

  function ToQ63(x: int): Q63 { (x + 0x8000_0000_0000_0000) % 0x1_0000_0000_0000_0000 - 0x8000_0000_0000_0000 }

  /** The value of [lo, hi] closest to x. */
  function Clamp(x: int, lo: int, hi: int): int
    requires lo <= hi
  {
    if x < lo then lo else if x > hi then hi else x
  }

  function Sat8(x: int): Q7 { Clamp(x, -0x80, 0x7F) }

  function Sat16(x: int): Q15 { Clamp(x, -0x8000, 0x7FFF) }

  function Sat32(x: int): Q31 { Clamp(x, -0x8000_0000, 0x7FFF_FFFF) }

  function Abs(x: int): nat { if x < 0 then -x else x }

  function Min(x: int, y: int): int { if x <= y then x else y }

  function Max(x: int, y: int): int { if x <= y then y else x }

  function Pow2(k: nat): (p: nat)
    ensures p >= 1
  {
    if k == 0 then 1 else 2 * Pow2(k - 1)
  }

  lemma {:induction false} Pow2Add(j: nat, k: nat)
    ensures Pow2(j + k) == Pow2(j) * Pow2(k)
  {
    if j == 0 {
    } else {
      Pow2Add(j - 1, k);
      assert Pow2(j + k) == 2 * Pow2(j - 1 + k);
    }
  }

  lemma {:induction false} Pow2Monotone(j: nat, k: nat)
    requires j <= k
    ensures Pow2(j) <= Pow2(k)
    decreases k - j
  {
    if j < k {
      Pow2Monotone(j + 1, k);
    }
  }

  /** The powers the library's masks and shifts use. */
  lemma Pow2Values()
    ensures Pow2(0) == 1 && Pow2(1) == 2 && Pow2(2) == 4 && Pow2(3) == 8 && Pow2(4) == 16
    ensures Pow2(5) == 32 && Pow2(6) == 64 && Pow2(7) == 0x80 && Pow2(8) == 0x100
    ensures Pow2(12) == 0x1000 && Pow2(16) == 0x1_0000 && Pow2(20) == 0x10_0000 && Pow2(24) == 0x100_0000
    ensures Pow2(30) == 0x4000_0000 && Pow2(31) == 0x8000_0000 && Pow2(32) == 0x1_0000_0000
  {
  }

  /** Division and remainder by a positive number are determined by their defining equation. */
  lemma DivModUnique(x: int, d: int, q: int, r: int)
    requires 0 <= r < d
    requires x == q * d + r
    ensures x / d == q && x % d == r
  {
    var k := x / d - q;
    assert k * d == r - x % d by {
      assert x == d * (x / d) + x % d;
      assert k * d == d * (x / d) - q * d;
    }
    SmallMultiple(k, d);
  }

  /** Only the zero multiple of d lies strictly between -d and d. */
  lemma SmallMultiple(k: int, d: int)
    requires d > 0 && -d < k * d < d
    ensures k == 0
  {
    if k >= 1 {
      MulOrder(1, k, d);
    } else if k <= -1 {
      MulOrder(k, -1, d);
    }
  }

  lemma MulOrder(a: int, b: int, d: int)
    requires a <= b && d >= 0
    ensures a * d <= b * d
  {
  }

  lemma MulStrict(a: int, b: int, d: int)
    requires a < b && d > 0
    ensures a * d < b * d
  {
  }

  lemma Recompose(x: int, d: int)
    requires d > 0
    ensures x == x / d * d + x % d && 0 <= x % d < d
  {
  }

  /** Adding a multiple of the divisor moves the quotient and keeps the remainder. */
  lemma DivAddMultiple(x: int, k: int, d: int)
    requires d > 0
    ensures (x + k * d) / d == x / d + k && (x + k * d) % d == x % d
  {
    DivModUnique(x + k * d, d, x / d + k, x % d);
  }

  // ----- wrapping: a cast changes a value by a multiple of its modulus and by nothing else

  lemma ToQ7Is(x: int, v: Q7, k: int)
    requires x == v + k * 0x100
    ensures ToQ7(x) == v
  {
  }

  lemma ToQ15Is(x: int, v: Q15, k: int)
    requires x == v + k * 0x1_0000
    ensures ToQ15(x) == v
  {
  }

  lemma ToQ31Is(x: int, v: Q31, k: int)
    requires x == v + k * 0x1_0000_0000
    ensures ToQ31(x) == v
  {
  }

  lemma Q7Wraps(x: int) returns (k: int)
    ensures x == ToQ7(x) + k * 0x100
  {
    k := (x + 0x80) / 0x100;
  }

  lemma Q31Wraps(x: int) returns (k: int)
    ensures x == ToQ31(x) + k * 0x1_0000_0000
  {
    k := (x + 0x8000_0000) / 0x1_0000_0000;
  }

  lemma Q63Wraps(x: int) returns (k: int)
    ensures x == ToQ63(x) + k * 0x1_0000_0000_0000_0000
  {
    k := (x + 0x8000_0000_0000_0000) / 0x1_0000_0000_0000_0000;
  }

  /** A multiple of 2^32 disappears in a 32-bit store, so wrapping early is harmless. */
  lemma ToQ31Absorbs(x: int, k: int)
    ensures ToQ31(x + k * 0x1_0000_0000) == ToQ31(x)
  {
    var j := Q31Wraps(x);
    ToQ31Is(x + k * 0x1_0000_0000, ToQ31(x), j + k);
  }
}
