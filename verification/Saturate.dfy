/**
  The saturating primitives of arm_math.h: the `clip_*` conversions, the `__SSAT` loop, the
  32-bit saturating sum and difference, and the exact 32x64 multiplication.

  Each clip compares the bits above the target width with the sign bit below them. The lemmas
  say for which inputs that comparison is the saturation its name promises.
*/
module Saturate {
  import opened MachineInt
  import opened Bits

  /** `m ^ s` on 32-bit operands. */
  function XorQ31(m: U32, s: Q31): Q31 { ToQ31(Xor(m, ToU32(s))) }

  function ClipQ63ToQ31(x: Q63): Q31
  {
    if ToQ31(x / 0x1_0000_0000) != ToQ31(x) / 0x8000_0000
    then XorQ31(0x7FFF_FFFF, ToQ31(x / 0x8000_0000_0000_0000))
    else ToQ31(x)
  }

  function ClipQ63ToQ15(x: Q63): Q15
  {
    if ToQ31(x / 0x1_0000_0000) != ToQ31(x) / 0x8000_0000
    then ToQ15(XorQ31(0x7FFF, ToQ15(x / 0x8000_0000_0000_0000)))
    else ToQ15(x / 0x8000)
  }

  function ClipQ31ToQ7(x: Q31): Q7
  {
    if x / 0x100_0000 != x / 0x80_0000
    then ToQ7(XorQ31(0x7F, ToQ7(x / 0x8000_0000)))
    else ToQ7(x)
  }

  function ClipQ31ToQ15(x: Q31): Q15
  {
    if x / 0x1_0000 != x / 0x8000
    then ToQ15(XorQ31(0x7FFF, ToQ15(x / 0x8000_0000)))
    else ToQ15(x)
  }

  lemma {:induction false} XorOnes(k: nat, m: nat)
    requires m < Pow2(k)
    ensures Xor(m, Pow2(k) - 1) == Pow2(k) - 1 - m
  {
    if k == 0 {
    } else {
      XorOnes(k - 1, m / 2);
      assert (Pow2(k) - 1) / 2 == Pow2(k - 1) - 1;
    }
  }

  /** Xor with a sign word, zero or all ones, keeps or complements the mask. */
  lemma XorWithSign(m: Q31, s: Q31)
    requires m >= 0 && -1 <= s <= 0
    ensures XorQ31(m, s) == if s == 0 then m else -1 - m
  {
    if s == -1 {
      var ones: nat := 0xFFFF_FFFF;
      Pow2Values();
      XorOnes(32, m);
      assert ToU32(s) == ones == Pow2(32) - 1;
      ToQ31Is(ones - m, -1 - m, 1);
    }
  }

  /** Two adjacent quotients agree exactly between -d and d: the test every clip makes. */
  lemma SignTest(x: int, d: int)
    requires d > 0
    ensures x / (2 * d) == x / d <==> -d <= x < d
    ensures -d <= x < d ==> x / d == if x < 0 then -1 else 0
  {
    var q, r := x / d, x % d;
    Recompose(x, d);
    assert q / 2 * (2 * d) + (q % 2 * d + r) == x by {
      Recompose(q, 2);
      assert q / 2 * (2 * d) == (q / 2 * 2) * d;
    }
    DivModUnique(x, 2 * d, q / 2, q % 2 * d + r);
    if q >= 1 {
      MulOrder(1, q, d);
    } else if q <= -2 {
      MulOrder(q, -2, d);
    }
  }

  /** The upper word of a 64-bit value equals the sign of the lower one exactly when the value
      has 32 bits. */
  lemma HighWord(x: Q63)
    ensures ToQ31(x / 0x1_0000_0000) == x / 0x1_0000_0000
    ensures x / 0x1_0000_0000 == ToQ31(x) / 0x8000_0000 <==> FitsQ31(x)
    ensures x / 0x8000_0000_0000_0000 == if x < 0 then -1 else 0
  {
    var q, r := x / 0x1_0000_0000, x % 0x1_0000_0000;
    ToQ31Is(q, q, 0);
    if r < 0x8000_0000 {
      ToQ31Is(x, r, q);
      DivModUnique(r, 0x8000_0000, 0, r);
    } else {
      ToQ31Is(x, r - 0x1_0000_0000, q + 1);
      DivModUnique(r - 0x1_0000_0000, 0x8000_0000, -1, r - 0x8000_0000);
    }
  }

  /** The sign comparison of the 64-bit clip is 32-bit saturation on every 64-bit input. */
  lemma ClipQ63ToQ31Saturates(x: Q63)
    ensures ClipQ63ToQ31(x) == Sat32(x)
  {
    HighWord(x);
    if !FitsQ31(x) {
      XorWithSign(0x7FFF_FFFF, if x < 0 then -1 else 0);
      assert ClipQ63ToQ31(x) == XorQ31(0x7FFF_FFFF, if x < 0 then -1 else 0);
    }
  }

  /** The 31-to-15 clip saturates on every input. */
  lemma ClipQ31ToQ15Saturates(x: Q31)
    ensures ClipQ31ToQ15(x) == Sat16(x)
  {
    SignTest(x, 0x8000);
    SignTest(x, 0x8000_0000);
    if !FitsQ15(x) {
      XorWithSign(0x7FFF, if x < 0 then -1 else 0);
      assert ClipQ31ToQ15(x) == ToQ15(XorQ31(0x7FFF, if x < 0 then -1 else 0));
    }
  }

  /** The 63-to-15 clip tests the wrong width: it is the saturated `x >> 15` exactly when x is
      below 2^30 in magnitude or outside 32 bits. In between it wraps. */
  lemma ClipQ63ToQ15SaturatesIff(x: Q63)
    ensures ClipQ63ToQ15(x) == Sat16(x / 0x8000) <==> (-0x4000_0000 <= x < 0x4000_0000 || !FitsQ31(x))
    ensures ClipQ63ToQ15(x) == if FitsQ31(x) then ToQ15(x / 0x8000) else if x < 0 then -0x8000 else 0x7FFF
  {
    ClipQ63ToQ15Value(x);
    if FitsQ31(x) {
      ShiftedFits(x);
    }
  }

  lemma ClipQ63ToQ15Value(x: Q63)
    ensures ClipQ63ToQ15(x) == if FitsQ31(x) then ToQ15(x / 0x8000) else if x < 0 then -0x8000 else 0x7FFF
  {
    HighWord(x);
    if FitsQ31(x) {
      assert ClipQ63ToQ15(x) == ToQ15(x / 0x8000);
    } else {
      XorWithSign(0x7FFF, if x < 0 then -1 else 0);
      assert ClipQ63ToQ15(x) == ToQ15(XorQ31(0x7FFF, if x < 0 then -1 else 0));
    }
  }

  lemma ShiftedFits(x: Q31)
    ensures ToQ15(x / 0x8000) == Sat16(x / 0x8000) <==> -0x4000_0000 <= x < 0x4000_0000
  {
  }

  /** The 31-to-7 clip only notices values outside 24 bits: it saturates exactly when x already
      fits, is outside 24 bits, or its low byte happens to be the bound on x's side. */
  lemma ClipQ31ToQ7SaturatesIff(x: Q31)
    ensures ClipQ31ToQ7(x) == Sat8(x) <==>
            (FitsQ7(x) || !(-0x80_0000 <= x < 0x80_0000) || x % 0x100 == if x < 0 then 0x80 else 0x7F)
    ensures ClipQ31ToQ7(x) == if -0x80_0000 <= x < 0x80_0000 then ToQ7(x) else if x < 0 then -0x80 else 0x7F
  {
    ClipQ31ToQ7Value(x);
    ToQ7Hits(x);
  }

  lemma ClipQ31ToQ7Value(x: Q31)
    ensures ClipQ31ToQ7(x) == if -0x80_0000 <= x < 0x80_0000 then ToQ7(x) else if x < 0 then -0x80 else 0x7F
  {
    SignTest(x, 0x80_0000);
    if !(-0x80_0000 <= x < 0x80_0000) {
      var s: Q31 := if x < 0 then -1 else 0;
      SignTest(x, 0x8000_0000);
      XorWithSign(0x7F, s);
      assert ClipQ31ToQ7(x) == ToQ7(XorQ31(0x7F, s));
    }
  }

  lemma ToQ7Hits(x: int)
    ensures FitsQ7(x) ==> ToQ7(x) == x
    ensures ToQ7(x) == 0x7F <==> x % 0x100 == 0x7F
    ensures ToQ7(x) == -0x80 <==> x % 0x100 == 0x80
  {
  }

  /** `__QADD` and `__QSUB`. */
  function QAdd(x: Q31, y: Q31): (r: Q31)
    ensures r == Sat32(x + y)
  {
    ClipQ63ToQ31Saturates(x + y);
    ClipQ63ToQ31(x + y)
  }

  function QSub(x: Q31, y: Q31): (r: Q31)
    ensures r == Sat32(x - y)
  {
    ClipQ63ToQ31Saturates(x - y);
    ClipQ63ToQ31(x - y)
  }

  /** Saturation to a signed field of the given width. */
  function SatTo(x: int, width: nat): int
    requires width >= 1
  {
    Clamp(x, 0 - Pow2(width - 1), Pow2(width - 1) - 1)
  }

  /** `__SSAT`: the bound is found by doubling. Width 32 would overflow the doubling, width 0
      would make it run 2^32 - 1 times. */
  method Ssat(x: Q31, y: U32) returns (r: Q31)
    requires 1 <= y <= 31
    ensures var p: int := Pow2(y - 1); r == if x > p - 1 then p - 1 else if x < -p then -p else x
    ensures r == SatTo(x, y)
  {
    var posMax: Q31 := 1;
    var i: U32 := 0;
    Pow2Values();
    while i < y - 1
      invariant i <= y - 1
      invariant posMax == Pow2(i)
    {
      Pow2Monotone(i + 1, 30);
      posMax := posMax * 2;
      i := i + 1;
    }
    r := x;
    if r > 0 {
      posMax := posMax - 1;
      if r > posMax {
        r := posMax;
      }
    } else {
      var negMin: Q31 := -posMax;
      if r < negMin {
        r := negMin;
      }
    }
  }

  lemma SatToWidths(x: int)
    ensures SatTo(x, 8) == Sat8(x) && SatTo(x, 16) == Sat16(x)
  {
    assert Pow2(7) == 0x80 && Pow2(15) == 0x8000;
  }

  /** `mult32x64`: two partial products, the low one shifted. */
  function Mult32x64(x: Q63, y: Q31): int
  {
    And(ToU64(x), 0xFFFF_FFFF) * y / 0x1_0000_0000 + x / 0x1_0000_0000 * y
  }

  /** It is the exact floor of x*y/2^32, and no intermediate leaves 64 bits. */
  lemma Mult32x64Exact(x: Q63, y: Q31)
    ensures Mult32x64(x, y) == x * y / 0x1_0000_0000
    ensures FitsQ63(And(ToU64(x), 0xFFFF_FFFF) * y) && FitsQ63(x / 0x1_0000_0000 * y) && FitsQ63(Mult32x64(x, y))
  {
    LowWord(x);
    SplitProduct(x % 0x1_0000_0000, x / 0x1_0000_0000, y);
    ProductBound(x % 0x1_0000_0000, 0xFFFF_FFFF, y, 0x8000_0000);
    ProductBound(x / 0x1_0000_0000, 0x8000_0000, y, 0x8000_0000);
  }

  lemma LowWord(x: Q63)
    ensures And(ToU64(x), 0xFFFF_FFFF) == x % 0x1_0000_0000
  {
    AndLowWord(ToU64(x));
    LowWordKept(x);
  }

  lemma LowWordKept(x: int)
    ensures ToU64(x) % 0x1_0000_0000 == x % 0x1_0000_0000
  {
    var k := x / 0x1_0000_0000_0000_0000;
    assert ToU64(x) == x + (-k * 0x1_0000_0000) * 0x1_0000_0000;
    DivAddMultiple(x, -k * 0x1_0000_0000, 0x1_0000_0000);
  }

  lemma SplitProduct(low: int, high: int, y: int)
    ensures (high * 0x1_0000_0000 + low) * y / 0x1_0000_0000 == low * y / 0x1_0000_0000 + high * y
  {
    assert (high * 0x1_0000_0000 + low) * y == low * y + high * y * 0x1_0000_0000;
    DivAddMultiple(low * y, high * y, 0x1_0000_0000);
  }

  lemma ProductBound(a: int, m: int, b: int, n: int)
    requires -m <= a <= m && -n <= b <= n
    ensures -(m * n) <= a * b <= m * n
  {
    AbsProduct(a, b);
    MulOrder(Abs(a), m, Abs(b));
    MulOrder(Abs(b), n, m);
  }

  lemma AbsProduct(a: int, b: int)
    ensures a * b == Abs(a) * Abs(b) || a * b == -(Abs(a) * Abs(b))
    ensures Abs(a) * Abs(b) >= 0
  {
  }
}
