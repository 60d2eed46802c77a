/**
  `__CLZ`, `arm_recip_q31` and `arm_recip_q15`: normalise the input, read a seed for its
  reciprocal from a 64-entry table, and run two truncated Newton steps.

  The methods keep every conversion of the C text. What they promise holds for any table; the
  accuracy clauses ask that the seed read is within 1/64 of the target, and
  `MidpointSeedsQ31` shows a table for which every input meets that.
*/
module Reciprocal {
  import opened MachineInt
  import opened Bits
  import opened Saturate
  import opened Newton

  const H31: int := 0x8000_0000
  const H15: int := 0x8000

  /** `__CLZ`: a mask walks down from the top bit. Zero has no set bit to stop at. */
  method Clz(data: Q31) returns (count: U32)
    requires data != 0
    ensures count < 32
    ensures Pow2(31 - count) <= ToU32(data) < Pow2(32 - count)
  {
    Pow2Values();
    count := 0;
    var mask: U32 := 0x8000_0000;
    while And(ToU32(data), mask) == 0
      invariant count < 32 && mask == Pow2(31 - count)
      invariant 0 < ToU32(data) < Pow2(32 - count)
      decreases 32 - count
    {
      TopBit(ToU32(data), 31 - count);
      assert count < 31;
      count := count + 1;
      mask := mask / 2;
    }
    TopBit(ToU32(data), 31 - count);
  }

  /** For a word of k+1 bits, the one-bit mask at k decides whether it has fewer. */
  lemma TopBit(u: U32, k: nat)
    requires u < 2 * Pow2(k)
    ensures And(u, Pow2(k)) == 0 <==> u < Pow2(k)
  {
    AndBit(u, k);
    if u < Pow2(k) {
      DivModUnique(u, Pow2(k), 0, u);
    } else {
      DivModUnique(u, Pow2(k), 1, u - Pow2(k));
    }
  }

  /** A positive word shifted left by one less than its leading zeros has its top bit at 30. */
  lemma Normalised(v: nat, zeros: nat)
    requires 1 <= zeros <= 31 && Pow2(31 - zeros) <= v < Pow2(32 - zeros)
    ensures 0x4000_0000 <= v * Pow2(zeros - 1) < 0x8000_0000
  {
    Pow2Add(31 - zeros, zeros - 1);
    Pow2Add(32 - zeros, zeros - 1);
    Pow2Values();
    MulOrder(Pow2(31 - zeros), v, Pow2(zeros - 1));
    MulStrict(v, Pow2(32 - zeros), Pow2(zeros - 1));
  }

  /** A positive word has at least one leading zero as a signed value; a half-word has 17. */
  lemma LeadingZerosOf(v: nat, zeros: nat)
    requires 0 < v && zeros < 32 && Pow2(31 - zeros) <= v < Pow2(32 - zeros)
    ensures v < 0x8000_0000 ==> zeros >= 1
    ensures v < 0x8000 ==> zeros >= 17
  {
    Pow2Values();
    if zeros < 1 {
      assert Pow2(31 - zeros) == 0x8000_0000;
    }
    if zeros < 17 {
      Pow2Monotone(15, 31 - zeros);
      assert Pow2(15) == 0x8000;
    }
  }

  /** The 6-bit mask on the top of a normalised word drops only the bit that is always set. */
  lemma TableIndex(u: nat)
    ensures And(u, 0x3F) == u % 64
  {
    var mask: nat := 0x3F;
    Pow2Values();
    AndMask(u, 0, 6, mask);
  }

  // ----- Q31

  /** One pass of the Q31 loop body with all of its conversions. */
  function PassQ31(n: Q31, out: U32): U32
  {
    var tempVal: U32 := ToU32(ToQ31(ToQ63(n * out) / 0x8000_0000));
    var correction: U32 := ToU32(0x7FFF_FFFF - tempVal);
    ToU32(ClipQ63ToQ31(ToQ63(out * correction) / 0x4000_0000))
  }

  /** On a normalised input no conversion of the pass changes a value: it is the Newton step. */
  lemma PassQ31IsStep(n: Q31, out: U32)
    requires 0x4000_0000 <= n && out < 0x8000_0000
    ensures PassQ31(n, out) == Step(H31, n, out) < 0x8000_0000
  {
    var t := n * out / 0x8000_0000;
    StepValue(n, out, t);
    PassQ31Value(n, out, t);
  }

  /** The pass for either sign: the Newton step, held at the largest word by the clip. */
  function ClippedStep(n: Q31, out: int): int { Min(Step(H31, n, out), 0x7FFF_FFFF) }

  /** For every input above the least word and every estimate below 2^31 the pass is the clipped
      step; the other conversions change nothing. */
  lemma PassQ31IsClippedStep(n: Q31, out: U32)
    requires n != -0x8000_0000 && out < 0x8000_0000
    ensures PassQ31(n, out) == ClippedStep(n, out) && 0 <= ClippedStep(n, out) < 0x8000_0000
  {
    var p := n * out;
    ProductBound(n, 0x7FFF_FFFF, out, 0x7FFF_FFFF);
    SignedFirstProduct(p);
    ClippedValue(n, out, p, 0x7FFF_FFFF - p / 0x8000_0000);
  }

  lemma ClippedValue(n: Q31, out: U32, p: int, c: int)
    requires p == n * out && out < 0x8000_0000 && 0 < c <= 0xFFFF_FFFE
    requires c == 0x7FFF_FFFF - p / 0x8000_0000 == ToU32(0x7FFF_FFFF - ToU32(ToQ31(ToQ63(p) / 0x8000_0000)))
    ensures PassQ31(n, out) == ClippedStep(n, out) && 0 <= ClippedStep(n, out) < 0x8000_0000
  {
    MulOrder(0, out, c);
    MulOrder(out, 0x7FFF_FFFF, c);
    SecondProduct(out * c);
    StepOfCorrection(n, out, p, c);
    QuotientNonNegative(out * c);
  }

  lemma StepOfCorrection(n: int, out: int, p: int, c: int)
    requires p == n * out && c == 0x7FFF_FFFF - p / 0x8000_0000
    ensures Step(H31, n, out) == out * c / 0x4000_0000
  {
  }

  lemma QuotientNonNegative(p: int)
    requires p >= 0
    ensures p / 0x4000_0000 >= 0
  {
  }

  lemma SignedFirstProduct(p: int)
    requires -0x7FFF_FFFF * 0x7FFF_FFFF <= p <= 0x7FFF_FFFF * 0x7FFF_FFFF
    ensures var c := 0x7FFF_FFFF - p / 0x8000_0000;
            c == ToU32(0x7FFF_FFFF - ToU32(ToQ31(ToQ63(p) / 0x8000_0000))) && 0 < c <= 0xFFFF_FFFE
  {
    assert ToQ63(p) == p;
    ToQ31Is(p / 0x8000_0000, p / 0x8000_0000, 0);
    WordCorrection(p / 0x8000_0000);
  }

  lemma WordCorrection(t: Q31)
    ensures ToU32(0x7FFF_FFFF - ToU32(t)) == 0x7FFF_FFFF - t
  {
  }

  lemma StepValue(n: Q31, out: U32, t: int)
    requires 0x4000_0000 <= n && out < 0x8000_0000 && t == n * out / 0x8000_0000
    ensures 0 <= t < 0x7FFF_FFFF && 0 <= n * out < 0x4000_0000_0000_0000
    ensures 0 <= Step(H31, n, out) == out * (0x7FFF_FFFF - t) / 0x4000_0000 < 0x8000_0000
  {
    if out == 0 {
      assert n * out == 0;
    } else {
      StepStaysInRange(H31, n, out);
      CorrectionInRange(H31, n, out);
      ProductBelow(H31, n, out);
    }
  }

  lemma PassQ31Value(n: Q31, out: U32, t: int)
    requires 0 <= n * out < 0x4000_0000_0000_0000 && out < 0x8000_0000
    requires t == n * out / 0x8000_0000 && 0 <= t < 0x7FFF_FFFF
    ensures PassQ31(n, out) == Min(out * (0x7FFF_FFFF - t) / 0x4000_0000, 0x7FFF_FFFF)
  {
    var c := 0x7FFF_FFFF - t;
    FirstProduct(n * out);
    MulOrder(0, out, c);
    MulOrder(out, 0x7FFF_FFFF, c);
    SecondProduct(out * c);
  }

  lemma FirstProduct(p: int)
    requires 0 <= p < 0x4000_0000_0000_0000 && p / 0x8000_0000 < 0x7FFF_FFFF
    ensures var t := p / 0x8000_0000;
            ToU32(ToQ31(ToQ63(p) / 0x8000_0000)) == t && ToU32(0x7FFF_FFFF - t) == 0x7FFF_FFFF - t
  {
    assert ToQ63(p) == p;
    ToQ31Is(p / 0x8000_0000, p / 0x8000_0000, 0);
  }

  lemma SecondProduct(p: int)
    requires 0 <= p < 0x8000_0000_0000_0000
    ensures ToU32(ClipQ63ToQ31(ToQ63(p) / 0x4000_0000)) == Min(p / 0x4000_0000, 0x7FFF_FFFF)
  {
    assert ToQ63(p) == p;
    ClippedWord(p / 0x4000_0000);
  }

  lemma ClippedWord(q: Q63)
    requires q >= 0
    ensures ToU32(ClipQ63ToQ31(q)) == Min(q, 0x7FFF_FFFF)
  {
    ClipQ63ToQ31Saturates(q);
    assert ToU32(Min(q, 0x7FFF_FFFF)) == Min(q, 0x7FFF_FFFF);
  }

  /** On a negative input the correction exceeds one half and the clip pins the estimate. */
  lemma PassQ31PinsNegative(n: Q31, out: U32)
    requires -0x8000_0000 < n <= -0x4000_0000 && 0x4000_0000 <= out < 0x8000_0000
    ensures PassQ31(n, out) == 0x7FFF_FFFF
  {
    var p := n * out;
    assert -n * out == -p;
    MulOrder(0x4000_0000, -n, out);
    MulOrder(-n, 0x7FFF_FFFF, out);
    NegativeCorrection(p);
    var c := 0x7FFF_FFFF - p / 0x8000_0000;
    MulOrder(0x4000_0000, out, c);
    MulOrder(out, 0x7FFF_FFFF, c);
    SecondProduct(out * c);
  }

  lemma NegativeCorrection(p: int)
    requires -0x4000_0000_0000_0000 < p <= -0x1000_0000_0000_0000
    ensures var c := 0x7FFF_FFFF - p / 0x8000_0000;
            c == ToU32(0x7FFF_FFFF - ToU32(ToQ31(ToQ63(p) / 0x8000_0000))) && 0x9FFF_FFFF <= c <= 0xFFFF_FFFF
  {
  }

  /** Two steps from a seed within 1/64 of the target: the result is below it, by less than
      2^37 + 2^33 of the 2^61 aimed at. */
  lemma TwoStepsQ31(n: Q31, seed: Q31)
    requires 0x4000_0000 <= n && 0 < seed && Abs(Residual(H31, n, seed)) <= 0x80_0000_0000_0000
    ensures var dst := Step(H31, n, Step(H31, n, seed));
            0 < dst < 0x8000_0000 && 0 < Residual(H31, n, dst) < 0x22_0000_0000
  {
    var one := Step(H31, n, seed);
    StepBound(H31, n, seed, 0x80_0000_0000_0000, 0x2_0001_8000_0000);
    StepStaysInRange(H31, n, seed);
    PositiveEstimate(H31, n, one);
    StepBound(H31, n, one, 0x2_0001_8000_0000, 0x22_0000_0000);
    StepStaysInRange(H31, n, one);
    PositiveEstimate(H31, n, Step(H31, n, one));
  }

  /** The table entry a normalised input selects. */
  function SeedIndexQ31(n: Q31): nat { n / 0x100_0000 % 64 }

  /** What the Q31 iterations deliver for a normalised input and the seed it selects. */
  ghost predicate RecipLawQ31(n: int, seed: Q31, dst: int)
  {
    && (-0x8000_0000 < n < 0x8000_0000 && seed >= 0 ==> dst == ClippedStep(n, ClippedStep(n, seed)))
    && (n > 0 && seed >= 0 ==> dst == Step(H31, n, Step(H31, n, seed)))
    && (n > 0 && seed > 0 && Abs(Residual(H31, n, seed)) <= 0x80_0000_0000_0000 ==>
          0 < Residual(H31, n, dst) < 0x22_0000_0000)
    && (n < 0 && seed >= 0x4000_0000 ==> dst == 0x7FFF_FFFF)
  }

  /** `arm_recip_q31`: dst approximates 2^61 / (in * 2^(bits-1)), and bits is returned.
      The comment in the source promises the reciprocal of any input; the code delivers it for
      positive ones, and returns the largest word for every negative one. */
  method RecipQ31(input: Q31, pRecipTable: array<Q31>) returns (dst: Q31, bits: U32)
    requires input != 0 && input != -0x8000_0000
    requires pRecipTable.Length >= 64
    ensures 1 <= bits <= 31 && 0x4000_0000 <= Abs(input * Pow2(bits - 1)) < 0x8000_0000
    ensures var n := input * Pow2(bits - 1); RecipLawQ31(n, pRecipTable[n / 0x100_0000 % 64], dst)
  {
    var signBits, n := NormaliseQ31(input);
    TableIndex(ToU32(n / 0x100_0000));
    SeedIndexIsMask(n);
    var index: U32 := And(ToU32(n / 0x100_0000), 0x3F);
    dst := RefineQ31(n, pRecipTable[index]);
    bits := signBits + 1;
  }

  /** The branch on the sign both reciprocals begin with. */
  method ClzOfMagnitude(input: Q31) returns (zeros: U32)
    requires input != 0 && input != -0x8000_0000
    ensures zeros < 32 && Pow2(31 - zeros) <= Abs(input) < Pow2(32 - zeros)
  {
    if input > 0 {
      zeros := Clz(input);
    } else {
      zeros := Clz(-input);
    }
  }

  /** The shift that brings the top bit of the magnitude to bit 30. */
  method NormaliseQ31(input: Q31) returns (signBits: U32, n: Q31)
    requires input != 0 && input != -0x8000_0000
    ensures signBits <= 30 && n == input * Pow2(signBits) && 0x4000_0000 <= Abs(n) < 0x8000_0000
  {
    var zeros := ClzOfMagnitude(input);
    SignedNormalQ31(input, zeros);
    signBits := zeros - 1;
    var shifted := input * Pow2(signBits);
    ToQ31Is(shifted, shifted, 0);
    n := ToQ31(shifted);
  }

  lemma SignedNormalQ31(input: Q31, zeros: nat)
    requires input != 0 && input != -0x8000_0000
    requires zeros < 32 && Pow2(31 - zeros) <= Abs(input) < Pow2(32 - zeros)
    ensures 1 <= zeros && 0x4000_0000 <= Abs(input * Pow2(zeros - 1)) < 0x8000_0000
  {
    LeadingZerosOf(Abs(input), zeros);
    Normalised(Abs(input), zeros);
    SignedShift(input, Pow2(zeros - 1));
  }

  lemma SignedShift(v: int, p: int)
    requires p >= 1
    ensures Abs(v * p) == Abs(v) * p
  {
    AbsProduct(v, p);
  }

  /** The two iterations on the seed. */
  method RefineQ31(n: Q31, seed: Q31) returns (dst: Q31)
    requires 0x4000_0000 <= Abs(n) < 0x8000_0000
    ensures RecipLawQ31(n, seed, dst)
  {
    var out: U32 := ToU32(seed);
    var i: U32 := 0;
    while i < 2
      invariant i <= 2
      invariant seed >= 0 ==>
                  out < 0x8000_0000
                  && out == if i == 0 then seed else if i == 1 then ClippedStep(n, seed)
                            else ClippedStep(n, ClippedStep(n, seed))
    {
      if seed >= 0 {
        PassQ31IsClippedStep(n, out);
      }
      out := PassQ31(n, out);
      i := i + 1;
    }
    dst := ToQ31(out);
    if seed >= 0 {
      ToQ31Is(out, out, 0);
      TwoClippedSteps(n, seed);
    }
  }

  /** For positive inputs the two clipped steps are the plain ones, and from a seed of at least one
      half a negative input is pinned. */
  lemma TwoClippedSteps(n: Q31, seed: Q31)
    requires 0x4000_0000 <= Abs(n) < 0x8000_0000 && seed >= 0
    ensures RecipLawQ31(n, seed, ClippedStep(n, ClippedStep(n, seed)))
  {
    var one := ClippedStep(n, seed);
    PassQ31IsClippedStep(n, seed);
    PassQ31IsClippedStep(n, one);
    if n > 0 {
      PassQ31IsStep(n, seed);
      PassQ31IsStep(n, one);
      if seed > 0 && Abs(Residual(H31, n, seed)) <= 0x80_0000_0000_0000 {
        TwoStepsQ31(n, seed);
      }
    } else if seed >= 0x4000_0000 {
      PassQ31PinsNegative(n, seed);
      PassQ31PinsNegative(n, one);
    }
  }

  lemma SeedIndexIsMask(n: Q31)
    ensures ToU32(n / 0x100_0000) % 64 == SeedIndexQ31(n) == n / 0x100_0000 % 64 < 64
  {
  }

  /** Against a table whose entries are 1.31 reciprocals with exponent one (at least 2^30) and
      within 1/64 for positive inputs, the result is accurate exactly for positive inputs. */
  lemma AccurateIffPositive(n: Q31, seed: Q31, dst: Q31)
    requires 0x4000_0000 <= Abs(n) < 0x8000_0000 && seed >= 0x4000_0000 && RecipLawQ31(n, seed, dst)
    requires n > 0 ==> Abs(Residual(H31, n, seed)) <= 0x80_0000_0000_0000
    ensures Abs(Residual(H31, n, dst)) < 0x22_0000_0000 <==> n > 0
  {
    if n < 0 {
      MulOrder(n, 0, dst);
    }
  }

  /** In units of the result: never above the true reciprocal 2^61/n, and at most 135 below. */
  lemma RecipErrorQ31(n: Q31, seed: Q31, dst: Q31)
    requires 0x4000_0000 <= n && seed > 0 && Abs(Residual(H31, n, seed)) <= 0x80_0000_0000_0000
    requires RecipLawQ31(n, seed, dst)
    ensures dst <= 0x2000_0000_0000_0000 / n <= dst + 135
  {
    QuotientAbove(0x2000_0000_0000_0000, n, dst, 135);
  }

  lemma QuotientAbove(t: int, n: int, q: int, slack: nat)
    requires n > 0 && n * q <= t < n * q + n * (slack + 1)
    ensures q <= t / n <= q + slack
  {
    Recompose(t, n);
    var k := t / n;
    assert (q + slack + 1) * n == n * q + n * (slack + 1);
    if k < q {
      MulOrder(k + 1, q, n);
    } else if k > q + slack {
      MulOrder(q + slack + 1, k, n);
    }
  }

  /** The reciprocal of the middle of cell i, as the seed for all inputs whose top bits are 64+i. */
  function MidpointSeedQ31(i: nat): Q31
    requires i < 64
  {
    var c := (64 + i) * 0x100_0000 + 0x80_0000;
    MidpointRange(c);
    0x2000_0000_0000_0000 / c
  }

  lemma MidpointRange(c: int)
    requires 0x4080_0000 <= c <= 0x7F80_0000
    ensures 0x4000_0000 <= 0x2000_0000_0000_0000 / c < 0x8000_0000
  {
    var q, r := 0x2000_0000_0000_0000 / c, 0x2000_0000_0000_0000 % c;
    Recompose(0x2000_0000_0000_0000, c);
    if q >= 0x8000_0000 {
      MulOrder(0x8000_0000, q, c);
    }
    if q < 0x4000_0000 {
      MulOrder(q, 0x3FFF_FFFF, c);
    }
  }

  /** Midpoint seeds are within 1/64 for every normalised input, so the accuracy clause of
      `RecipQ31` is met by a real table. */
  lemma MidpointSeedsQ31(n: Q31)
    requires 0x4000_0000 <= n
    ensures MidpointSeedQ31(SeedIndexQ31(n)) >= 0x4000_0000
    ensures Abs(Residual(H31, n, MidpointSeedQ31(SeedIndexQ31(n)))) <= 0x80_0000_0000_0000
  {
    var i := SeedIndexQ31(n);
    assert i == n / 0x100_0000 - 64;
    var c := (64 + i) * 0x100_0000 + 0x80_0000;
    MidpointRange(c);
    var s := MidpointSeedQ31(i);
    Recompose(0x2000_0000_0000_0000, c);
    assert s * c == c * s;
    ProductBound(n - c, 0x80_0000, s, 0x8000_0000);
    assert n * s == c * s + (n - c) * s;
    assert Target(H31) == 0x2000_0000_0000_0000;
  }

  // ----- Q15

  /** One pass of the Q15 loop body: the products are formed in unsigned 32 bits, and there is
      no clip, only a cast to 16 bits. */
  function PassQ15(n: Q15, out: U32): U32
  {
    var tempVal: U32 := ToU32(ToQ15(ToU32(n * out) / 0x8000));
    var correction: U32 := ToU32(0x7FFF - tempVal);
    ToU32(ToQ15(ToU32(out * correction) / 0x4000))
  }

  lemma PassQ15IsStep(n: Q15, out: U32)
    requires 0x4000 <= n && out < 0x8000
    ensures PassQ15(n, out) == Step(H15, n, out) < 0x8000
  {
    if out > 0 {
      StepStaysInRange(H15, n, out);
      CorrectionInRange(H15, n, out);
      ProductBelow(H15, n, out);
      FirstProductQ15(n * out);
      var c := 0x7FFF - n * out / 0x8000;
      MulOrder(0, out, c);
      MulOrder(out, 0x7FFF, c);
      SecondProductQ15(out * c);
    }
  }

  lemma FirstProductQ15(p: int)
    requires 0 <= p < 0x4000_0000 && p / 0x8000 < 0x7FFF
    ensures var t := p / 0x8000; ToU32(ToQ15(ToU32(p) / 0x8000)) == t && ToU32(0x7FFF - t) == 0x7FFF - t
  {
  }

  lemma SecondProductQ15(p: int)
    requires 0 <= p < 0x4000_0000 && p / 0x4000 < 0x8000
    ensures ToU32(ToQ15(ToU32(p) / 0x4000)) == p / 0x4000
  {
  }

  lemma TwoStepsQ15(n: Q15, seed: Q15)
    requires 0x4000 <= n && 0 < seed && Abs(Residual(H15, n, seed)) <= 0x80_0000
    ensures var dst := Step(H15, n, Step(H15, n, seed));
            0 < dst < 0x8000 && 0 < Residual(H15, n, dst) < 98403
  {
    var one := Step(H15, n, seed);
    StepBound(H15, n, seed, 0x80_0000, 0x3_8000);
    StepStaysInRange(H15, n, seed);
    PositiveEstimate(H15, n, one);
    StepBound(H15, n, one, 0x3_8000, 98403);
    StepStaysInRange(H15, n, one);
    PositiveEstimate(H15, n, Step(H15, n, one));
  }

  /** The Newton step on signed half-words, reduced to 16 bits once. */
  function SignedStepQ15(n: Q15, out: Q15): Q15 { ToQ15(Step(H15, n, out)) }

  /** For every input above the least word and every estimate, negative ones included, the pass is
      the Newton step with that one reduction. */
  lemma PassQ15IsSignedStep(n: Q15, out: Q15)
    requires n != -0x8000
    ensures PassQ15(n, ToU32(out)) == ToU32(SignedStepQ15(n, out))
  {
    var j, u := UnsignedView(out);
    var t := SignedQuotientOf(n, out, j, u);
    var c: int := 0x7FFF - t as int;
    ShiftedCorrection(out, j, u, c);
    PassQ15Value(n, out, u, t, c);
  }

  lemma UnsignedView(out: Q15) returns (j: int, u: U32)
    ensures u == ToU32(out) == out + j * 0x1_0000_0000
  {
    j, u := if out < 0 then 1 else 0, ToU32(out);
  }

  lemma ShiftedCorrection(out: int, j: int, u: int, c: int)
    requires u == out + j * 0x1_0000_0000
    ensures ToQ15(ToU32(u * c) / 0x4000) == ToQ15(out * c / 0x4000)
  {
    assert u * c == out * c + j * c * 0x1_0000_0000;
    SignedQuotient(out * c, j * c, 0x4000, 0x4_0000);
  }

  lemma SignedQuotientOf(n: Q15, out: Q15, j: int, u: U32) returns (t: Q15)
    requires n != -0x8000 && u == out + j * 0x1_0000_0000
    ensures t == n * out / 0x8000 == ToQ15(ToU32(n * u) / 0x8000)
  {
    ProductBound(n, 0x7FFF, out, 0x8000);
    t := n * out / 0x8000;
    assert n * u == n * out + n * j * 0x1_0000_0000;
    SignedQuotient(n * out, n * j, 0x8000, 0x2_0000);
    ToQ15Is(t, t, 0);
  }

  lemma PassQ15Value(n: Q15, out: Q15, u: U32, t: Q15, c: int)
    requires u == ToU32(out) && t == n * out / 0x8000 == ToQ15(ToU32(n * u) / 0x8000) && c == 0x7FFF - t
    requires ToQ15(ToU32(u * c) / 0x4000) == ToQ15(out * c / 0x4000)
    ensures PassQ15(n, u) == ToU32(SignedStepQ15(n, out))
  {
    SignedCorrection(t);
  }

  /** A product formed in unsigned words, shifted and cast to 16 bits, is the floor of the signed
      product with that cast. */
  lemma SignedQuotient(p: int, k: int, d: int, turn: int)
    requires (d, turn) in {(0x8000, 0x2_0000), (0x4000, 0x4_0000)}
    ensures ToQ15(ToU32(p + k * 0x1_0000_0000) / d) == ToQ15(p / d)
  {
    var x := p + k * 0x1_0000_0000;
    var m := k - x / 0x1_0000_0000;
    assert ToU32(x) == p + m * turn * d;
    DivAddMultiple(p, m * turn, d);
    var r := (p / d + 0x8000) / 0x1_0000;
    ToQ15Is(p / d + m * turn, ToQ15(p / d), r + m * (turn / 0x1_0000));
  }

  lemma SignedCorrection(t: Q15)
    ensures ToU32(0x7FFF - ToU32(t)) == 0x7FFF - t
  {
  }

  /** From a seed of at least one half the first step fits in 16 bits exactly for positive inputs:
      the code has no clip, so for every negative one it wraps. */
  lemma FirstStepFitsIff(n: Q15, seed: Q15)
    requires 0x4000 <= Abs(n) < 0x8000 && seed >= 0x4000
    ensures SignedStepQ15(n, seed) == Step(H15, n, seed) <==> n > 0
  {
    if n > 0 {
      StepStaysInRange(H15, n, seed);
    } else {
      MulOrder(n, -0x4000, seed);
      var c := 0x7FFF - n * seed / 0x8000;
      assert c >= 0x9FFF;
      MulOrder(0x4000, seed, c);
      assert Step(H15, n, seed) >= 0x9FFF;
    }
  }

  /** After two wrapping steps a negative input may end anywhere: one that lands on its reciprocal
      and one that does not. Both seeds are ones an accurate table can hold in that cell. */
  lemma NegativeQ15MayHitOrMiss()
    ensures SignedStepQ15(-31330, SignedStepQ15(-31330, 30236)) == -17136 && Residual(H15, -31330, -17136) == 32
    ensures SignedStepQ15(-16384, SignedStepQ15(-16384, 32767)) == 32747 && Residual(H15, -16384, 32747) == 1073397760
    ensures SeedIndexQ15(-31330) == 5 && SeedIndexQ15(-16384) == 0
    ensures forall n: Q15 :: 0x4000 <= n && SeedIndexQ15(n) == 5 ==> Abs(Residual(H15, n, 30236)) <= 0x80_0000
    ensures forall n: Q15 :: 0x4000 <= n && SeedIndexQ15(n) == 0 ==> Abs(Residual(H15, n, 32767)) <= 0x80_0000
  {
    StepFromProducts(-31330, 30236, -947293880, -28910, 1864865772, -17250, 2);
    StepFromProducts(-31330, -17250, 540442500, 16492, -280743750, -17136, 0);
    ResidualFromProduct(-31330, -17136, 536870880);
    StepFromProducts(-16384, 32767, -536854528, -16384, 1610530817, 32763, 1);
    StepFromProducts(-16384, 32763, -536788992, -16382, 1610268687, 32747, 1);
    ResidualFromProduct(-16384, 32747, -536526848);
    forall n: Q15 | 0x4000 <= n && SeedIndexQ15(n) == 5
      ensures Abs(Residual(H15, n, 30236)) <= 0x80_0000
    {
      ResidualFromProduct(n, 30236, n * 30236);
    }
    forall n: Q15 | 0x4000 <= n && SeedIndexQ15(n) == 0
      ensures Abs(Residual(H15, n, 32767)) <= 0x80_0000
    {
      ResidualFromProduct(n, 32767, n * 32767);
    }
  }

  lemma ResidualFromProduct(n: Q15, out: Q15, p: int)
    requires p == n * out
    ensures Residual(H15, n, out) == 0x2000_0000 - p
  {
  }

  lemma StepFromProducts(n: Q15, out: Q15, p: int, t: int, r: int, next: Q15, turns: int)
    requires p == n * out && 0x8000 * t <= p < 0x8000 * t + 0x8000
    requires r == out * (0x7FFF - t)
    requires 0x4000 * (next + turns * 0x1_0000) <= r < 0x4000 * (next + turns * 0x1_0000) + 0x4000
    ensures SignedStepQ15(n, out) == next
  {
    DivModUnique(p, 0x8000, t, p - 0x8000 * t);
    DivModUnique(r, 0x4000, next + turns * 0x1_0000, r - 0x4000 * (next + turns * 0x1_0000));
    ToQ15Is(next + turns * 0x1_0000, next, turns);
  }

  function SeedIndexQ15(n: Q15): nat { n / 0x100 % 64 }

  /** The reciprocal of the middle of cell i, as the seed for all inputs whose top bits are 64+i. */
  function MidpointSeedQ15(i: nat): Q15
    requires i < 64
  {
    var c := (64 + i) * 0x100 + 0x80;
    MidpointRangeQ15(c);
    0x2000_0000 / c
  }

  lemma MidpointRangeQ15(c: int)
    requires 0x4080 <= c <= 0x7F80
    ensures 0x4000 <= 0x2000_0000 / c < 0x8000
  {
    var q, r := 0x2000_0000 / c, 0x2000_0000 % c;
    Recompose(0x2000_0000, c);
    if q >= 0x8000 {
      MulOrder(0x8000, q, c);
    }
    if q < 0x4000 {
      MulOrder(q, 0x3FFF, c);
    }
  }

  /** Midpoint seeds are within 1/64 for every normalised input here too, so one table meets the
      accuracy clause of `RecipQ15` throughout. */
  lemma MidpointSeedsQ15(n: Q15)
    requires 0x4000 <= n
    ensures MidpointSeedQ15(SeedIndexQ15(n)) >= 0x4000
    ensures Abs(Residual(H15, n, MidpointSeedQ15(SeedIndexQ15(n)))) <= 0x80_0000
  {
    var i := SeedIndexQ15(n);
    assert i == n / 0x100 - 64;
    var c := (64 + i) * 0x100 + 0x80;
    MidpointRangeQ15(c);
    var s := MidpointSeedQ15(i);
    Recompose(0x2000_0000, c);
    assert s * c == c * s;
    ProductBound(n - c, 0x80, s, 0x8000);
    assert n * s == c * s + (n - c) * s;
    ResidualFromProduct(n, s, n * s);
  }

  ghost predicate RecipLawQ15(n: int, seed: Q15, dst: int)
  {
    && (-0x8000 < n < 0x8000 ==> dst == SignedStepQ15(n, SignedStepQ15(n, seed)))
    && (n > 0 && seed >= 0 ==> dst == Step(H15, n, Step(H15, n, seed)))
    && (n > 0 && seed > 0 && Abs(Residual(H15, n, seed)) <= 0x80_0000 ==> 0 < Residual(H15, n, dst) < 98403)
  }

  /** `arm_recip_q15`: dst approximates 2^29 / (in * 2^(bits-1)). */
  method RecipQ15(input: Q15, pRecipTable: array<Q15>) returns (dst: Q15, bits: U32)
    requires input != 0 && input != -0x8000
    requires pRecipTable.Length >= 64
    ensures 1 <= bits <= 15 && 0x4000 <= Abs(input * Pow2(bits - 1)) < 0x8000
    ensures var n := input * Pow2(bits - 1); RecipLawQ15(n, pRecipTable[n / 0x100 % 64], dst)
  {
    var signBits, n := NormaliseQ15(input);
    TableIndex(ToU32(n / 0x100));
    SeedIndexIsMaskQ15(n);
    var index: U32 := And(ToU32(n / 0x100), 0x3F);
    dst := RefineQ15(n, pRecipTable[index]);
    bits := signBits + 1;
  }

  /** In units of the result: never above 2^29/n, and at most 6 below. */
  lemma RecipErrorQ15(n: Q15, seed: Q15, dst: Q15)
    requires 0x4000 <= n && seed > 0 && Abs(Residual(H15, n, seed)) <= 0x80_0000
    requires RecipLawQ15(n, seed, dst)
    ensures dst <= 0x2000_0000 / n <= dst + 6
  {
    QuotientAbove(0x2000_0000, n, dst, 6);
  }

  lemma SeedIndexIsMaskQ15(n: Q15)
    ensures ToU32(n / 0x100) % 64 == SeedIndexQ15(n) == n / 0x100 % 64 < 64
  {
  }

  method NormaliseQ15(input: Q15) returns (signBits: U32, n: Q15)
    requires input != 0 && input != -0x8000
    ensures signBits <= 14 && n == input * Pow2(signBits) && 0x4000 <= Abs(n) < 0x8000
  {
    var zeros := ClzOfMagnitude(input);
    SignedNormalQ15(input, zeros);
    signBits := zeros - 17;
    var shifted := input * Pow2(signBits);
    ToQ15Is(shifted, shifted, 0);
    n := ToQ15(shifted);
  }

  lemma SignedNormalQ15(input: Q15, zeros: nat)
    requires input != 0 && input != -0x8000
    requires zeros < 32 && Pow2(31 - zeros) <= Abs(input) < Pow2(32 - zeros)
    ensures 17 <= zeros && 0x4000 <= Abs(input * Pow2(zeros - 17)) < 0x8000
  {
    LeadingZerosOf(Abs(input), zeros);
    NormalisedQ15(Abs(input), zeros);
    SignedShift(input, Pow2(zeros - 17));
  }

  method RefineQ15(n: Q15, seed: Q15) returns (dst: Q15)
    requires 0x4000 <= Abs(n) < 0x8000
    ensures RecipLawQ15(n, seed, dst)
  {
    ghost var signed := seed;
    var out: U32 := ToU32(seed);
    var i: U32 := 0;
    while i < 2
      invariant i <= 2
      invariant signed ==
                  if i == 0 then seed else if i == 1 then SignedStepQ15(n, seed)
                  else SignedStepQ15(n, SignedStepQ15(n, seed))
      invariant out == ToU32(signed)
    {
      PassQ15IsSignedStep(n, signed);
      out, signed := PassQ15(n, out), SignedStepQ15(n, signed);
      i := i + 1;
    }
    SignedBack(signed);
    dst := ToQ15(out);
    TwoStepsLaw(n, seed);
  }

  /** For positive inputs the two signed steps are the plain ones. */
  lemma TwoStepsLaw(n: Q15, seed: Q15)
    requires 0x4000 <= Abs(n) < 0x8000
    ensures RecipLawQ15(n, seed, SignedStepQ15(n, SignedStepQ15(n, seed)))
  {
    if n > 0 && seed >= 0 {
      PlainStep(n, seed);
      PlainStep(n, Step(H15, n, seed));
      if seed > 0 && Abs(Residual(H15, n, seed)) <= 0x80_0000 {
        TwoStepsQ15(n, seed);
      }
    }
  }

  lemma PlainStep(n: Q15, out: Q15)
    requires 0x4000 <= n && out >= 0
    ensures SignedStepQ15(n, out) == Step(H15, n, out) >= 0
  {
    PassQ15IsStep(n, out);
    ToQ15Is(Step(H15, n, out), Step(H15, n, out), 0);
  }

  lemma SignedBack(v: Q15)
    ensures ToQ15(ToU32(v)) == v
  {
  }

  lemma NormalisedQ15(v: nat, zeros: nat)
    requires 17 <= zeros <= 31 && Pow2(31 - zeros) <= v < Pow2(32 - zeros)
    ensures 0x4000 <= v * Pow2(zeros - 17) < 0x8000
  {
    Pow2Add(31 - zeros, zeros - 17);
    Pow2Add(32 - zeros, zeros - 17);
    assert Pow2(14) == 0x4000 && Pow2(15) == 0x8000;
    MulOrder(Pow2(31 - zeros), v, Pow2(zeros - 17));
    MulStrict(v, Pow2(32 - zeros), Pow2(zeros - 17));
  }
}
