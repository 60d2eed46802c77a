/**
  The vector transforms of motor control in Q31: Clarke (three phases to two axes), Park
  (rotation by an angle given as sine and cosine), and their inverses.

  Each forward transform followed by its inverse returns the input up to a few units in the
  last place, wherever the forward sums stay inside 32 bits.
*/
module Transforms {
  import opened MachineInt
  import opened Saturate

  // ----- Clarke

  const C1: int := 0x24F3_4E8B // 1/sqrt(3) in 2.30
  const C2: int := 0x49E6_9D16 // 2/sqrt(3) in 2.30
  const C3: int := 0x6ED9_EBA1 // sqrt(3)/2 in 1.31

  /** The constants are in ratio 1:2:3, and the product of forward and inverse gain is one up to
      less than 2^-31. */
  lemma ClarkeConstants()
    ensures C2 == 2 * C1 && C3 == 3 * C1
    ensures 0x1000_0000_0000_0000 - C1 * C3 == 470745493
  {
  }

  function Clarke(ia: Q31, ib: Q31): (Q31, Q31)
  {
    (ia, Sat32(ToQ31(ia * C1 / 0x4000_0000) + ToQ31(ib * C2 / 0x4000_0000)))
  }

  function InvClarke(ialpha: Q31, ibeta: Q31): (Q31, Q31)
  {
    (ialpha, Sat32(ToQ31(ibeta * C3 / 0x8000_0000) - ialpha / 2))
  }

  /** `arm_clarke_q31`. */
  method ClarkeQ31(ia: Q31, ib: Q31) returns (pIalpha: Q31, pIbeta: Q31)
    ensures var turns := if ib > 1859775393 then 1 else if ib < -1859775393 then -1 else 0;
            && pIalpha == ia
            && pIbeta == Sat32(ia * 0x24F3_4E8B / 0x4000_0000 + ib * 0x49E6_9D16 / 0x4000_0000 - turns * 0x1_0000_0000)
    ensures (pIalpha, pIbeta) == Clarke(ia, ib)
  {
    ClarkeValue(ia, ib);
    pIalpha := ia;
    PhaseProducts(ia);
    PhaseProducts(ib);
    var product1 := ToQ31(ToQ63(ia * 0x24F3_4E8B) / 0x4000_0000);
    var product2 := ToQ31(ToQ63(ib * 0x49E6_9D16) / 0x4000_0000);
    pIbeta := QAdd(product1, product2);
  }

  lemma PhaseProducts(x: Q31)
    ensures ToQ63(x * 0x24F3_4E8B) == x * C1 && ToQ63(x * 0x49E6_9D16) == x * C2
  {
  }

  /** `arm_inv_clarke_q31`. */
  method InvClarkeQ31(ialpha: Q31, ibeta: Q31) returns (pIa: Q31, pIb: Q31)
    ensures pIa == ialpha && pIb == Sat32(ibeta * 0x6ED9_EBA1 / 0x8000_0000 - ialpha / 2)
    ensures (pIa, pIb) == InvClarke(ialpha, ibeta)
  {
    InvClarkeValue(ialpha, ibeta);
    pIa := ialpha;
    var product1 := ToQ31(ToQ63(ialpha * 0x4000_0000) / 0x8000_0000);
    HalfProduct(ialpha);
    LinePhase(ibeta);
    var product2 := ToQ31(ToQ63(ibeta * 0x6ED9_EBA1) / 0x8000_0000);
    pIb := QSub(product2, product1);
  }

  lemma LinePhase(x: Q31)
    ensures ToQ63(x * 0x6ED9_EBA1) == x * C3
  {
  }

  lemma HalfProduct(x: Q31)
    ensures ToQ31(ToQ63(x * 0x4000_0000) / 0x8000_0000) == x / 2
  {
    var p: Q63 := x * 0x4000_0000;
    assert ToQ63(p) == p;
    DivModUnique(p, 0x8000_0000, x / 2, x % 2 * 0x4000_0000);
    ToQ31Is(x / 2, x / 2, 0);
  }

  /** The documentation says saturation removes the risk of overflow. It does so for the sum, not
      for the second product: beta is the saturated sum of the two scaled phases exactly when
      that product fits, |Ib| <= 1859775393. */
  lemma ClarkeSaturatesIff(ia: Q31, ib: Q31)
    ensures Clarke(ia, ib).1 == Sat32(ia * C1 / 0x4000_0000 + ib * C2 / 0x4000_0000)
            <==> -1859775393 <= ib <= 1859775393
  {
  }

  /** For every input: beyond that bound the second product's cast takes a whole turn off. */
  lemma ClarkeValue(ia: Q31, ib: Q31)
    ensures var turns := if ib > 1859775393 then 1 else if ib < -1859775393 then -1 else 0;
            Clarke(ia, ib) ==
            (ia, Sat32(ia * 0x24F3_4E8B / 0x4000_0000 + ib * 0x49E6_9D16 / 0x4000_0000 - turns * 0x1_0000_0000))
  {
    var p, q := ia * 0x24F3_4E8B / 0x4000_0000, ib * 0x49E6_9D16 / 0x4000_0000;
    var turns := if ib > 1859775393 then 1 else if ib < -1859775393 then -1 else 0;
    ToQ31Is(p, p, 0);
    ToQ31Is(q, q - turns * 0x1_0000_0000, turns);
  }

  /** Neither forward product nor the forward sum leaves 32 bits. */
  predicate ClarkeFits(ia: Q31, ib: Q31)
  {
    -1859775393 <= ib <= 1859775393 && FitsQ31(ia * C1 / 0x4000_0000 + ib * C2 / 0x4000_0000)
  }

  lemma ClarkeFitsHalfScale(ia: Q31, ib: Q31)
    requires -0x4000_0000 <= ia <= 0x4000_0000 && -0x4000_0000 <= ib <= 0x4000_0000
    ensures ClarkeFits(ia, ib)
  {
  }

  /** The inverse of the forward transform returns phase a exactly, and phase b at most three
      units low and one high. */
  lemma ClarkeRoundTrip(ia: Q31, ib: Q31)
    requires ClarkeFits(ia, ib)
    ensures var v := Clarke(ia, ib);
            var w := InvClarke(v.0, v.1);
            w.0 == ia && -3 <= w.1 - ib <= 1
  {
    var beta := Clarke(ia, ib).1;
    ClarkeForward(ia, ib);
    ClarkeBack(ia, ib, beta);
    InvClarkeValue(ia, beta);
    SatCloser(beta * C3 / 0x8000_0000 - ia / 2, ib, -3, 1);
  }

  lemma ClarkeForward(ia: Q31, ib: Q31)
    requires ClarkeFits(ia, ib)
    ensures var beta := ia * C1 / 0x4000_0000 + ib * C2 / 0x4000_0000;
            Clarke(ia, ib).1 == beta && 0 <= C1 * (ia + 2 * ib) - 0x4000_0000 * beta <= 0x7FFF_FFFE
  {
    ClarkeSaturatesIff(ia, ib);
  }

  lemma InvClarkeValue(ia: Q31, beta: Q31)
    ensures InvClarke(ia, beta) == (ia, Sat32(beta * C3 / 0x8000_0000 - ia / 2))
  {
  }

  lemma ClarkeBack(ia: Q31, ib: Q31, beta: Q31)
    requires 0 <= C1 * (ia + 2 * ib) - 0x4000_0000 * beta <= 0x7FFF_FFFE
    ensures -3 <= beta * C3 / 0x8000_0000 - ia / 2 - ib <= 1
  {
  }

  /** Saturation moves a value towards any value in range. */
  lemma SatCloser(v: int, x: Q31, lo: int, hi: int)
    requires lo <= v - x <= hi && lo <= 0 <= hi
    ensures lo <= Sat32(v) - x <= hi
  {
  }

  // ----- Park

  /** A Q31 product scaled back to Q31. */
  function Scaled(x: Q31, y: Q31): Q31 { ToQ31(x * y / 0x8000_0000) }

  /** Both factors are the least word, -1. */
  predicate MinusOnes(x: Q31, y: Q31) { x == -0x8000_0000 && y == -0x8000_0000 }

  /** The cast of a scaled product keeps its value exactly when not both operands are -1. */
  lemma ScaledExactIff(x: Q31, y: Q31)
    ensures Scaled(x, y) == x * y / 0x8000_0000 <==> !MinusOnes(x, y)
    ensures MinusOnes(x, y) ==> x * y / 0x8000_0000 == 0x8000_0000 && Scaled(x, y) == -0x8000_0000
  {
    if y == -0x8000_0000 {
    } else {
      ProductBound(x, 0x8000_0000, y, 0x7FFF_FFFF);
      ToQ31Is(x * y / 0x8000_0000, x * y / 0x8000_0000, 0);
    }
  }

  function Park(ialpha: Q31, ibeta: Q31, sinVal: Q31, cosVal: Q31): (Q31, Q31)
  {
    (Sat32(Scaled(ialpha, cosVal) + Scaled(ibeta, sinVal)), Sat32(Scaled(ibeta, cosVal) - Scaled(ialpha, sinVal)))
  }

  /** The documentation says saturation removes the risk of overflow in the sums. An output is the
      saturated sum of its two exact scaled products exactly when neither product is -1 times -1;
      in a difference two such products cancel. */
  lemma ParkSaturatesIff(ialpha: Q31, ibeta: Q31, sinVal: Q31, cosVal: Q31)
    ensures var v := Park(ialpha, ibeta, sinVal, cosVal);
            && (v.0 == Sat32(ialpha * cosVal / 0x8000_0000 + ibeta * sinVal / 0x8000_0000) <==>
                  !MinusOnes(ialpha, cosVal) && !MinusOnes(ibeta, sinVal))
            && (v.1 == Sat32(ibeta * cosVal / 0x8000_0000 - ialpha * sinVal / 0x8000_0000) <==>
                  (MinusOnes(ibeta, cosVal) <==> MinusOnes(ialpha, sinVal)))
  {
    SumSaturatesIff(ialpha, cosVal, ibeta, sinVal);
    DifferenceSaturatesIff(ibeta, cosVal, ialpha, sinVal);
  }

  /** The turn of 2^32 the cast of a scaled product takes off. */
  function TurnOff(x: Q31, y: Q31): int { if MinusOnes(x, y) then 0x1_0000_0000 else 0 }

  /** For every input, wrapped products included, both outputs in terms of the exact products. */
  lemma ParkValue(ialpha: Q31, ibeta: Q31, sinVal: Q31, cosVal: Q31)
    ensures Park(ialpha, ibeta, sinVal, cosVal) ==
            (Sat32(ialpha * cosVal / 0x8000_0000 - TurnOff(ialpha, cosVal)
                   + ibeta * sinVal / 0x8000_0000 - TurnOff(ibeta, sinVal)),
             Sat32(ibeta * cosVal / 0x8000_0000 - TurnOff(ibeta, cosVal)
                   - ialpha * sinVal / 0x8000_0000 + TurnOff(ialpha, sinVal)))
  {
    ScaledExactIff(ialpha, cosVal);
    ScaledExactIff(ibeta, sinVal);
    ScaledExactIff(ibeta, cosVal);
    ScaledExactIff(ialpha, sinVal);
  }

  /** The same for the inverse rotation. */
  lemma InvParkValue(id: Q31, iq: Q31, sinVal: Q31, cosVal: Q31)
    ensures InvPark(id, iq, sinVal, cosVal) ==
            (Sat32(id * cosVal / 0x8000_0000 - TurnOff(id, cosVal) - iq * sinVal / 0x8000_0000 + TurnOff(iq, sinVal)),
             Sat32(iq * cosVal / 0x8000_0000 - TurnOff(iq, cosVal) + id * sinVal / 0x8000_0000 - TurnOff(id, sinVal)))
  {
    ScaledExactIff(id, cosVal);
    ScaledExactIff(iq, sinVal);
    ScaledExactIff(iq, cosVal);
    ScaledExactIff(id, sinVal);
  }

  /** The same for the inverse, whose first output is the difference. */
  lemma InvParkSaturatesIff(id: Q31, iq: Q31, sinVal: Q31, cosVal: Q31)
    ensures var v := InvPark(id, iq, sinVal, cosVal);
            && (v.0 == Sat32(id * cosVal / 0x8000_0000 - iq * sinVal / 0x8000_0000) <==>
                  (MinusOnes(id, cosVal) <==> MinusOnes(iq, sinVal)))
            && (v.1 == Sat32(iq * cosVal / 0x8000_0000 + id * sinVal / 0x8000_0000) <==>
                  !MinusOnes(iq, cosVal) && !MinusOnes(id, sinVal))
  {
    DifferenceSaturatesIff(id, cosVal, iq, sinVal);
    SumSaturatesIff(iq, cosVal, id, sinVal);
  }

  lemma SumSaturatesIff(x: Q31, y: Q31, u: Q31, v: Q31)
    ensures Sat32(Scaled(x, y) + Scaled(u, v)) == Sat32(x * y / 0x8000_0000 + u * v / 0x8000_0000)
            <==> !MinusOnes(x, y) && !MinusOnes(u, v)
  {
    ScaledProduct(x, y);
    ScaledProduct(u, v);
    WrappedTerms(x * y / 0x8000_0000, u * v / 0x8000_0000);
  }

  lemma DifferenceSaturatesIff(x: Q31, y: Q31, u: Q31, v: Q31)
    ensures Sat32(Scaled(x, y) - Scaled(u, v)) == Sat32(x * y / 0x8000_0000 - u * v / 0x8000_0000)
            <==> (MinusOnes(x, y) <==> MinusOnes(u, v))
  {
    ScaledProduct(x, y);
    ScaledProduct(u, v);
    WrappedTerms(x * y / 0x8000_0000, u * v / 0x8000_0000);
  }

  /** A scaled product is 2^31 exactly for -1 times -1, and otherwise a word. */
  lemma ScaledProduct(x: Q31, y: Q31)
    ensures -0x8000_0000 <= x * y / 0x8000_0000 <= 0x8000_0000
    ensures x * y / 0x8000_0000 == 0x8000_0000 <==> MinusOnes(x, y)
    ensures Scaled(x, y) == ToQ31(x * y / 0x8000_0000)
  {
    ProductBound(x, 0x8000_0000, y, 0x8000_0000);
    ScaledExactIff(x, y);
    if !MinusOnes(x, y) {
      assert FitsQ31(Scaled(x, y));
    }
  }

  lemma WrappedTerms(p: int, q: int)
    requires -0x8000_0000 <= p <= 0x8000_0000 && -0x8000_0000 <= q <= 0x8000_0000
    ensures Sat32(ToQ31(p) + ToQ31(q)) == Sat32(p + q) <==> p != 0x8000_0000 && q != 0x8000_0000
    ensures Sat32(ToQ31(p) - ToQ31(q)) == Sat32(p - q) <==> (p == 0x8000_0000 <==> q == 0x8000_0000)
  {
  }

  function InvPark(id: Q31, iq: Q31, sinVal: Q31, cosVal: Q31): (Q31, Q31)
  {
    (Sat32(Scaled(id, cosVal) - Scaled(iq, sinVal)), Sat32(Scaled(iq, cosVal) + Scaled(id, sinVal)))
  }

  /** `arm_park_q31`. */
  method ParkQ31(ialpha: Q31, ibeta: Q31, sinVal: Q31, cosVal: Q31) returns (pId: Q31, pIq: Q31)
    ensures (pId, pIq) == Park(ialpha, ibeta, sinVal, cosVal)
  {
    ProductFits63(ialpha, cosVal);
    ProductFits63(ibeta, sinVal);
    ProductFits63(ialpha, sinVal);
    ProductFits63(ibeta, cosVal);
    var product1 := ToQ31(ToQ63(ialpha * cosVal) / 0x8000_0000);
    var product2 := ToQ31(ToQ63(ibeta * sinVal) / 0x8000_0000);
    var product3 := ToQ31(ToQ63(ialpha * sinVal) / 0x8000_0000);
    var product4 := ToQ31(ToQ63(ibeta * cosVal) / 0x8000_0000);
    pId := QAdd(product1, product2);
    pIq := QSub(product4, product3);
  }

  /** `arm_inv_park_q31`. */
  method InvParkQ31(id: Q31, iq: Q31, sinVal: Q31, cosVal: Q31) returns (pIalpha: Q31, pIbeta: Q31)
    ensures (pIalpha, pIbeta) == InvPark(id, iq, sinVal, cosVal)
  {
    ProductFits63(id, cosVal);
    ProductFits63(iq, sinVal);
    ProductFits63(id, sinVal);
    ProductFits63(iq, cosVal);
    var product1 := ToQ31(ToQ63(id * cosVal) / 0x8000_0000);
    var product2 := ToQ31(ToQ63(iq * sinVal) / 0x8000_0000);
    var product3 := ToQ31(ToQ63(id * sinVal) / 0x8000_0000);
    var product4 := ToQ31(ToQ63(iq * cosVal) / 0x8000_0000);
    pIalpha := QSub(product1, product2);
    pIbeta := QAdd(product4, product3);
  }

  lemma ProductFits63(x: Q31, y: Q31)
    ensures ToQ63(x * y) == x * y
  {
    ProductBound(x, 0x8000_0000, y, 0x8000_0000);
  }

  /** A sine and cosine in Q31 whose squares sum to one up to the rounding of both. */
  ghost predicate UnitVector(s: Q31, c: Q31)
  {
    -0x1_0000_0000 <= s * s + c * c - 0x4000_0000_0000_0000 <= 0x1_0000_0000
  }

  /** w is the word nearest to v; above the greatest word that is the greatest word. */
  ghost predicate Nearest(w: Q31, v: real)
  {
    || -0.5 <= w as real - v * 2147483648.0 <= 0.5
    || (w == 0x7FFF_FFFF && v * 2147483648.0 >= 2147483647.0)
  }

  /** Every angle, with sine and cosine rounded to the nearest word, gives such a vector. At the
      quarter turns one of them is -1, a word, or +1, which is not. */
  lemma RoundedAngleIsUnit(sine: real, cosine: real, s: Q31, c: Q31)
    requires sine * sine + cosine * cosine == 1.0
    requires Nearest(s, sine) && Nearest(c, cosine)
    ensures UnitVector(s, c)
  {
    var p := 2147483648.0;
    var x, y := sine * p, cosine * p;
    assert x * x + y * y == p * p by {
      assert x * x + y * y == (sine * sine + cosine * cosine) * (p * p);
    }
    if !(-0.5 <= s as real - x <= 0.5) {
      SmallSecond(x, y);
      ToppedIsUnit(x, y, c);
    } else if !(-0.5 <= c as real - y <= 0.5) {
      SmallSecond(y, x);
      ToppedIsUnit(y, x, s);
    } else {
      RoundedIsUnit(x, y, s, c);
    }
  }

  lemma RoundedIsUnit(x: real, y: real, s: Q31, c: Q31)
    requires x * x + y * y == 2147483648.0 * 2147483648.0
    requires -0.5 <= s as real - x <= 0.5 && -0.5 <= c as real - y <= 0.5
    ensures UnitVector(s, c)
  {
    var e, f := s as real - x, c as real - y;
    SquareNear(x, e);
    SquareNear(y, f);
    ManhattanBound(x, y, 2147483648.0);
    assert (s * s + c * c) as real == (x + e) * (x + e) + (y + f) * (y + f);
  }

  /** The first coordinate rounds to the greatest word from above it, up to a whole unit off; the
      second is then so small that the sum of the squares is still close enough. */
  lemma ToppedIsUnit(x: real, y: real, c: Q31)
    requires x * x + y * y == 2147483648.0 * 2147483648.0
    requires x >= 2147483647.0
    requires -0.5 <= c as real - y <= 0.5
    ensures -0x1_0000_0000 <= 0x7FFF_FFFF * 0x7FFF_FFFF + c * c - 0x4000_0000_0000_0000 <= 0x1_0000_0000
  {
    SmallSecond(x, y);
    ParabolaAbove(AbsReal(y));
    RoundedSquare(y, c);
    ToppedSum(c * c, y * y, AbsReal(y));
  }

  lemma SmallSecond(x: real, y: real)
    requires x * x + y * y == 2147483648.0 * 2147483648.0 && x >= 2147483647.0
    ensures 0.0 <= y * y <= 4294967295.0 && AbsReal(y) <= 65536.0
    ensures AbsReal(y) * AbsReal(y) == y * y
  {
    SquareAbove(x, 2147483647.0);
    SquareReal(y);
    SmallSide(y);
  }

  lemma ParabolaAbove(a: real)
    ensures a * a >= a - 0.25
  {
    SquareReal(a - 0.5);
    assert (a - 0.5) * (a - 0.5) == a * a - a + 0.25;
  }

  lemma RoundedSquare(y: real, c: Q31)
    requires -0.5 <= c as real - y <= 0.5
    ensures y * y - AbsReal(y) - 0.25 <= (c * c) as real <= y * y + AbsReal(y) + 0.25
  {
    SquareNear(y, c as real - y);
  }

  lemma SquareAbove(x: real, top: real)
    requires x >= top >= 0.0
    ensures x * x >= top * top
  {
    NonNegativeProduct(x - top, x + top);
    assert (x - top) * (x + top) == x * x - top * top;
  }

  lemma SmallSide(y: real)
    requires y * y <= 4294967295.0
    ensures AbsReal(y) <= 65536.0
  {
    assert AbsReal(y) * AbsReal(y) == y * y;
    if AbsReal(y) > 65536.0 {
      SquareAbove(AbsReal(y), 65536.0);
    }
  }

  lemma ToppedSum(cc: int, yy: real, size: real)
    requires yy - size - 0.25 <= cc as real <= yy + size + 0.25
    requires yy >= size - 0.25 && 0.0 <= yy <= 4294967295.0 && 0.0 <= size <= 65536.0
    ensures -0x1_0000_0000 <= 0x7FFF_FFFF * 0x7FFF_FFFF + cc - 0x4000_0000_0000_0000 <= 0x1_0000_0000
  {
    assert cc as real >= -0.5;
  }

  function AbsReal(x: real): real { if x < 0.0 then -x else x }

  lemma SquareNear(x: real, e: real)
    requires -0.5 <= e <= 0.5
    ensures -AbsReal(x) - 0.25 <= (x + e) * (x + e) - x * x <= AbsReal(x) + 0.25
  {
    Expand(x, e);
    SmallSquare(e);
    SignedHalfBound(x, e);
    NearBySums((x + e) * (x + e), x * x, x * e, e * e, AbsReal(x));
  }

  lemma NearBySums(moved: real, square: real, cross: real, small: real, size: real)
    requires moved == square + 2.0 * cross + small
    requires -0.5 * size <= cross <= 0.5 * size && 0.0 <= small <= 0.25
    ensures -size - 0.25 <= moved - square <= size + 0.25
  {
  }

  lemma SignedHalfBound(x: real, e: real)
    requires -0.5 <= e <= 0.5
    ensures -0.5 * AbsReal(x) <= x * e <= 0.5 * AbsReal(x)
  {
    if x < 0.0 {
      HalfBound(-x, e);
      assert -x * e == -(x * e);
    } else {
      HalfBound(x, e);
    }
  }

  lemma Expand(x: real, e: real)
    ensures (x + e) * (x + e) == x * x + 2.0 * (x * e) + e * e
  {
  }

  lemma SmallSquare(e: real)
    requires -0.5 <= e <= 0.5
    ensures 0.0 <= e * e <= 0.25
  {
    SquareReal(e);
    NonNegativeProduct(0.5 - e, 0.5 + e);
    assert (0.5 - e) * (0.5 + e) == 0.25 - e * e;
  }

  lemma NonNegativeProduct(a: real, b: real)
    requires a >= 0.0 && b >= 0.0
    ensures a * b >= 0.0
  {
  }

  lemma HalfBound(a: real, e: real)
    requires a >= 0.0 && -0.5 <= e <= 0.5
    ensures -0.5 * a <= a * e <= 0.5 * a
  {
    assert a * (0.5 - e) >= 0.0 && a * (0.5 + e) >= 0.0;
    assert a * (0.5 - e) == 0.5 * a - a * e && a * (0.5 + e) == 0.5 * a + a * e;
  }

  /** On a circle of radius p the two coordinates together stay below 1.5 p. */
  lemma ManhattanBound(x: real, y: real, p: real)
    requires p > 0.0 && x * x + y * y == p * p
    ensures AbsReal(x) + AbsReal(y) <= 1.5 * p
  {
    var a, b := AbsReal(x), AbsReal(y);
    assert a * a + b * b == p * p;
    SquareReal(a - b);
    assert (a - b) * (a - b) == a * a - 2.0 * (a * b) + b * b;
    assert (a + b) * (a + b) == a * a + 2.0 * (a * b) + b * b;
    RootBelow(a + b, p);
  }

  lemma SquareReal(d: real)
    ensures d * d >= 0.0
  {
  }

  lemma RootBelow(s: real, p: real)
    requires s >= 0.0 && p > 0.0 && s * s <= 2.0 * (p * p)
    ensures s <= 1.5 * p
  {
    var d := s - 1.5 * p;
    assert s * s == 2.25 * (p * p) + 3.0 * (p * d) + d * d;
    SquareReal(d);
    assert p * p > 0.0;
    assert d > 0.0 ==> p * d > 0.0;
  }

  /** The forward sums do not saturate. */
  ghost predicate ParkFits(a: Q31, b: Q31, s: Q31, c: Q31)
  {
    FitsQ31(a * c / 0x8000_0000 + b * s / 0x8000_0000) && FitsQ31(b * c / 0x8000_0000 - a * s / 0x8000_0000)
  }

  /** None of the eight products of a forward and a backward rotation is -1 times -1. Unless the
      sine or cosine is -1 this says nothing. */
  ghost predicate NoMinusOnes(a: Q31, b: Q31, s: Q31, c: Q31)
  {
    (s == -0x8000_0000 || c == -0x8000_0000) ==>
      && a != -0x8000_0000 && a * c / 0x8000_0000 + b * s / 0x8000_0000 != -0x8000_0000
      && b != -0x8000_0000 && b * c / 0x8000_0000 - a * s / 0x8000_0000 != -0x8000_0000
  }

  /** Half-scale inputs never saturate, at any angle, nor for any pair without a -1. */
  lemma ParkFitsHalfScale(a: Q31, b: Q31, s: Q31, c: Q31)
    requires -0x4000_0000 <= a <= 0x4000_0000 && -0x4000_0000 <= b <= 0x4000_0000
    requires UnitVector(s, c) || (s != -0x8000_0000 && c != -0x8000_0000)
    ensures ParkFits(a, b, s, c) && NoMinusOnes(a, b, s, c)
  {
    if s == -0x8000_0000 {
      SmallOther(c);
      QuarterTurn(a, b, c);
    } else if c == -0x8000_0000 {
      SmallOther(s);
      QuarterTurn(b, a, s);
    } else {
      ProductBound(a, 0x4000_0000, c, 0x7FFF_FFFF);
      ProductBound(b, 0x4000_0000, s, 0x7FFF_FFFF);
      ProductBound(b, 0x4000_0000, c, 0x7FFF_FFFF);
      ProductBound(a, 0x4000_0000, s, 0x7FFF_FFFF);
      HalfScaleSums(a * c, b * s, b * c, a * s);
    }
  }

  /** Next to a coordinate of -1 the other one is at most 2^16. */
  lemma SmallOther(w: int)
    requires w * w <= 0x1_0000_0000
    ensures -0x1_0000 <= w <= 0x1_0000
  {
    assert -w * -w == w * w;
    if w > 0x1_0000 {
      MulOrder(0x1_0001, w, w);
    } else if w < -0x1_0000 {
      MulOrder(0x1_0001, -w, -w);
    }
  }

  /** With one coordinate -1 an output is an input up to sign and a small product. */
  lemma QuarterTurn(a: int, b: int, w: int)
    requires -0x4000_0000 <= a <= 0x4000_0000 && -0x4000_0000 <= b <= 0x4000_0000 && -0x1_0000 <= w <= 0x1_0000
    ensures -0x4001_0000 <= a * w / 0x8000_0000 + b * -0x8000_0000 / 0x8000_0000 <= 0x4001_0000
    ensures -0x4001_0000 <= b * w / 0x8000_0000 - a * -0x8000_0000 / 0x8000_0000 <= 0x4001_0000
    ensures -0x4001_0000 <= a * -0x8000_0000 / 0x8000_0000 - b * w / 0x8000_0000 <= 0x4001_0000
  {
    ProductBound(a, 0x4000_0000, w, 0x1_0000);
    ProductBound(b, 0x4000_0000, w, 0x1_0000);
  }

  lemma HalfScaleSums(ac: int, bs: int, bc: int, sa: int)
    requires -0x1FFF_FFFF_C000_0000 <= ac <= 0x1FFF_FFFF_C000_0000
    requires -0x1FFF_FFFF_C000_0000 <= bs <= 0x1FFF_FFFF_C000_0000
    requires -0x1FFF_FFFF_C000_0000 <= bc <= 0x1FFF_FFFF_C000_0000
    requires -0x1FFF_FFFF_C000_0000 <= sa <= 0x1FFF_FFFF_C000_0000
    ensures FitsQ31(ac / 0x8000_0000 + bs / 0x8000_0000) && FitsQ31(bc / 0x8000_0000 - sa / 0x8000_0000)
  {
  }

  /** Rotating forward and back by any angle returns both coordinates, within five and six units. */
  lemma ParkRoundTrip(a: Q31, b: Q31, s: Q31, c: Q31)
    requires UnitVector(s, c) && ParkFits(a, b, s, c) && NoMinusOnes(a, b, s, c)
    ensures var v := Park(a, b, s, c);
            var w := InvPark(v.0, v.1, s, c);
            -5 <= w.0 - a <= 5 && -6 <= w.1 - b <= 6
  {
    ScaledExactIff(a, c);
    ScaledExactIff(b, s);
    ScaledExactIff(b, c);
    ScaledExactIff(a, s);
    var d, q := a * c / 0x8000_0000 + b * s / 0x8000_0000, b * c / 0x8000_0000 - a * s / 0x8000_0000;
    assert Park(a, b, s, c) == (d, q);
    ScaledExactIff(d, c);
    ScaledExactIff(q, s);
    ScaledExactIff(q, c);
    ScaledExactIff(d, s);
    var v, w := d * c / 0x8000_0000 - q * s / 0x8000_0000, q * c / 0x8000_0000 + d * s / 0x8000_0000;
    var e1, e2 := a * c + b * s - 0x8000_0000 * d, 0x8000_0000 * q - (b * c - a * s);
    ForwardErrors(a * c, b * s, b * c, a * s);
    BackErrors(d * c, q * s, q * c, d * s);
    AlphaBack(a, b, s, c, d, q, v, e1, e2);
    BetaBack(a, b, s, c, d, q, w, e1, e2);
    SatCloser(v, a, -5, 5);
    SatCloser(w, b, -6, 6);
  }

  lemma ForwardErrors(ac: int, bs: int, bc: int, sa: int)
    ensures 0 <= ac + bs - 0x8000_0000 * (ac / 0x8000_0000 + bs / 0x8000_0000) <= 0xFFFF_FFFE
    ensures -0x7FFF_FFFF <= 0x8000_0000 * (bc / 0x8000_0000 - sa / 0x8000_0000) - (bc - sa) <= 0x7FFF_FFFF
  {
  }

  lemma BackErrors(dc: int, qs: int, qc: int, ds: int)
    ensures -0x7FFF_FFFF <= 0x8000_0000 * (dc / 0x8000_0000 - qs / 0x8000_0000) - (dc - qs) <= 0x7FFF_FFFF
    ensures 0 <= qc + ds - 0x8000_0000 * (qc / 0x8000_0000 + ds / 0x8000_0000) <= 0xFFFF_FFFE
  {
    ForwardErrors(qc, ds, dc, qs);
  }

  lemma Distribute(x: int, y: int, z: int)
    ensures x * (y + z) == x * y + x * z
  {
  }

  /** A coordinate x scaled by 2^62 and disturbed by the length error and the two forward errors
      comes back, scaled down twice, within 4 units and the last rounding. */
  lemma Recovered(x: int, x': int, back: int, length: int, first: int, second: int, k: int)
    requires 0x8000_0000 * back == x * 0x4000_0000_0000_0000 + length + first + second
    requires -0x8000_0000_0000_0000 <= length <= 0x8000_0000_0000_0000
    requires -0xFFFF_FFFE * 0x8000_0000 <= first <= 0xFFFF_FFFE * 0x8000_0000
    requires -0x7FFF_FFFF * 0x8000_0000 <= second <= 0x7FFF_FFFF * 0x8000_0000
    requires 1 <= k <= 2 && -0x7FFF_FFFF * k <= 0x8000_0000 * x' - back <= 0x7FFF_FFFF * k
    ensures -4 - k <= x' - x <= 4 + k
  {
  }

  lemma AlphaBack(a: Q31, b: Q31, s: Q31, c: Q31, d: int, q: int, v: int, e1: int, e2: int)
    requires UnitVector(s, c)
    requires 0x8000_0000 * d == a * c + b * s - e1 && 0 <= e1 <= 0xFFFF_FFFE
    requires 0x8000_0000 * q == b * c - a * s + e2 && -0x7FFF_FFFF <= e2 <= 0x7FFF_FFFF
    requires -0x7FFF_FFFF <= 0x8000_0000 * v - (d * c - q * s) <= 0x7FFF_FFFF
    ensures -5 <= v - a <= 5
  {
    var norm, back := s * s + c * c - 0x4000_0000_0000_0000, d * c - q * s;
    RotateBack(a, b, s, c, d, q, e1, e2);
    Distribute(a, norm, 0x4000_0000_0000_0000);
    ProductBound(a, 0x8000_0000, norm, 0x1_0000_0000);
    ProductBound(e1, 0xFFFF_FFFE, c, 0x8000_0000);
    ProductBound(e2, 0x7FFF_FFFF, s, 0x8000_0000);
    Recovered(a, v, back, a * norm, -(e1 * c), -(e2 * s), 1);
  }

  lemma RotateBack(a: int, b: int, s: int, c: int, d: int, q: int, e1: int, e2: int)
    requires 0x8000_0000 * d == a * c + b * s - e1 && 0x8000_0000 * q == b * c - a * s + e2
    ensures 0x8000_0000 * (d * c - q * s) == a * (s * s + c * c) - e1 * c - e2 * s
    ensures 0x8000_0000 * (q * c + d * s) == b * (s * s + c * c) + e2 * c - e1 * s
  {
    assert 0x8000_0000 * (d * c) == (0x8000_0000 * d) * c;
    assert 0x8000_0000 * (q * s) == (0x8000_0000 * q) * s;
    assert 0x8000_0000 * (q * c) == (0x8000_0000 * q) * c;
    assert 0x8000_0000 * (d * s) == (0x8000_0000 * d) * s;
    assert (a * c + b * s - e1) * c == a * (c * c) + b * s * c - e1 * c;
    assert (b * c - a * s + e2) * s == b * s * c - a * (s * s) + e2 * s;
    assert (b * c - a * s + e2) * c == b * (c * c) - a * s * c + e2 * c;
    assert (a * c + b * s - e1) * s == a * s * c + b * (s * s) - e1 * s;
  }

  lemma BetaBack(a: Q31, b: Q31, s: Q31, c: Q31, d: int, q: int, w: int, e1: int, e2: int)
    requires UnitVector(s, c)
    requires 0x8000_0000 * d == a * c + b * s - e1 && 0 <= e1 <= 0xFFFF_FFFE
    requires 0x8000_0000 * q == b * c - a * s + e2 && -0x7FFF_FFFF <= e2 <= 0x7FFF_FFFF
    requires 0 <= q * c + d * s - 0x8000_0000 * w <= 0xFFFF_FFFE
    ensures -6 <= w - b <= 6
  {
    var norm, back := s * s + c * c - 0x4000_0000_0000_0000, q * c + d * s;
    RotateBack(a, b, s, c, d, q, e1, e2);
    Distribute(b, norm, 0x4000_0000_0000_0000);
    ProductBound(b, 0x8000_0000, norm, 0x1_0000_0000);
    ProductBound(e2, 0x7FFF_FFFF, c, 0x8000_0000);
    ProductBound(e1, 0xFFFF_FFFE, s, 0x8000_0000);
    Recovered(b, w, back, b * norm, -(e1 * s), e2 * c, 2);
  }
}
