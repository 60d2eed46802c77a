/**
  Table interpolation on coordinates in 12.20 format: linear in Q31, Q15 and Q7, bilinear in
  Q15 and Q7.

  Every result is characterised twice: it stays in the hull of the table entries around the
  coordinate, up to the rounding stated, and it is close to the exact weighted mean. The second
  clause says which entry gets which weight.
*/
module Interpolate {
  import opened MachineInt
  import opened Bits
  import opened Saturate

  const ONE20: int := 0x10_0000

  /** The 12 index bits and the 20 fraction bits of a coordinate's word. */
  function Index(x: Q31): nat { ToU32(x) / 0x10_0000 }

  function Fraction(x: Q31): nat { ToU32(x) % 0x10_0000 }

  /** The masks of the source extract exactly these. The index mask is unsigned, so the index is
      never negative and the guard against that never fires. */
  lemma CoordinateMasks(x: Q31)
    ensures And(ToU32(x), 0xFFF0_0000) / 0x10_0000 == Index(x) < 0x1000
    ensures And(ToU32(x), 0xF_FFFF) == Fraction(x) < 0x10_0000
  {
    IndexMask(ToU32(x));
    FractionMask(ToU32(x));
  }

  lemma IndexMask(u: U32)
    ensures And(u, 0xFFF0_0000) / 0x10_0000 == u / 0x10_0000
  {
    var mask: nat := 0xFFF0_0000;
    Pow2Values();
    AndMask(u, 20, 12, mask);
    PlacedIndex(u, And(u, mask));
  }

  /** A negative coordinate therefore selects an index in the upper half. */
  lemma NegativeCoordinateIsHigh(x: Q31)
    ensures x < 0 <==> Index(x) >= 0x800
  {
  }

  lemma PlacedIndex(u: U32, field: nat)
    requires field == u / 0x10_0000 % 0x1000 * 0x10_0000
    ensures field / 0x10_0000 == u / 0x10_0000
  {
  }

  lemma FractionMask(u: U32)
    ensures And(u, 0xF_FFFF) == u % 0x10_0000
  {
    var mask: nat := 0xF_FFFF;
    Pow2Values();
    AndMask(u, 0, 20, mask);
  }

  // ----- linear

  /** The exact mean in units of 2^-20: the left entry has the complement of the fraction. */
  function Mean2(y0: int, y1: int, f: int): int { y0 * (ONE20 - f) + y1 * f }

  /** r is in the hull of the two entries up to `below`, and within (-low, high] of their mean. */
  ghost predicate Between2(r: int, y0: int, y1: int, f: int, below: int, low: int, high: int)
  {
    && Min(y0, y1) - below <= r <= Max(y0, y1)
    && -low < r * ONE20 - Mean2(y0, y1, f) <= high
  }

  /** r is the floor of the mean less 2^-20 of the left entry, the weight the code leaves out. */
  ghost predicate FloorsMean(r: int, y0: int, y1: int, f: int)
  {
    -ONE20 < r * ONE20 - (Mean2(y0, y1, f) - y0) <= 0
  }

  /** `arm_linear_interp_q31`. The right entry is read only below the last index; the branch for a
      negative index is unreachable and has no counterpart here. */
  method LinearInterpQ31(pYData: array<Q31>, x: Q31, nValues: U32) returns (r: Q31)
    requires 1 <= nValues <= 0x8000_0000 && nValues <= pYData.Length
    ensures Index(x) >= nValues - 1 ==> r == pYData[nValues - 1]
    ensures Index(x) < nValues - 1 ==>
              Between2(r, pYData[Index(x)], pYData[Index(x) + 1], Fraction(x), 4, 5 * ONE20, ONE20)
    ensures var i, f := ToU32(x) / 0x10_0000, ToU32(x) % 0x10_0000;
            i < nValues - 1 ==>
              var left, right := pYData[i] * (0x7FFF_FFFF - 0x800 * f), pYData[i + 1] * (0x800 * f);
              r * 0x8000_0000 == left - left % 0x1_0000_0000 + (right - right % 0x1_0000_0000)
    ensures r == ValueQ31(pYData[..nValues], x)
  {
    CoordinateMasks(x);
    var index: Q31 := And(ToU32(x), 0xFFF0_0000) / 0x10_0000;
    if index >= nValues - 1 {
      r := pYData[nValues - 1];
    } else {
      var fract: Q31 := And(ToU32(x), 0xF_FFFF) * 0x800;
      r := LinearValueQ31(pYData[index], pYData[index + 1], fract, Fraction(x));
    }
  }

  /** The value between two entries, for a fraction already moved to 1.31 format. */
  method LinearValueQ31(y0: Q31, y1: Q31, fract: Q31, ghost f: int) returns (r: Q31)
    requires 0 <= f < ONE20 && fract == f * 0x800
    ensures Between2(r, y0, y1, f, 4, 5 * ONE20, ONE20)
    ensures var left, right := y0 * (0x7FFF_FFFF - 0x800 * f), y1 * (0x800 * f);
            r * 0x8000_0000 == left - left % 0x1_0000_0000 + (right - right % 0x1_0000_0000)
    ensures r == BlendQ31(y0, y1, f)
  {
    var left: int := y0 * (0x7FFF_FFFF - fract);
    var right: int := y1 * fract;
    LinearQ31(y0, y1, f, left, right);
    var y := ToQ31(ToQ63(left) / 0x1_0000_0000);
    y := ToQ31(y + ToQ31(ToQ63(right) / 0x1_0000_0000));
    r := ToQ31(y * 2);
  }

  /** No conversion in the Q31 value changes anything, not even the final doubling when both
      entries are the most negative word. */
  lemma LinearQ31(y0: Q31, y1: Q31, f: int, left: int, right: int)
    requires 0 <= f < ONE20 && left == y0 * (0x7FFF_FFFF - f * 0x800) && right == y1 * (f * 0x800)
    ensures var r := 2 * (left / 0x1_0000_0000 + right / 0x1_0000_0000);
            && Between2(r, y0, y1, f, 4, 5 * ONE20, ONE20)
            && r == ToQ31(ToQ31(ToQ31(ToQ63(left) / 0x1_0000_0000) + ToQ31(ToQ63(right) / 0x1_0000_0000)) * 2)
  {
    var lo, hi := Min(y0, y1), Max(y0, y1);
    Convex2(y0, y1, 0x7FFF_FFFF - f * 0x800, f * 0x800, lo, hi);
    ProductBound(y0, 0x8000_0000, 0x7FFF_FFFF - f * 0x800, 0x7FFF_FFFF - f * 0x800);
    ProductBound(y1, 0x8000_0000, f * 0x800, f * 0x800);
    MeanOfProducts(y0, y1, f);
    HalvedProducts(left, right, f);
    DoubledSum(left, right, lo, hi, y0, Mean2(y0, y1, f));
  }

  lemma MeanOfProducts(y0: int, y1: int, f: int)
    ensures 0x800 * Mean2(y0, y1, f) == y0 * (0x7FFF_FFFF - f * 0x800) + y1 * (f * 0x800) + y0
  {
    assert y0 * (0x7FFF_FFFF - f * 0x800) == y0 * 0x7FFF_FFFF - 0x800 * (y0 * f);
    assert y0 * (ONE20 - f) == y0 * ONE20 - y0 * f;
    assert y1 * (f * 0x800) == 0x800 * (y1 * f);
  }

  lemma Convex2(v0: int, v1: int, w0: int, w1: int, lo: int, hi: int)
    requires w0 >= 0 && w1 >= 0 && lo <= v0 <= hi && lo <= v1 <= hi
    ensures lo * (w0 + w1) <= v0 * w0 + v1 * w1 <= hi * (w0 + w1)
  {
    MulOrder(lo, v0, w0);
    MulOrder(v0, hi, w0);
    MulOrder(lo, v1, w1);
    MulOrder(v1, hi, w1);
    assert lo * (w0 + w1) == lo * w0 + lo * w1;
    assert hi * (w0 + w1) == hi * w0 + hi * w1;
  }

  /** The shifted halves cannot sum below -2^30: the right weight is even, so only the left
      product loses a half. */
  lemma HalvedProducts(left: int, right: int, f: int)
    requires 0 <= f < ONE20
    requires -0x8000_0000 * (0x7FFF_FFFF - f * 0x800) <= left <= 0x8000_0000 * (0x7FFF_FFFF - f * 0x800)
    requires -0x8000_0000 * (f * 0x800) <= right <= 0x8000_0000 * (f * 0x800)
    ensures -(0x4000_0000 - f * 0x400) <= left / 0x1_0000_0000 <= 0x4000_0000 - f * 0x400
    ensures -(f * 0x400) <= right / 0x1_0000_0000 <= f * 0x400
    ensures ToQ63(left) == left && ToQ63(right) == right
  {
  }

  lemma DoubledSum(left: int, right: int, lo: Q31, hi: Q31, y0: Q31, mean: int)
    requires lo * 0x7FFF_FFFF <= left + right <= hi * 0x7FFF_FFFF
    requires 0x800 * mean == left + right + y0
    requires ToQ63(left) == left && ToQ63(right) == right
    requires -0x4000_0000 <= left / 0x1_0000_0000 <= 0x4000_0000 && -0x4000_0000 <= right / 0x1_0000_0000 <= 0x4000_0000
    requires -0x4000_0000 <= left / 0x1_0000_0000 + right / 0x1_0000_0000
    ensures var r := 2 * (left / 0x1_0000_0000 + right / 0x1_0000_0000);
            && lo - 4 <= r <= hi
            && -5 * ONE20 < r * ONE20 - mean <= ONE20
            && r == ToQ31(ToQ31(ToQ31(ToQ63(left) / 0x1_0000_0000) + ToQ31(ToQ63(right) / 0x1_0000_0000)) * 2)
  {
    var a, b := left / 0x1_0000_0000, right / 0x1_0000_0000;
    assert lo - 4 <= 2 * (a + b) <= hi;
    assert a + b < 0x4000_0000;
    ToQ31Is(a, a, 0);
    ToQ31Is(b, b, 0);
    ToQ31Is(a + b, a + b, 0);
    ToQ31Is(2 * (a + b), 2 * (a + b), 0);
  }

  /** The Q15 value between two entries, and the interpolant of a whole table. */
  function Blend(y0: int, y1: int, f: int): int
  {
    (y0 * (0xF_FFFF - f) + y1 * f) / 0x10_0000
  }

  function ValueQ15(table: seq<Q15>, x: Q31): int
    requires |table| >= 1
  {
    var i := Index(x);
    if i >= |table| - 1 then table[|table| - 1] else Blend(table[i], table[i + 1], Fraction(x))
  }

  ghost predicate Ascending(table: seq<Q15>)
  {
    forall i, j :: 0 <= i <= j < |table| ==> table[i] <= table[j]
  }

  /** The interpolant of an ascending table ascends over the whole coordinate range, across cell
      borders and into the flat end: the last value of a cell is the first of the next. */
  lemma InterpolantAscends(table: seq<Q15>, x: Q31, x': Q31)
    requires |table| >= 1 && Ascending(table) && ToU32(x) <= ToU32(x')
    ensures ValueQ15(table, x) <= ValueQ15(table, x')
  {
    var i, i', last := Index(x), Index(x'), |table| - 1;
    IndexOrder(x, x');
    if i < last {
      BlendRises(table[i], table[i + 1], Fraction(x), 0xF_FFFF);
      if i' >= last {
        Node(table[i + 1]);
      } else if i < i' {
        BlendRises(table[i'], table[i' + 1], 0, Fraction(x'));
        NodesRise(table[i + 1], table[i']);
      } else {
        BlendRises(table[i], table[i + 1], Fraction(x), Fraction(x'));
      }
    }
  }

  /** The documentation promises the first entry below the range. The code reads the coordinate
      as unsigned: for every table a negative one returns the last entry when its index reaches
      that far, and otherwise the interpolant of a cell in the upper half of the index range. */
  lemma BelowRangeLaw(table: seq<Q15>, x: Q31)
    requires |table| >= 1 && x < 0
    ensures Index(x) >= 0x800
    ensures |table| <= 0x801 ==> ValueQ15(table, x) == table[|table| - 1]
    ensures Index(x) >= |table| - 1 ==> ValueQ15(table, x) == table[|table| - 1]
    ensures Index(x) < |table| - 1 ==>
              && Between2(ValueQ15(table, x), table[Index(x)], table[Index(x) + 1],
                          Fraction(x), 1, ONE20 + 0x8000, 0x8000)
              && FloorsMean(ValueQ15(table, x), table[Index(x)], table[Index(x) + 1], Fraction(x))
  {
    NegativeCoordinateIsHigh(x);
    if Index(x) < |table| - 1 {
      var y0, y1, f := table[Index(x)], table[Index(x) + 1], Fraction(x);
      LinearNarrow(y0, y1, f, y0 * (0xF_FFFF - f), y1 * f, 0x8000);
    }
  }

  /** What an entry contributes where it has all the weight there is. */
  function AtNode(y: int): int { if y > 0 then y - 1 else y }

  /** The entries the cells of negative coordinates touch. */
  predicate Touched(table: seq<int>, i: nat) { |table| >= 0x802 && 0x800 <= i <= 0x1000 && i < |table| }

  /** The promise is kept at every negative coordinate exactly when the entries from number 2048
      on all come out as the first one, and so does the last, unweighted, if it is in reach. */
  lemma BelowRangeReturnsFirstIff(table: seq<Q15>)
    requires |table| >= 1
    ensures (forall x: Q31 :: x < 0 ==> ValueQ15(table, x) == table[0])
            <==> (forall i: nat :: Touched(table, i) ==> AtNode(table[i]) == table[0])
                 && (|table| <= 0x1000 ==> table[|table| - 1] == table[0])
  {
    if forall x: Q31 :: x < 0 ==> ValueQ15(table, x) == table[0] {
      forall i: nat | Touched(table, i)
        ensures AtNode(table[i]) == table[0]
      {
        NodeIsReached(table, i);
      }
      LastIsReached(table);
    } else {
      var x: Q31 :| x < 0 && ValueQ15(table, x) != table[0];
      NodesDecide(table, x);
    }
  }

  /** Such a table need not return its first or its last entry. */
  lemma BelowRangeCanReturnNeither(table: seq<Q15>)
    requires |table| == 2050 && table[0] == table[2049] == 7 && table[2048] == 100
    ensures ValueQ15(table, -0x8000_0000) == 99
  {
    NodeValue(100);
    BlendEnds(100, 7);
  }

  /** A coordinate with index i and fraction f in the upper half of the range is negative. */
  lemma NegativeCoordinate(i: nat, f: nat) returns (x: Q31)
    requires 0x800 <= i < 0x1000 && f < ONE20
    ensures x < 0 && Index(x) == i && Fraction(x) == f
  {
    x := i * 0x10_0000 + f - 0x1_0000_0000;
  }

  lemma NodeIsReached(table: seq<Q15>, i: nat)
    requires Touched(table, i)
    requires forall x: Q31 :: x < 0 ==> ValueQ15(table, x) == table[0]
    ensures AtNode(table[i]) == table[0]
  {
    NodeValue(table[i]);
    if i == 0x800 {
      var x := NegativeCoordinate(i, 0);
      assert ValueQ15(table, x) == table[0];
      BlendEnds(table[i], table[i + 1]);
    } else {
      var x := NegativeCoordinate(i - 1, 0xF_FFFF);
      assert ValueQ15(table, x) == table[0];
      BlendEnds(table[i - 1], table[i]);
    }
  }

  lemma LastIsReached(table: seq<Q15>)
    requires |table| >= 1
    requires forall x: Q31 :: x < 0 ==> ValueQ15(table, x) == table[0]
    ensures |table| <= 0x1000 ==> table[|table| - 1] == table[0]
  {
    var x := NegativeCoordinate(0xFFF, 0);
    assert ValueQ15(table, x) == table[0];
  }

  lemma NodesDecide(table: seq<Q15>, x: Q31)
    requires |table| >= 1 && x < 0 && ValueQ15(table, x) != table[0]
    ensures (exists i: nat :: Touched(table, i) && AtNode(table[i]) != table[0])
            || (|table| <= 0x1000 && table[|table| - 1] != table[0])
  {
    NegativeCoordinateIsHigh(x);
    var i := Index(x);
    if i < |table| - 1 {
      assert Touched(table, i) && Touched(table, i + 1);
      NodeValue(table[i]);
      NodeValue(table[i + 1]);
      BlendInside(table[i], table[i + 1], Fraction(x));
    }
  }

  lemma NodeValue(y: Q15)
    ensures y * 0xF_FFFF / 0x10_0000 == AtNode(y)
  {
  }

  lemma BlendEnds(y0: int, y1: int)
    ensures Blend(y0, y1, 0) == y0 * 0xF_FFFF / 0x10_0000 && Blend(y0, y1, 0xF_FFFF) == y1 * 0xF_FFFF / 0x10_0000
  {
  }

  /** Between its ends the value of a cell stays between the values at its ends. */
  lemma BlendInside(y0: int, y1: int, f: int)
    requires 0 <= f <= 0xF_FFFF
    ensures var a, b := y0 * 0xF_FFFF / 0x10_0000, y1 * 0xF_FFFF / 0x10_0000;
            Min(a, b) <= Blend(y0, y1, f) <= Max(a, b)
  {
    Convex2(y0, y1, 0xF_FFFF - f, f, Min(y0, y1), Max(y0, y1));
  }

  // ----- negative coordinates in Q31

  /** The Q31 value between two entries, and the interpolant of a whole table. */
  function BlendQ31(y0: int, y1: int, f: int): int
  {
    2 * (y0 * (0x7FFF_FFFF - f * 0x800) / 0x1_0000_0000 + y1 * (f * 0x800) / 0x1_0000_0000)
  }

  function ValueQ31(table: seq<Q31>, x: Q31): int
    requires |table| >= 1
  {
    var i := Index(x);
    if i >= |table| - 1 then table[|table| - 1] else BlendQ31(table[i], table[i + 1], Fraction(x))
  }

  /** The Q31 interpolator has the same dead test and follows the same law. */
  lemma BelowRangeLawQ31(table: seq<Q31>, x: Q31)
    requires |table| >= 1 && x < 0
    ensures Index(x) >= 0x800
    ensures |table| <= 0x801 ==> ValueQ31(table, x) == table[|table| - 1]
    ensures Index(x) >= |table| - 1 ==> ValueQ31(table, x) == table[|table| - 1]
    ensures Index(x) < |table| - 1 ==>
              Between2(ValueQ31(table, x), table[Index(x)], table[Index(x) + 1], Fraction(x), 4, 5 * ONE20, ONE20)
  {
    NegativeCoordinateIsHigh(x);
    if Index(x) < |table| - 1 {
      var y0, y1, f := table[Index(x)], table[Index(x) + 1], Fraction(x);
      LinearQ31(y0, y1, f, y0 * (0x7FFF_FFFF - f * 0x800), y1 * (f * 0x800));
    }
  }

  /** What an entry contributes at fraction zero: the even number below it if it is positive. */
  function AtNodeQ31(y: int): int { if y > 0 then (y - 1) / 2 * 2 else y / 2 * 2 }

  /** At the grid, fraction zero, the promise is kept exactly when the entries from number 2048 on
      come out as the first one, and so does the last if it is in reach. */
  lemma BelowRangeGridIffQ31(table: seq<Q31>)
    requires |table| >= 1
    ensures (forall x: Q31 :: x < 0 && Fraction(x) == 0 ==> ValueQ31(table, x) == table[0])
            <==> (forall i: nat :: 0x800 <= i < 0x1000 && i < |table| - 1 ==> AtNodeQ31(table[i]) == table[0])
                 && (|table| <= 0x1000 ==> table[|table| - 1] == table[0])
  {
    if forall x: Q31 :: x < 0 && Fraction(x) == 0 ==> ValueQ31(table, x) == table[0] {
      forall i: nat | 0x800 <= i < 0x1000 && i < |table| - 1
        ensures AtNodeQ31(table[i]) == table[0]
      {
        var x := NegativeCoordinate(i, 0);
        NodeValueQ31(table[i], table[i + 1]);
      }
      var x := NegativeCoordinate(0xFFF, 0);
      assert ValueQ31(table, x) == table[0];
    } else {
      var x: Q31 :| x < 0 && Fraction(x) == 0 && ValueQ31(table, x) != table[0];
      NegativeCoordinateIsHigh(x);
      if Index(x) < |table| - 1 {
        NodeValueQ31(table[Index(x)], table[Index(x) + 1]);
      }
    }
  }

  /** The entries a cell may hold when every negative coordinate returns c: the two products of the
      value are rounded apart, which leaves room for one unit, and for two at zero. */
  predicate Tolerated(y: int, c: int) { c <= y <= c + if c == 0 then 2 else 1 }

  /** For every table the source supports, the promise is kept at every negative coordinate exactly
      when the last entry equals the first and, if a cell is in reach at all, the first entry is
      not positive, is a multiple of 2^21, and the entries from number 2048 on differ from it by
      what is tolerated. */
  lemma BelowRangeReturnsFirstIffQ31(table: seq<Q31>)
    requires 1 <= |table| <= 0x1000
    ensures (forall x: Q31 :: x < 0 ==> ValueQ31(table, x) == table[0]) <==>
            && table[|table| - 1] == table[0]
            && (|table| >= 0x802 ==> table[0] <= 0 && table[0] % 0x20_0000 == 0)
            && (forall i :: 0x800 <= i < |table| - 1 ==> Tolerated(table[i], table[0]))
  {
    if forall x: Q31 :: x < 0 ==> ValueQ31(table, x) == table[0] {
      LastIsReachedQ31(table);
      if |table| >= 0x802 {
        LastCellDecides(table);
        EntriesTolerated(table);
      }
    } else {
      var x: Q31 :| x < 0 && ValueQ31(table, x) != table[0];
      if table[|table| - 1] == table[0] && (|table| >= 0x802 ==> table[0] <= 0 && table[0] % 0x20_0000 == 0) {
        MissIsVisible(table, x);
      }
    }
  }

  lemma MissIsVisible(table: seq<Q31>, x: Q31)
    requires 1 <= |table| <= 0x1000 && x < 0 && ValueQ31(table, x) != table[0]
    requires table[|table| - 1] == table[0]
    requires |table| >= 0x802 ==> table[0] <= 0 && table[0] % 0x20_0000 == 0
    ensures exists i :: 0x800 <= i < |table| - 1 && !Tolerated(table[i], table[0])
  {
    NegativeCoordinateIsHigh(x);
    var i, c: int := Index(x), table[0];
    assert i < |table| - 1;
    if Tolerated(table[i], c) {
      if Tolerated(table[i + 1], c) {
        var k := NegativeMultiple(c);
        ToleratedCell(c, k, table[i] - c, table[i + 1] - c, Fraction(x));
      } else {
        assert i + 1 < |table| - 1;
      }
    }
  }

  lemma NegativeMultiple(c: int) returns (k: int)
    requires -0x8000_0000 <= c <= 0 && c % 0x20_0000 == 0
    ensures c == -k * 0x20_0000 && 0 <= k <= 0x400
  {
    k := c / -0x20_0000;
  }

  lemma LastIsReachedQ31(table: seq<Q31>)
    requires 1 <= |table| <= 0x1000
    requires forall x: Q31 :: x < 0 ==> ValueQ31(table, x) == table[0]
    ensures table[|table| - 1] == table[0]
  {
    var x := NegativeCoordinate(0xFFF, 0);
    assert ValueQ31(table, x) == table[0];
  }

  lemma EntriesTolerated(table: seq<Q31>)
    requires 0x802 <= |table| <= 0x1000 && table[0] <= 0
    requires forall x: Q31 :: x < 0 ==> ValueQ31(table, x) == table[0]
    ensures forall i :: 0x800 <= i < |table| - 1 ==> Tolerated(table[i], table[0])
  {
    BelowRangeGridIffQ31(table);
  }

  /** The last cell runs from an entry that comes out as c to c itself, and has a fraction at which
      it does not return c unless c is not positive and a multiple of 2^21. */
  lemma LastCellDecides(table: seq<Q31>)
    requires 0x802 <= |table| <= 0x1000 && table[|table| - 1] == table[0]
    requires forall x: Q31 :: x < 0 ==> ValueQ31(table, x) == table[0]
    ensures table[0] <= 0 && table[0] % 0x20_0000 == 0
  {
    BelowRangeGridIffQ31(table);
    assert AtNodeQ31(table[|table| - 2]) == table[0];
    if table[0] > 0 || table[0] % 0x20_0000 != 0 {
      var x := LastCellMisses(table);
    }
  }

  lemma LastCellMisses(table: seq<Q31>) returns (x: Q31)
    requires 0x802 <= |table| <= 0x1000 && table[|table| - 1] == table[0]
    requires AtNodeQ31(table[|table| - 2]) == table[0] && (table[0] > 0 || table[0] % 0x20_0000 != 0)
    ensures x < 0 && ValueQ31(table, x) != table[0]
  {
    var f := AnchoredCellFails(table[|table| - 2], table[0]);
    x := NegativeCoordinate(|table| - 2, f);
  }

  lemma AnchoredCellFails(y: Q31, c: Q31) returns (f: nat)
    requires AtNodeQ31(y) == c && (c > 0 || c % 0x20_0000 != 0)
    ensures f < ONE20 && BlendQ31(y, c, f) != c
  {
    if c > 0 {
      f := 0xF_FFFF;
      PositiveFails(y, c);
    } else if y == c {
      f := FlatCellFails(c);
    } else {
      f := StepDownFails(c);
    }
  }

  /** At the last fraction the right product of a positive c has lost a unit, and the left one is
      too small to make up for it. */
  lemma PositiveFails(y: Q31, c: Q31)
    requires c > 0 && c % 2 == 0 && c + 1 <= y <= c + 2
    ensures BlendQ31(y, c, 0xF_FFFF) < c
  {
    var p, q := y * 0x7FF / 0x1_0000_0000, c * 0x7FFF_F800 / 0x1_0000_0000;
    assert c == 2 * (c / 2);
    assert p + q < c / 2;
  }

  /** From c + 1 down to c, the value falls short where c * f is just below a multiple of 2^21. */
  lemma StepDownFails(c: Q31) returns (f: nat)
    requires c < 0 && c % 2 == 0 && c % 0x20_0000 != 0
    ensures f < ONE20 && BlendQ31(c + 1, c, f) != c
  {
    var t: nat, p: nat, b: nat, q: int;
    f, t, p, b, q := TopResidue21(c);
    ResidueFar(c, f, t, p, b, q);
    ShortOfTurn(c, c / 2, f, p, q);
  }

  lemma TopResidue21(c: Q31) returns (f: nat, t: nat, p: nat, b: nat, q: int)
    requires c % 2 == 0 && c % 0x20_0000 != 0
    ensures 1 <= t <= 20 && p == Pow2(t) && b == Pow2(21 - t) && c % p == 0
    ensures f < ONE20 <= f + b && c * f + p == q * 0x20_0000
    ensures c >= p - 0x8000_0000
  {
    TwentyBits();
    f, t, q := TopResidue(c, 20);
    p, b := Pow2(t), Pow2(21 - t);
    LeastMultiple(c, t);
  }

  /** The residue 2^21 - 2^t leaves less than the left product needs. */
  lemma ResidueFar(c: int, f: nat, t: nat, p: nat, b: nat, q: int)
    requires 1 <= t <= 20 && p == Pow2(t) && b == Pow2(21 - t)
    requires f < ONE20 <= f + b && c * f + p == q * 0x20_0000
    requires p - 0x8000_0000 <= c && c % 0x20_0000 != 0
    ensures 0 < p <= ONE20 && 0x800 * p - c - 1 - 0x800 * f < 0x8000_0000
  {
    TwentyBits();
    if t == 1 {
      assert p == 2 && b == ONE20;
      FactorOne(c, f, q);
    } else if t == 20 {
      assert p == ONE20 && b == 2;
    } else {
      Pow2Monotone(21 - t, 19);
      Pow2Monotone(t, 19);
    }
  }

  lemma FactorOne(c: int, f: nat, q: int)
    requires c * f + 2 == q * 0x20_0000 && 2 - 0x8000_0000 <= c
    ensures f >= 1 && (f == 1 ==> c >= 0x1F_FFFE - 0x8000_0000)
  {
    if f == 0 {
      assert false;
    }
  }

  /** A multiple of 2^t above -2^31 is at least 2^t above it. */
  lemma LeastMultiple(c: Q31, t: nat)
    requires 1 <= t <= 20 && c % Pow2(t) == 0 && c != -0x8000_0000
    ensures c >= Pow2(t) - 0x8000_0000
  {
    Pow2Add(31 - t, t);
    Pow2Values();
    LeastAbove(c, Pow2(t), Pow2(31 - t));
  }

  lemma LeastAbove(c: int, p: int, k: int)
    requires p > 0 && k * p == 0x8000_0000 && c % p == 0 && c > -0x8000_0000
    ensures c >= p - 0x8000_0000
  {
    Recompose(c, p);
    var m := c / p;
    assert (1 - k) * p == p - k * p && -k * p == -(k * p);
    if m <= -k {
      MulOrder(m, -k, p);
    } else {
      MulOrder(1 - k, m, p);
    }
  }

  lemma ShortOfTurn(c: Q31, m: int, f: int, p: int, q: int)
    requires c == 2 * m && 0 <= f < ONE20 && 0 < p <= ONE20 && c * f + p == q * 0x20_0000
    requires 0x800 * p - c - 1 - 0x800 * f < 0x8000_0000
    ensures BlendQ31(c + 1, c, f) < c
  {
    var left, right := (c + 1) * (0x7FFF_FFFF - f * 0x800), c * (f * 0x800);
    assert right == 0x800 * (c * f) == q * 0x1_0000_0000 - 0x800 * p;
    assert left == (m - q) * 0x1_0000_0000 + 0x8000_0000 - c - 1 - 0x800 * f + 0x800 * p by {
      assert (c + 1) * (0x7FFF_FFFF - f * 0x800) == c * 0x7FFF_FFFF + 0x7FFF_FFFF - f * 0x800 - c * (f * 0x800);
    }
    QuotientsShort(left, right, m, q, 0x8000_0000 - c - 1 - 0x800 * f + 0x800 * p, 0x800 * p);
  }

  lemma QuotientsShort(left: int, right: int, m: int, q: int, r: int, s: int)
    requires left == (m - q) * 0x1_0000_0000 + r && r < 0x1_0000_0000
    requires right == q * 0x1_0000_0000 - s && s > 0
    ensures left / 0x1_0000_0000 + right / 0x1_0000_0000 < m
  {
  }

  /** An even number that 2^(k+1) does not divide, and whose greatest power of two is 2^t, has a
      multiple just 2^t short of one of 2^(k+1), with a factor in the topmost block that holds
      one of each residue. */
  lemma {:induction false} TopResidue(c: int, k: nat) returns (f: nat, t: nat, q: int)
    requires c % 2 == 0 && c % Pow2(k + 1) != 0
    ensures 1 <= t <= k && c % Pow2(t) == 0
    ensures f < Pow2(k) <= f + Pow2(k + 1 - t)
    ensures c * f + Pow2(t) == q * Pow2(k + 1)
    decreases k
  {
    var h := c / 2;
    assert k > 0;
    if h % 2 == 1 {
      f, q := NegativeInverse(h, k);
      t := 1;
      assert (2 * h) * f == 2 * (h * f);
      assert q * (2 * Pow2(k)) == 2 * (q * Pow2(k));
    } else {
      HalfIndivisible(h, Pow2(k));
      var f', t', q' := TopResidue(h, k - 1);
      f, t, q := f' + Pow2(k - 1), t' + 1, q' + h / 2;
      DoubledMultiple(h, Pow2(t'));
      ResidueDoubles(h, h / 2, f', Pow2(t'), q', Pow2(k - 1));
    }
  }

  lemma ResidueDoubles(h: int, g: int, f: int, p: int, q: int, u: int)
    requires h == 2 * g && h * f + p == q * (2 * u)
    ensures (2 * h) * (f + u) + 2 * p == (q + g) * (4 * u)
  {
    assert (2 * h) * (f + u) == 2 * (h * f) + 4 * (g * u);
    assert (q + g) * (4 * u) == 4 * (q * u) + 4 * (g * u);
    assert q * (2 * u) == 2 * (q * u);
  }

  lemma DoubledMultiple(h: int, p: int)
    requires p > 0 && h % p == 0
    ensures (2 * h) % (2 * p) == 0
  {
    Recompose(h, p);
    assert h / p * (2 * p) == 2 * (h / p * p);
    DivModUnique(2 * h, 2 * p, h / p, 0);
  }

  /** An odd number has a factor below 2^k that takes it to -1 modulo 2^k. */
  lemma {:induction false} NegativeInverse(c: int, k: nat) returns (f: nat, q: int)
    requires c % 2 == 1
    ensures f < Pow2(k) && c * f + 1 == q * Pow2(k)
  {
    if k == 0 {
      f, q := 0, 1;
    } else {
      f, q := NegativeInverse(c, k - 1);
      f, q := InverseStep(c, f, q, Pow2(k - 1));
    }
  }

  lemma InverseStep(c: int, f: nat, q: int, p: int) returns (f': nat, q': int)
    requires c % 2 == 1 && f < p && c * f + 1 == q * p
    ensures f' < 2 * p && c * f' + 1 == q' * (2 * p)
  {
    if q % 2 == 1 {
      NextTurn(c, f, q, p);
      HalfTurns(q + c, p);
      f', q' := f + p, (q + c) / 2;
    } else {
      HalfTurns(q, p);
      f', q' := f, q / 2;
    }
  }

  lemma NextTurn(c: int, f: int, q: int, p: int)
    requires c * f + 1 == q * p
    ensures c * (f + p) + 1 == (q + c) * p
  {
    assert c * (f + p) == c * f + c * p;
    assert (q + c) * p == q * p + c * p;
  }

  lemma HalfTurns(q: int, p: int)
    requires q % 2 == 0
    ensures q * p == q / 2 * (2 * p)
  {
    assert q == 2 * (q / 2);
  }

  lemma ToleratedCell(c: int, k: int, d: int, e: int, f: int)
    requires c == -k * 0x20_0000 && 0 <= k <= 0x400 && 0 <= f < ONE20
    requires 0 <= d <= (if k == 0 then 2 else 1) && 0 <= e <= (if k == 0 then 2 else 1)
    ensures BlendQ31(c + d, c + e, f) == c
  {
    var u := 0x7FFF_FFFF - f * 0x800;
    ToleratedProducts(c, k, d, e, f, u);
    SmallMultiples(d, u);
    SmallMultiples(e, f * 0x800);
    DivModUnique((c + e) * (f * 0x800), 0x1_0000_0000, -(k * f), e * (f * 0x800));
    DivModUnique((c + d) * u, 0x1_0000_0000, -k * 0x10_0000 + k * f, k * 0x20_0000 + d * u);
  }

  lemma ToleratedProducts(c: int, k: int, d: int, e: int, f: int, u: int)
    requires c == -k * 0x20_0000 && u == 0x7FFF_FFFF - f * 0x800
    ensures (c + e) * (f * 0x800) == -(k * f) * 0x1_0000_0000 + e * (f * 0x800)
    ensures (c + d) * u == (-k * 0x10_0000 + k * f) * 0x1_0000_0000 + (k * 0x20_0000 + d * u)
  {
    assert (c + e) * (f * 0x800) == c * (f * 0x800) + e * (f * 0x800);
    assert (c + d) * u == c * u + d * u;
    assert c * u == c * 0x7FFF_FFFF - c * f * 0x800;
  }

  lemma SmallMultiples(d: int, u: int)
    requires 0 <= d <= 2 && 0 <= u < 0x8000_0000
    ensures d <= 1 ==> 0 <= d * u < 0x8000_0000
    ensures 0 <= d * u < 0x1_0000_0000 - 1
  {
  }

  /** In tables of any size, even above 2^12 entries: over a flat upper half every negative
      coordinate returns the entry exactly when it is not positive and a multiple of 2^21. */
  lemma BelowRangeFlatIffQ31(table: seq<Q31>, c: Q31)
    requires |table| >= 0x802 && forall i :: 0x800 <= i < |table| ==> table[i] == c
    ensures (forall x: Q31 :: x < 0 ==> ValueQ31(table, x) == c) <==> c <= 0 && c % 0x20_0000 == 0
  {
    var flat: int := c;
    if c <= 0 && c % 0x20_0000 == 0 {
      forall x: Q31 | x < 0
        ensures ValueQ31(table, x) == c
      {
        NegativeCoordinateIsHigh(x);
        var k := NegativeMultiple(flat);
        ToleratedCell(flat, k, 0, 0, Fraction(x));
      }
    } else {
      var f := FlatCellFails(c);
      var x := NegativeCoordinate(0x800, f);
      assert ValueQ31(table, x) == BlendQ31(c, c, f);
    }
  }

  lemma FlatCellFails(c: Q31) returns (f: nat)
    requires c > 0 || c % 0x20_0000 != 0
    ensures f < ONE20 && BlendQ31(c, c, f) != c
  {
    if c > 0 || c % 2 == 1 {
      f := 0;
      NodeValueQ31(c, c);
    } else {
      var m, o := c / 2, 0;
      TwentyBits();
      f, o := OddMultiple(m, 19);
      HalfLost(c, m, f, o);
    }
  }

  /** At a fraction where c * f is an odd multiple of 2^20 both products lose one half. */
  lemma HalfLost(c: Q31, m: int, f: int, o: int)
    requires c == 2 * m && -0x8000_0000 < c <= 0 && o % 2 == 1 && m * f == o * 0x8_0000
    ensures BlendQ31(c, c, f) == c - 2
  {
    assert c * f == o * 0x10_0000 by {
      assert (2 * m) * f == 2 * (m * f);
    }
    assert c * (f * 0x800) == 0x800 * (c * f);
    assert c * (0x7FFF_FFFF - f * 0x800) == c * 0x7FFF_FFFF - 0x800 * (c * f);
    DivModUnique(c * (f * 0x800), 0x1_0000_0000, (o - 1) / 2, 0x8000_0000);
    DivModUnique(c * (0x7FFF_FFFF - f * 0x800), 0x1_0000_0000, m - (o + 1) / 2, 0x8000_0000 - c);
  }

  /** A number that 2^(k+1) does not divide has an odd multiple of 2^k among its first 2^k multiples. */
  lemma {:induction false} OddMultiple(c: int, k: nat) returns (f: nat, o: int)
    requires c % Pow2(k + 1) != 0
    ensures 1 <= f <= Pow2(k) && o % 2 == 1 && c * f == o * Pow2(k)
    decreases k
  {
    if c % 2 == 1 {
      f, o := Pow2(k), c;
    } else {
      var h := c / 2;
      assert k > 0;
      HalfIndivisible(h, Pow2(k));
      f, o := OddMultiple(h, k - 1);
      assert (2 * h) * f == 2 * (h * f);
      assert o * (2 * Pow2(k - 1)) == 2 * (o * Pow2(k - 1));
    }
  }

  lemma TwentyBits()
    ensures Pow2(19) == 0x8_0000 && Pow2(20) == 0x10_0000
  {
    Pow2Values();
  }

  lemma HalfIndivisible(h: int, p: int)
    requires p >= 1 && (2 * h) % (2 * p) != 0
    ensures h % p != 0
  {
    if h % p == 0 {
      Recompose(h, p);
      DivModUnique(2 * h, 2 * p, h / p, 0);
    }
  }

  lemma NodeValueQ31(y0: Q31, y1: Q31)
    ensures BlendQ31(y0, y1, 0) == AtNodeQ31(y0)
  {
  }

  lemma IndexOrder(x: Q31, x': Q31)
    requires ToU32(x) <= ToU32(x')
    ensures Index(x) <= Index(x') && (Index(x) == Index(x') ==> Fraction(x) <= Fraction(x'))
  {
  }

  lemma BlendRises(y0: int, y1: int, f: int, f': int)
    requires y0 <= y1 && 0 <= f <= f' <= 0xF_FFFF
    ensures Blend(y0, y1, f) <= Blend(y0, y1, f')
    ensures f == 0 ==> Blend(y0, y1, f) == y0 * 0xF_FFFF / 0x10_0000
    ensures f' == 0xF_FFFF ==> Blend(y0, y1, f') == y1 * 0xF_FFFF / 0x10_0000
  {
    MulOrder(f, f', y1 - y0);
    assert y0 * (0xF_FFFF - f) + y1 * f == y0 * 0xF_FFFF + f * (y1 - y0);
    assert y0 * (0xF_FFFF - f') + y1 * f' == y0 * 0xF_FFFF + f' * (y1 - y0);
  }

  lemma Node(y: Q15)
    ensures y * 0xF_FFFF / 0x10_0000 <= y
  {
  }

  lemma NodesRise(y: int, y': int)
    requires y <= y'
    ensures y * 0xF_FFFF / 0x10_0000 <= y' * 0xF_FFFF / 0x10_0000
  {
  }

  /** `arm_linear_interp_q15`. */
  method LinearInterpQ15(pYData: array<Q15>, x: Q31, nValues: U32) returns (r: Q15)
    requires 1 <= nValues <= 0x8000_0000 && nValues <= pYData.Length
    ensures Index(x) >= nValues - 1 ==> r == pYData[nValues - 1]
    ensures Index(x) < nValues - 1 ==>
              && Between2(r, pYData[Index(x)], pYData[Index(x) + 1], Fraction(x), 1, ONE20 + 0x8000, 0x8000)
              && FloorsMean(r, pYData[Index(x)], pYData[Index(x) + 1], Fraction(x))
    ensures r == ValueQ15(pYData[..nValues], x)
    ensures var i, f := ToU32(x) / 0x10_0000, ToU32(x) % 0x10_0000;
            i < nValues - 1 ==>
              -0x10_0000 < r * 0x10_0000 - (pYData[i] * (0xF_FFFF - f) + pYData[i + 1] * f) <= 0
  {
    CoordinateMasks(x);
    var index: Q31 := And(ToU32(x), 0xFFF0_0000) / 0x10_0000;
    if index >= nValues - 1 {
      r := pYData[nValues - 1];
    } else {
      var fract: Q31 := And(ToU32(x), 0xF_FFFF);
      r := LinearValueQ15(pYData[index], pYData[index + 1], fract);
    }
  }

  method LinearValueQ15(y0: Q15, y1: Q15, fract: Q31) returns (r: Q15)
    requires 0 <= fract < ONE20
    ensures Between2(r, y0, y1, fract, 1, ONE20 + 0x8000, 0x8000) && FloorsMean(r, y0, y1, fract)
    ensures r == Blend(y0, y1, fract)
    ensures -0x10_0000 < r * 0x10_0000 - (y0 * (0xF_FFFF - fract) + y1 * fract) <= 0
  {
    var left: int := y0 * (0xF_FFFF - fract);
    var right: int := y1 * fract;
    LinearNarrow(y0, y1, fract, left, right, 0x8000);
    var y: Q63 := left;
    y := y + right;
    r := ToQ15(y / 0x10_0000);
  }

  /** `arm_linear_interp_q7`: here a negative coordinate does return the first entry. */
  method LinearInterpQ7(pYData: array<Q7>, x: Q31, nValues: U32) returns (r: Q7)
    requires 1 <= nValues && nValues <= pYData.Length
    ensures x < 0 ==> r == pYData[0]
    ensures x >= 0 && Index(x) >= nValues - 1 ==> r == pYData[nValues - 1]
    ensures x >= 0 && Index(x) < nValues - 1 ==>
              && Between2(r, pYData[Index(x)], pYData[Index(x) + 1], Fraction(x), 1, ONE20 + 0x80, 0x80)
              && FloorsMean(r, pYData[Index(x)], pYData[Index(x) + 1], Fraction(x))
    ensures var i, f := ToU32(x) / 0x10_0000, ToU32(x) % 0x10_0000;
            x >= 0 && i < nValues - 1 ==>
              -0x10_0000 < r * 0x10_0000 - (pYData[i] * (0xF_FFFF - f) + pYData[i + 1] * f) <= 0
  {
    if x < 0 {
      return pYData[0];
    }
    CoordinateMasks(x);
    ShiftThenMask(x);
    var index: U32 := And(ToU32(x / 0x10_0000), 0xFFF);
    if index >= nValues - 1 {
      r := pYData[nValues - 1];
    } else {
      var fract: Q31 := And(ToU32(x), 0xF_FFFF);
      assert index == Index(x) == ToU32(x) / 0x10_0000 && fract == Fraction(x) == ToU32(x) % 0x10_0000;
      r := LinearValueQ7(pYData[index], pYData[index + 1], fract);
    }
  }

  method LinearValueQ7(y0: Q7, y1: Q7, fract: Q31) returns (r: Q7)
    requires 0 <= fract < ONE20
    ensures Between2(r, y0, y1, fract, 1, ONE20 + 0x80, 0x80) && FloorsMean(r, y0, y1, fract)
    ensures -0x10_0000 < r * 0x10_0000 - (y0 * (0xF_FFFF - fract) + y1 * fract) <= 0
  {
    var left: int := y0 * (0xF_FFFF - fract);
    var right: int := y1 * fract;
    LinearNarrow(y0, y1, fract, left, right, 0x80);
    var y: Q31 := left;
    y := y + right;
    r := ToQ7(y / 0x10_0000);
  }

  lemma ShiftThenMask(x: Q31)
    requires x >= 0
    ensures And(ToU32(x / 0x10_0000), 0xFFF) == Index(x)
  {
    var u: nat := x / 0x10_0000;
    assert ToU32(u) == u < 0x1000;
    assert ToU32(x) == x;
    IndexLow(u);
  }

  lemma IndexLow(u: nat)
    ensures And(u, 0xFFF) == u % 0x1000
  {
    var mask: nat := 0xFFF;
    Pow2Values();
    AndMask(u, 0, 12, mask);
  }

  /** Both narrow formats: the sum fits its accumulator and the shifted sum fits the result. */
  lemma LinearNarrow(y0: int, y1: int, f: int, left: int, right: int, bound: int)
    requires bound in {0x80, 0x8000} && -bound <= y0 < bound && -bound <= y1 < bound && 0 <= f < ONE20
    requires left == y0 * (0xF_FFFF - f) && right == y1 * f
    ensures Between2((left + right) / 0x10_0000, y0, y1, f, 1, ONE20 + bound, bound)
    ensures FloorsMean((left + right) / 0x10_0000, y0, y1, f)
    ensures -bound <= (left + right) / 0x10_0000 < bound
    ensures -(bound * ONE20) <= left <= bound * ONE20 && -(bound * ONE20) <= left + right <= bound * ONE20
  {
    var lo, hi := Min(y0, y1), Max(y0, y1);
    Convex2(y0, y1, 0xF_FFFF - f, f, lo, hi);
    ProductBound(y0, bound, 0xF_FFFF - f, 0xF_FFFF);
    assert y0 * (ONE20 - f) == y0 * (0xF_FFFF - f) + y0;
    NarrowQuotient(left + right, lo, hi, bound, y0, Mean2(y0, y1, f));
  }

  lemma NarrowQuotient(s: int, lo: int, hi: int, bound: int, y0: int, mean: int)
    requires bound in {0x80, 0x8000} && -bound <= lo <= y0 <= hi < bound
    requires lo * 0xF_FFFF <= s <= hi * 0xF_FFFF && mean == s + y0
    ensures lo - 1 <= s / 0x10_0000 <= hi && -bound <= s / 0x10_0000
    ensures -(ONE20 + bound) < s / 0x10_0000 * ONE20 - mean <= bound
    ensures -(bound * ONE20) <= s <= bound * ONE20
  {
  }

  // ----- bilinear

  /** The exact mean of a cell in units of 2^-40. */
  function Mean4(x1: int, x2: int, y1: int, y2: int, xf: int, yf: int): int
  {
    x1 * ((ONE20 - xf) * (ONE20 - yf)) + x2 * (xf * (ONE20 - yf)) + y1 * ((ONE20 - xf) * yf) + y2 * (xf * yf)
  }

  /** The same sum with the weights the code uses, which add up to (2^20 - 1)^2. */
  function Weighted4(x1: int, x2: int, y1: int, y2: int, xf: int, yf: int): int
  {
    x1 * ((0xF_FFFF - xf) * (0xF_FFFF - yf)) + x2 * (xf * (0xF_FFFF - yf)) +
    y1 * ((0xF_FFFF - xf) * yf) + y2 * (xf * yf)
  }

  function Min4(a: int, b: int, c: int, d: int): int { Min(Min(a, b), Min(c, d)) }

  function Max4(a: int, b: int, c: int, d: int): int { Max(Max(a, b), Max(c, d)) }

  const ONE40: int := 0x100_0000_0000

  ghost predicate Between4(r: int, x1: int, x2: int, y1: int, y2: int, xf: int, yf: int, low: int, high: int)
  {
    && Min4(x1, x2, y1, y2) - 1 <= r <= Max4(x1, x2, y1, y2)
    && -low < r * ONE40 - Mean4(x1, x2, y1, y2, xf, yf) <= high
  }

  /** The read-only instance structures; numRows bounds the X index and numCols the Y index, and
      X runs along a row of numCols entries. */
  datatype Grid<T> = Grid(numRows: U16, numCols: U16, pData: array<T>)
  {
    predicate Inside(rI: nat, cI: nat)
    {
      rI <= numRows - 1 && cI <= numCols - 1
    }

    function Cell(rI: nat, cI: nat): nat { rI + numCols * cI }
  }

  /** The bounds test compares X with the number of rows although X runs along a row. Over the
      indices a coordinate can have, it is the test for being inside the table exactly when the
      sides agree up to those 4096 indices, or there is no cell. */
  lemma InsideIsTableIff<T>(S: Grid<T>)
    ensures (forall rI: nat, cI: nat :: rI < 0x1000 && cI < 0x1000 ==>
               (S.Inside(rI, cI) <==> rI < S.numCols && cI < S.numRows))
            <==> (Min(S.numRows, 0x1000) == Min(S.numCols, 0x1000) || S.numRows == 0 || S.numCols == 0)
  {
    var rows, cols := Min(S.numRows, 0x1000), Min(S.numCols, 0x1000);
    if rows > cols > 0 {
      assert S.Inside(cols, 0);
    } else if cols > rows > 0 {
      assert S.Inside(0, rows);
    }
  }

  /** A cell on an edge passes the test although two or three of its corners lie beyond. In a table
      of exactly numRows * numCols entries no read leaves the table exactly when the reads for the
      last index of either kind do not, or there is no cell. */
  lemma ReadsInsideIff<T>(S: Grid<T>)
    ensures (forall rI: nat, cI: nat :: rI < 0x1000 && cI < 0x1000 && S.Inside(rI, cI) ==>
               S.Cell(rI, cI + 1) + 1 < S.numRows * S.numCols)
            <==> (S.numRows == 0 || S.numCols == 0 ||
                  Min(S.numRows, 0x1000) + S.numCols * Min(S.numCols, 0x1000) < S.numRows * S.numCols)
  {
    if S.numRows > 0 && S.numCols > 0 {
      var r, c: nat := Min(S.numRows, 0x1000) - 1, Min(S.numCols, 0x1000) - 1;
      assert S.Inside(r, c) && S.Cell(r, c + 1) + 1 == r + S.numCols * (c + 1) + 1;
      forall rI: nat, cI: nat | rI < 0x1000 && cI < 0x1000 && S.Inside(rI, cI)
        ensures S.Cell(rI, cI + 1) <= S.Cell(r, c + 1)
      {
        MulOrder(cI + 1, c + 1, S.numCols);
      }
    }
  }

  /** `arm_bilinear_interp_q15`. The caller's table must hold the four entries of every cell that
      passes the bounds test. */
  method BilinearInterpQ15(S: Grid<Q15>, X: Q31, Y: Q31) returns (r: Q15)
    requires S.Inside(Index(X), Index(Y)) ==> S.Cell(Index(X), Index(Y) + 1) + 1 < S.pData.Length
    ensures !S.Inside(Index(X), Index(Y)) ==> r == 0
    ensures S.Inside(Index(X), Index(Y)) ==>
              var i, j := S.Cell(Index(X), Index(Y)), S.Cell(Index(X), Index(Y) + 1);
              i <= j && Between4(r, S.pData[i], S.pData[i + 1], S.pData[j], S.pData[j + 1], Fraction(X), Fraction(Y),
                                 ONE40 + 0x10_0400_0000, 0x10_0000_0000)
    ensures var rI, cI := ToU32(X) / 0x10_0000, ToU32(Y) / 0x10_0000;
            var xf, yf := ToU32(X) % 0x10_0000, ToU32(Y) % 0x10_0000;
            if rI < S.numRows && cI < S.numCols then
              var i, j := rI + S.numCols * cI, rI + S.numCols * (cI + 1);
              assert 0 <= i <= j by { RowsApart(S.numCols, cI); }
              var p1, p2 := S.pData[i] * (0xF_FFFF - xf), S.pData[i + 1] * (0xF_FFFF - yf);
              var p3, p4 := S.pData[j] * (0xF_FFFF - xf), S.pData[j + 1] * xf;
              var sum := p1 * (0xF_FFFF - yf) + p2 * xf + p3 * yf + p4 * yf;
              var dropped := p1 % 0x10 * (0xF_FFFF - yf) + p2 % 0x10 * xf + p3 % 0x10 * yf + p4 % 0x10 * yf;
              -0x100_0000_0000 < r * 0x100_0000_0000 - (sum - dropped) <= 0
            else r == 0
  {
    CoordinateMasks(X);
    CoordinateMasks(Y);
    var rI: int := And(ToU32(X), 0xFFF0_0000) / 0x10_0000;
    var cI: int := And(ToU32(Y), 0xFFF0_0000) / 0x10_0000;
    if rI > S.numRows - 1 || cI > S.numCols - 1 {
      return 0;
    }
    RowsApart(S.numCols, cI);
    var xfract: Q31 := And(ToU32(X), 0xF_FFFF);
    var x1 := S.pData[rI + S.numCols * cI];
    var x2 := S.pData[rI + S.numCols * cI + 1];
    var yfract: Q31 := And(ToU32(Y), 0xF_FFFF);
    var y1 := S.pData[rI + S.numCols * (cI + 1)];
    var y2 := S.pData[rI + S.numCols * (cI + 1) + 1];
    r := CellValueQ15(x1, x2, y1, y2, xfract, yfract);
  }

  lemma RowsApart(cols: nat, c: nat)
    ensures 0 <= cols * c <= cols * (c + 1)
  {
  }

  /** r is the floor of the sum with the weights of the code, less what its four shifts drop. */
  ghost predicate FloorsQ15Cell(r: int, x1: int, x2: int, y1: int, y2: int, xf: int, yf: int)
  {
    var p1, p2, p3, p4 := x1 * (0xF_FFFF - xf), x2 * (0xF_FFFF - yf), y1 * (0xF_FFFF - xf), y2 * xf;
    var sum := p1 * (0xF_FFFF - yf) + p2 * xf + p3 * yf + p4 * yf;
    var dropped := p1 % 0x10 * (0xF_FFFF - yf) + p2 % 0x10 * xf + p3 % 0x10 * yf + p4 % 0x10 * yf;
    -0x100_0000_0000 < r * 0x100_0000_0000 - (sum - dropped) <= 0
  }

  /** The weighting of one cell: four products shifted down by 4, weighted again, summed in 64
      bits and shifted by 36. */
  method CellValueQ15(x1: Q15, x2: Q15, y1: Q15, y2: Q15, xfract: Q31, yfract: Q31) returns (r: Q15)
    requires 0 <= xfract < ONE20 && 0 <= yfract < ONE20
    ensures Between4(r, x1, x2, y1, y2, xfract, yfract, ONE40 + 0x10_0400_0000, 0x10_0000_0000)
    ensures FloorsQ15Cell(r, x1, x2, y1, y2, xfract, yfract)
  {
    var out1 := PartialProduct(x1, 0xF_FFFF - xfract);
    var out2 := PartialProduct(x2, 0xF_FFFF - yfract);
    var out3 := PartialProduct(y1, 0xF_FFFF - xfract);
    var out4 := PartialProduct(y2, xfract);
    var acc := Accumulate(out1, 0xF_FFFF - yfract, out2, xfract, out3, yfract, out4, yfract);
    WeightedSum(x1 * (0xF_FFFF - xfract), out1, 0xF_FFFF - yfract);
    WeightedSum(x2 * (0xF_FFFF - yfract), out2, xfract);
    WeightedSum(y1 * (0xF_FFFF - xfract), out3, yfract);
    WeightedSum(y2 * xfract, out4, yfract);
    RoundedCell(x1, x2, y1, y2, xfract, yfract, out1, out2, out3, out4);
    r := ToQ15(acc / 0x10_0000_0000);
  }

  /** A product shifted down by 4 and weighted again, less the weighted bits that dropped out. */
  lemma WeightedSum(p: int, o: int, u: int)
    requires 0 <= p - 0x10 * o < 0x10
    ensures 0x10 * (o * u) == p * u - p % 0x10 * u
  {
    assert p % 0x10 == p - 0x10 * o;
    assert (p - 0x10 * o) * u == p * u - 0x10 * (o * u);
  }

  method PartialProduct(v: Q15, w: Q31) returns (out: Q31)
    requires 0 <= w < ONE20
    ensures 0 <= v * w - 0x10 * out < 0x10
  {
    ProductBound(v, 0x8000, w, 0xF_FFFF);
    var p: int := v * w;
    ShiftedProduct(p);
    out := ToQ31(ToQ63(p) / 0x10);
  }

  lemma ShiftedProduct(p: int)
    requires -0x8_0000_0000 < p < 0x8_0000_0000
    ensures ToQ31(ToQ63(p) / 0x10) == p / 0x10
  {
  }

  /** The 64-bit accumulation of the four weighted terms, which never wraps. */
  method Accumulate(o1: Q31, w1: Q31, o2: Q31, w2: Q31, o3: Q31, w3: Q31, o4: Q31, w4: Q31) returns (acc: Q63)
    requires 0 <= w1 < ONE20 && 0 <= w2 < ONE20 && 0 <= w3 < ONE20 && 0 <= w4 < ONE20
    ensures acc == o1 * w1 + o2 * w2 + o3 * w3 + o4 * w4
  {
    WeightedTerm(o1, w1);
    WeightedTerm(o2, w2);
    WeightedTerm(o3, w3);
    WeightedTerm(o4, w4);
    var t1: int, t2: int, t3: int, t4: int := o1 * w1, o2 * w2, o3 * w3, o4 * w4;
    acc := t1;
    acc := acc + t2;
    acc := acc + t3;
    acc := acc + t4;
  }

  lemma WeightedTerm(o: Q31, w: Q31)
    requires 0 <= w < ONE20
    ensures -0x8_0000_0000_0000 <= o * w <= 0x8_0000_0000_0000
  {
    ProductBound(o, 0x8000_0000, w, ONE20);
  }

  /** The accumulator is a sixteenth of the weighted sum, less what the four shifts dropped. */
  lemma RoundedCell(x1: Q15, x2: Q15, y1: Q15, y2: Q15, xf: int, yf: int, o1: int, o2: int, o3: int, o4: int)
    requires 0 <= xf < ONE20 && 0 <= yf < ONE20
    requires 0 <= x1 * (0xF_FFFF - xf) - 0x10 * o1 < 0x10 && 0 <= x2 * (0xF_FFFF - yf) - 0x10 * o2 < 0x10
    requires 0 <= y1 * (0xF_FFFF - xf) - 0x10 * o3 < 0x10 && 0 <= y2 * xf - 0x10 * o4 < 0x10
    ensures var r := (o1 * (0xF_FFFF - yf) + o2 * xf + o3 * yf + o4 * yf) / 0x10_0000_0000;
            FitsQ15(r) && Between4(r, x1, x2, y1, y2, xf, yf, ONE40 + 0x10_0400_0000, 0x10_0000_0000)
  {
    var acc := o1 * (0xF_FFFF - yf) + o2 * xf + o3 * yf + o4 * yf;
    var s := Weighted4(x1, x2, y1, y2, xf, yf);
    DroppedBits(x1, 0xF_FFFF - xf, o1, 0xF_FFFF - yf);
    DroppedBits(x2, 0xF_FFFF - yf, o2, xf);
    DroppedBits(y1, 0xF_FFFF - xf, o3, yf);
    DroppedBits(y2, xf, o4, yf);
    assert x2 * ((0xF_FFFF - yf) * xf) == x2 * (xf * (0xF_FFFF - yf));
    assert 0 <= s - 0x10 * acc <= 0x2D0_0000;
    WeightedInHull(x1, x2, y1, y2, xf, yf);
    WeightedNearMean(x1, x2, y1, y2, xf, yf, 0x8000);
    QuotientOfCell(acc, s, Min4(x1, x2, y1, y2), Max4(x1, x2, y1, y2), Mean4(x1, x2, y1, y2, xf, yf));
  }

  lemma DroppedBits(v: int, w: int, o: int, u: int)
    requires 0 <= v * w - 0x10 * o < 0x10 && 0 <= u < ONE20
    ensures 0 <= v * (w * u) - 0x10 * (o * u) <= 15 * u
  {
    var d := v * w - 0x10 * o;
    MulOrder(0, d, u);
    MulOrder(d, 15, u);
    assert v * (w * u) == (v * w) * u;
    assert d * u == (v * w) * u - 0x10 * (o * u);
  }

  lemma Convex4(v1: int, v2: int, v3: int, v4: int, w1: int, w2: int, w3: int, w4: int, lo: int, hi: int)
    requires w1 >= 0 && w2 >= 0 && w3 >= 0 && w4 >= 0
    requires lo <= v1 <= hi && lo <= v2 <= hi && lo <= v3 <= hi && lo <= v4 <= hi
    ensures lo * (w1 + w2 + (w3 + w4)) <= v1 * w1 + v2 * w2 + v3 * w3 + v4 * w4 <= hi * (w1 + w2 + (w3 + w4))
  {
    Convex2(v1, v2, w1, w2, lo, hi);
    Convex2(v3, v4, w3, w4, lo, hi);
    assert lo * (w1 + w2 + (w3 + w4)) == lo * (w1 + w2) + lo * (w3 + w4);
    assert hi * (w1 + w2 + (w3 + w4)) == hi * (w1 + w2) + hi * (w3 + w4);
  }

  lemma WeightedInHull(x1: int, x2: int, y1: int, y2: int, xf: int, yf: int)
    requires 0 <= xf < ONE20 && 0 <= yf < ONE20
    ensures var s := Weighted4(x1, x2, y1, y2, xf, yf);
            Min4(x1, x2, y1, y2) * 0xFF_FFE0_0001 <= s <= Max4(x1, x2, y1, y2) * 0xFF_FFE0_0001
  {
    var u, v := 0xF_FFFF - xf, 0xF_FFFF - yf;
    MulOrder(0, u, v);
    MulOrder(0, xf, v);
    MulOrder(0, u, yf);
    MulOrder(0, xf, yf);
    Convex4(x1, x2, y1, y2, u * v, xf * v, u * yf, xf * yf, Min4(x1, x2, y1, y2), Max4(x1, x2, y1, y2));
    assert u * v + xf * v == 0xF_FFFF * v;
    assert u * yf + xf * yf == 0xF_FFFF * yf;
  }

  lemma WeightedNearMean(x1: int, x2: int, y1: int, y2: int, xf: int, yf: int, bound: int)
    requires 0 <= xf < ONE20 && 0 <= yf < ONE20
    requires -bound <= x1 <= bound && -bound <= x2 <= bound && -bound <= y1 <= bound && -bound <= y2 <= bound
    ensures -(bound * 0x20_0000) <= Weighted4(x1, x2, y1, y2, xf, yf) - Mean4(x1, x2, y1, y2, xf, yf)
           <= bound * 0x20_0000
  {
    var u, v := ONE20 - xf, ONE20 - yf;
    CornerGap(x1, u, v);
    SideGap(x2, v, xf);
    SideGap(y1, u, yf);
    GapBound(x1, x2, y1, u + v - 1, xf, yf, bound);
  }

  lemma GapBound(x1: int, x2: int, y1: int, w1: int, w2: int, w3: int, bound: int)
    requires -bound <= x1 <= bound && -bound <= x2 <= bound && -bound <= y1 <= bound
    requires w1 >= 0 && w2 >= 0 && w3 >= 0 && w1 + w2 + w3 == 0x1F_FFFF
    ensures -(bound * 0x20_0000) <= x1 * w1 + x2 * w2 + y1 * w3 <= bound * 0x20_0000
  {
    ProductBound(x1, bound, w1, w1);
    ProductBound(x2, bound, w2, w2);
    ProductBound(y1, bound, w3, w3);
    assert bound * w1 + bound * w2 + bound * w3 == bound * (w1 + w2 + w3);
  }

  lemma CornerGap(x: int, u: int, v: int)
    ensures x * ((u - 1) * (v - 1)) == x * (u * v) - x * (u + v - 1)
  {
    assert (u - 1) * (v - 1) == u * v - (u + v - 1);
  }

  lemma SideGap(x: int, u: int, f: int)
    ensures x * (f * (u - 1)) == x * (f * u) - x * f && x * ((u - 1) * f) == x * (u * f) - x * f
  {
    assert f * (u - 1) == f * u - f;
  }

  lemma QuotientOfCell(acc: int, s: int, lo: Q15, hi: Q15, mean: int)
    requires 0 <= s - 0x10 * acc <= 0x2D0_0000
    requires lo * 0xFF_FFE0_0001 <= s <= hi * 0xFF_FFE0_0001
    requires -0x10_0000_0000 <= s - mean <= 0x10_0000_0000
    ensures var r := acc / 0x10_0000_0000;
            && lo - 1 <= r <= hi && FitsQ15(r)
            && -(ONE40 + 0x10_0400_0000) < r * ONE40 - mean <= 0x10_0000_0000
  {
  }

  /** `arm_bilinear_interp_q7`. */
  method BilinearInterpQ7(S: Grid<Q7>, X: Q31, Y: Q31) returns (r: Q7)
    requires S.Inside(Index(X), Index(Y)) ==> S.Cell(Index(X), Index(Y) + 1) + 1 < S.pData.Length
    ensures !S.Inside(Index(X), Index(Y)) ==> r == 0
    ensures S.Inside(Index(X), Index(Y)) ==>
              var i, j := S.Cell(Index(X), Index(Y)), S.Cell(Index(X), Index(Y) + 1);
              i <= j && Between4(r, S.pData[i], S.pData[i + 1], S.pData[j], S.pData[j + 1], Fraction(X), Fraction(Y),
                                 ONE40 + 0x1000_0000, 0x1000_0000)
    ensures var rI, cI := ToU32(X) / 0x10_0000, ToU32(Y) / 0x10_0000;
            var xf, yf := ToU32(X) % 0x10_0000, ToU32(Y) % 0x10_0000;
            if rI < S.numRows && cI < S.numCols then
              var i, j := rI + S.numCols * cI, rI + S.numCols * (cI + 1);
              assert 0 <= i <= j by { RowsApart(S.numCols, cI); }
              var sum := S.pData[i] * (0xF_FFFF - xf) * (0xF_FFFF - yf) + S.pData[i + 1] * (0xF_FFFF - yf) * xf +
                         S.pData[j] * (0xF_FFFF - xf) * yf + S.pData[j + 1] * yf * xf;
              -0x100_0000_0000 < r * 0x100_0000_0000 - sum <= 0
            else r == 0
  {
    CoordinateMasks(X);
    CoordinateMasks(Y);
    var rI: int := And(ToU32(X), 0xFFF0_0000) / 0x10_0000;
    var cI: int := And(ToU32(Y), 0xFFF0_0000) / 0x10_0000;
    if rI > S.numRows - 1 || cI > S.numCols - 1 {
      return 0;
    }
    RowsApart(S.numCols, cI);
    var xfract: Q31 := And(ToU32(X), 0xF_FFFF);
    var x1 := S.pData[rI + S.numCols * cI];
    var x2 := S.pData[rI + S.numCols * cI + 1];
    var yfract: Q31 := And(ToU32(Y), 0xF_FFFF);
    var y1 := S.pData[rI + S.numCols * (cI + 1)];
    var y2 := S.pData[rI + S.numCols * (cI + 1) + 1];
    r := CellValueQ7(x1, x2, y1, y2, xfract, yfract);
  }

  /** r is the floor of the sum with the weights of the code. */
  ghost predicate FloorsQ7Cell(r: int, x1: int, x2: int, y1: int, y2: int, xf: int, yf: int)
  {
    var sum := x1 * (0xF_FFFF - xf) * (0xF_FFFF - yf) + x2 * (0xF_FFFF - yf) * xf +
               y1 * (0xF_FFFF - xf) * yf + y2 * yf * xf;
    -0x100_0000_0000 < r * 0x100_0000_0000 - sum <= 0
  }

  method CellValueQ7(x1: Q7, x2: Q7, y1: Q7, y2: Q7, xfract: Q31, yfract: Q31) returns (r: Q7)
    requires 0 <= xfract < ONE20 && 0 <= yfract < ONE20
    ensures Between4(r, x1, x2, y1, y2, xfract, yfract, ONE40 + 0x1000_0000, 0x1000_0000)
    ensures FloorsQ7Cell(r, x1, x2, y1, y2, xfract, yfract)
  {
    ProductBound(x1, 0x80, 0xF_FFFF - xfract, 0xF_FFFF);
    ProductBound(x2, 0x80, 0xF_FFFF - yfract, 0xF_FFFF);
    ProductBound(y1, 0x80, 0xF_FFFF - xfract, 0xF_FFFF);
    ProductBound(y2, 0x80, yfract, 0xF_FFFF);
    var out1: Q31, out2: Q31 := x1 * (0xF_FFFF - xfract), x2 * (0xF_FFFF - yfract);
    var out3: Q31, out4: Q31 := y1 * (0xF_FFFF - xfract), y2 * yfract;
    var acc := Accumulate(out1, 0xF_FFFF - yfract, out2, xfract, out3, yfract, out4, xfract);
    ExactCell(x1, x2, y1, y2, xfract, yfract, acc);
    r := ToQ7(acc / 0x100_0000_0000);
  }

  /** In Q7 nothing is dropped before the final shift. */
  lemma ExactCell(x1: Q7, x2: Q7, y1: Q7, y2: Q7, xf: int, yf: int, acc: int)
    requires 0 <= xf < ONE20 && 0 <= yf < ONE20
    requires acc == x1 * (0xF_FFFF - xf) * (0xF_FFFF - yf) + x2 * (0xF_FFFF - yf) * xf +
                    y1 * (0xF_FFFF - xf) * yf + y2 * yf * xf
    ensures var r := acc / 0x100_0000_0000;
            FitsQ7(r) && Between4(r, x1, x2, y1, y2, xf, yf, ONE40 + 0x1000_0000, 0x1000_0000)
  {
    Regroup(x1, 0xF_FFFF - xf, 0xF_FFFF - yf);
    Regroup(x2, xf, 0xF_FFFF - yf);
    Regroup(y1, 0xF_FFFF - xf, yf);
    Regroup(y2, xf, yf);
    WeightedInHull(x1, x2, y1, y2, xf, yf);
    WeightedNearMean(x1, x2, y1, y2, xf, yf, 0x80);
    QuotientOfExactCell(acc, Min4(x1, x2, y1, y2), Max4(x1, x2, y1, y2), Mean4(x1, x2, y1, y2, xf, yf));
  }

  lemma Regroup(v: int, u: int, w: int)
    ensures v * u * w == v * (u * w) == v * w * u
  {
  }

  lemma QuotientOfExactCell(s: int, lo: Q7, hi: Q7, mean: int)
    requires lo * 0xFF_FFE0_0001 <= s <= hi * 0xFF_FFE0_0001
    requires -0x1000_0000 <= s - mean <= 0x1000_0000
    ensures var r := s / 0x100_0000_0000;
            && lo - 1 <= r <= hi && FitsQ7(r)
            && -(ONE40 + 0x1000_0000) < r * ONE40 - mean <= 0x1000_0000
  {
  }
}
