/**
  The fixed-point PID controllers: `arm_pid_q31`, and `arm_pid_q15` in both of its builds, the
  plain C one and the one that works on packed pairs of half-words.
*/
module Pid {
  import opened MachineInt
  import opened Saturate
  import opened Lanes

  /** The last two inputs and the last output, in the order of `state[0..3]`. */
  datatype History = History(x1: int, x2: int, y1: int)

  datatype Gains = Gains(a0: int, a1: int, a2: int)

  /** The difference equation before scaling: A0*x[n] + A1*x[n-1] + A2*x[n-2]. */
  function Sum3(g: Gains, h: History, x: int): int
  {
    g.a0 * x + g.a1 * h.x1 + g.a2 * h.x2
  }

  function Shift(h: History, x: int, y: int): History { History(x, h.x1, y) }

  // ----- Q31

  function ExactQ31(g: Gains, h: History, x: int): int
  {
    Sum3(g, h, x) / 0x8000_0000 + h.y1
  }

  /** What the Q31 controller computes: the exact output, reduced to 32 bits once. */
  function NextQ31(g: Gains, h: History, x: int): History
  {
    Shift(h, x, ToQ31(ExactQ31(g, h, x)))
  }

  class PidQ31 {
    var A0: Q31
    var A1: Q31
    var A2: Q31
    const state: array<Q31>

    ghost predicate Valid()
      reads this
    {
      state.Length == 3
    }

    ghost function GainsOf(): Gains
      reads this
    {
      Gains(A0, A1, A2)
    }

    ghost function StateOf(): History
      requires Valid()
      reads this, state
    {
      History(state[0], state[1], state[2])
    }

    constructor (a0: Q31, a1: Q31, a2: Q31)
      ensures Valid() && fresh(state) && GainsOf() == Gains(a0, a1, a2) && StateOf() == History(0, 0, 0)
    {
      A0, A1, A2 := a0, a1, a2;
      state := new Q31[3](_ => 0);
    }

    /** `arm_pid_q31`: a 64-bit accumulator and two 32-bit conversions, each of which may wrap. */
    method Process(input: Q31) returns (out: Q31)
      requires Valid()
      modifies state
      ensures Valid()
      ensures out == ToQ31((A0 * input + A1 * old(state[0]) + A2 * old(state[1])) / 0x8000_0000 + old(state[2]))
      ensures state[0] == input && state[1] == old(state[0]) && state[2] == out
      ensures StateOf() == NextQ31(GainsOf(), old(StateOf()), input) && out == StateOf().y1
    {
      ghost var h := StateOf();
      var p0: int, p1: int, p2: int := A0 * input, A1 * state[0], A2 * state[1];
      var acc: Q63 := ToQ63(p0);
      acc := ToQ63(acc + ToQ63(p1));
      acc := ToQ63(acc + ToQ63(p2));
      out := ToQ31(acc / 0x8000_0000);
      out := ToQ31(out + state[2]);
      OutputQ31(p0, p1, p2, acc, state[2], out);
      state[1] := state[0];
      state[0] := input;
      state[2] := out;
      assert out == ToQ31((p0 + p1 + p2) / 0x8000_0000 + h.y1) && p0 + p1 + p2 == Sum3(GainsOf(), h, input);
    }
  }

  lemma OutputQ31(p0: int, p1: int, p2: int, acc: Q63, y: int, out: Q31)
    requires acc == ToQ63(ToQ63(ToQ63(p0) + ToQ63(p1)) + ToQ63(p2)) && out == ToQ31(ToQ31(acc / 0x8000_0000) + y)
    ensures out == ToQ31((p0 + p1 + p2) / 0x8000_0000 + y)
  {
    WrapsAreHarmless(p0, p1, p2, y);
  }

  /** Wrapping the accumulator and the scaled sum early changes nothing modulo 2^32. */
  lemma WrapsAreHarmless(a: int, b: int, c: int, y: int)
    ensures ToQ31(ToQ31(ToQ63(ToQ63(ToQ63(a) + ToQ63(b)) + ToQ63(c)) / 0x8000_0000) + y)
         == ToQ31((a + b + c) / 0x8000_0000 + y)
  {
    var ka := Q63Wraps(a);
    var kb := Q63Wraps(b);
    var kc := Q63Wraps(c);
    var kab := Q63Wraps(ToQ63(a) + ToQ63(b));
    var acc := ToQ63(ToQ63(ToQ63(a) + ToQ63(b)) + ToQ63(c));
    var ks := Q63Wraps(ToQ63(ToQ63(a) + ToQ63(b)) + ToQ63(c));
    var k := ka + kb + kc + kab + ks;
    assert a + b + c == acc + k * 0x1_0000_0000_0000_0000;
    ScaledWrap(a + b + c, acc, k, y);
  }

  lemma ScaledWrap(s: int, acc: int, k: int, y: int)
    requires s == acc + k * 0x1_0000_0000_0000_0000
    ensures ToQ31(ToQ31(acc / 0x8000_0000) + y) == ToQ31(s / 0x8000_0000 + y)
  {
    DivAddMultiple(acc, 2 * k * 0x1_0000_0000, 0x8000_0000);
    var q := acc / 0x8000_0000;
    assert s / 0x8000_0000 == q + 2 * k * 0x1_0000_0000;
    var m := Q31Wraps(q);
    ToQ31Absorbs(ToQ31(q) + y, m + 2 * k);
  }

  /** The documentation lets the 2.62 accumulator wrap and saturates what is left of it; the code
      wraps the output too. The two agree exactly when the scaled accumulator plus the last
      output fits, apart from the two values one turn beyond the bounds. */
  lemma PidQ31SaturatesIff(g: Gains, h: History, x: Q31)
    requires FitsQ31(h.y1)
    ensures var w := ToQ63(Sum3(g, h, x)) / 0x8000_0000 + h.y1;
            NextQ31(g, h, x).y1 == Sat32(w) <==> (FitsQ31(w) || w == 0x1_7FFF_FFFF || w == -0x1_8000_0000)
  {
    var s := Sum3(g, h, x);
    var k := Q63Wraps(s);
    ScaledWrap(s, ToQ63(s), k, h.y1);
    ScaledWrap(ToQ63(s), ToQ63(s), 0, h.y1);
    WrapMeetsBound(ToQ63(s) / 0x8000_0000 + h.y1);
  }

  /** Against the exact output, whose accumulator does not wrap either, the condition is the same
      one on that output. */
  lemma PidQ31SaturatesExactIff(g: Gains, h: History, x: Q31)
    requires FitsQ31(g.a0) && FitsQ31(g.a1) && FitsQ31(g.a2) && FitsQ31(h.x1) && FitsQ31(h.x2) && FitsQ31(h.y1)
    ensures var v := ExactQ31(g, h, x);
            NextQ31(g, h, x).y1 == Sat32(v) <==> (FitsQ31(v) || v == 0x1_7FFF_FFFF || v == -0x1_8000_0000)
  {
    ProductBound(g.a0, 0x8000_0000, x, 0x8000_0000);
    ProductBound(g.a1, 0x8000_0000, h.x1, 0x8000_0000);
    ProductBound(g.a2, 0x8000_0000, h.x2, 0x8000_0000);
    ScaledRange(Sum3(g, h, x));
    WrapMeetsBound(ExactQ31(g, h, x));
  }

  /** Where the two readings part: at the most negative gains, input and history the accumulator
      wraps, and the code meets the documented value but not the saturated exact one. */
  lemma AccumulatorWrapIsDocumented()
    ensures var least := -0x8000_0000;
            var g, h := Gains(least, least, least), History(least, least, 0);
            && NextQ31(g, h, least).y1 == Sat32(ToQ63(Sum3(g, h, least)) / 0x8000_0000) == least
            && Sat32(ExactQ31(g, h, least)) == 0x7FFF_FFFF
  {
    assert -0x8000_0000 * -0x8000_0000 == 0x4000_0000_0000_0000;
  }

  lemma ScaledRange(s: int)
    requires -0xC000_0000_0000_0000 <= s <= 0xC000_0000_0000_0000
    ensures -0x1_8000_0000 <= s / 0x8000_0000 <= 0x1_8000_0000
  {
  }

  lemma WrapMeetsBound(v: int)
    requires -0x2_0000_0000 <= v < 0x2_0000_0000
    ensures ToQ31(v) == Sat32(v) <==> (FitsQ31(v) || v == 0x1_7FFF_FFFF || v == -0x1_8000_0000)
  {
  }

  // ----- whole runs of the Q31 controller

  /** Input number i of a run, zero before the start. */
  function At(xs: seq<int>, i: int): int
    requires i < |xs|
  {
    if i < 0 then 0 else xs[i]
  }

  function Total(xs: seq<int>): int
  {
    if xs == [] then 0 else Total(xs[..|xs| - 1]) + xs[|xs| - 1]
  }

  /** The state after a run from the cleared state. */
  function RunQ31(g: Gains, xs: seq<int>): History
  {
    if xs == [] then History(0, 0, 0) else NextQ31(g, RunQ31(g, xs[..|xs| - 1]), xs[|xs| - 1])
  }

  /** The output the recurrence would have in unbounded integers, for a fraction of the given
      size: 2^31 or 2^15. */
  function Unbounded(g: Gains, xs: seq<int>, one: int): int
    requires one > 0
  {
    var n := |xs|;
    if n == 0 then 0
    else Unbounded(g, xs[..n - 1], one) + (g.a0 * xs[n - 1] + g.a1 * At(xs, n - 2) + g.a2 * At(xs, n - 3)) / one
  }

  /** The last step of a run, seen from the run before it. */
  lemma LastStep(g: Gains, xs: seq<int>)
    requires |xs| > 0
    ensures var n, prev := |xs|, xs[..|xs| - 1];
            At(prev, n - 2) == At(xs, n - 2) && At(prev, n - 3) == At(xs, n - 3)
  {
  }

  /** The positional PID law: proportional, summed and differenced input. */
  function Positional(kp: int, ki: int, kd: int, xs: seq<int>): int
  {
    var n := |xs|;
    kp * At(xs, n - 1) + ki * Total(xs) + kd * (At(xs, n - 1) - At(xs, n - 2))
  }

  /** The derived gains of the documentation. */
  function DerivedGains(kp: int, ki: int, kd: int): Gains
  {
    Gains(kp + ki + kd, -kp - 2 * kd, kd)
  }

  /** After any run the state cells hold the last two inputs and the last output, and that
      output is the unbounded one reduced to 32 bits, however often it overflowed on the way. */
  lemma {:induction false} StateAfterRun(g: Gains, xs: seq<int>)
    ensures RunQ31(g, xs) == History(At(xs, |xs| - 1), At(xs, |xs| - 2), ToQ31(Unbounded(g, xs, 0x8000_0000)))
  {
    var n := |xs|;
    if n == 0 {
    } else {
      var prev := xs[..n - 1];
      StateAfterRun(g, prev);
      LastStep(g, xs);
      var k := Q31Wraps(Unbounded(g, prev, 0x8000_0000));
      var d := (g.a0 * xs[n - 1] + g.a1 * At(xs, n - 2) + g.a2 * At(xs, n - 3)) / 0x8000_0000;
      ToQ31Absorbs(ToQ31(Unbounded(g, prev, 0x8000_0000)) + d, k);
    }
  }

  /** Truncation drifts one way and by less than one unit a step: the incremental form stays
      within the number of steps of the positional law. */
  lemma {:induction false} DriftBound(kp: int, ki: int, kd: int, xs: seq<int>, one: int)
    requires one > 0
    ensures 0 <= Positional(kp, ki, kd, xs) - one * Unbounded(DerivedGains(kp, ki, kd), xs, one) <= |xs| * (one - 1)
  {
    var n := |xs|;
    var g := DerivedGains(kp, ki, kd);
    if n == 0 {
    } else {
      var prev := xs[..n - 1];
      DriftBound(kp, ki, kd, prev, one);
      LastStep(g, xs);
      var x, x1, x2 := xs[n - 1], At(xs, n - 2), At(xs, n - 3);
      Telescope(kp, ki, kd, x, x1, x2, Total(prev));
      DriftStep(g.a0 * x + g.a1 * x1 + g.a2 * x2, Unbounded(g, prev, one), one, Positional(kp, ki, kd, prev), n);
    }
  }

  lemma DriftStep(s: int, u: int, one: int, p: int, n: nat)
    requires one > 0 && n > 0 && 0 <= p - one * u <= (n - 1) * (one - 1)
    ensures 0 <= p + s - one * (u + s / one) <= n * (one - 1)
  {
    Recompose(s, one);
    assert one * (u + s / one) == one * u + s / one * one;
    assert n * (one - 1) == (n - 1) * (one - 1) + (one - 1);
  }

  /** One step of the incremental form is the difference of two positional values. */
  lemma Telescope(kp: int, ki: int, kd: int, x: int, x1: int, x2: int, total: int)
    ensures kp * x + ki * (total + x) + kd * (x - x1) - (kp * x1 + ki * total + kd * (x1 - x2))
         == (kp + ki + kd) * x + (-kp - 2 * kd) * x1 + kd * x2
  {
  }

  /** The controller meets the positional law, within one unit a step, exactly when the
      unbounded output fits in a word. Overflow before the last step does not matter. */
  lemma PidQ31TracksIff(kp: int, ki: int, kd: int, xs: seq<int>)
    requires 0 < |xs| <= 0x1_0000_0000
    ensures var g := DerivedGains(kp, ki, kd);
            0 <= Positional(kp, ki, kd, xs) - 0x8000_0000 * RunQ31(g, xs).y1 < |xs| * 0x8000_0000
            <==> FitsQ31(Unbounded(g, xs, 0x8000_0000))
  {
    var u := Unbounded(DerivedGains(kp, ki, kd), xs, 0x8000_0000);
    StateAfterRun(DerivedGains(kp, ki, kd), xs);
    DriftBound(kp, ki, kd, xs, 0x8000_0000);
    var k := Q31Wraps(u);
    TurnsShow(Positional(kp, ki, kd, xs), u, ToQ31(u), k, |xs|);
  }

  /** A lost turn of 2^32 moves the output by more than the drift of any such run. */
  lemma TurnsShow(p: int, exact: int, y: Q31, k: int, n: int)
    requires 0 <= p - 0x8000_0000 * exact <= n * 0x7FFF_FFFF && exact == y + k * 0x1_0000_0000
    requires 0 < n <= 0x1_0000_0000
    ensures 0 <= p - 0x8000_0000 * y < n * 0x8000_0000 <==> FitsQ31(exact)
  {
  }

  // ----- Q15

  function ExactQ15(g: Gains, h: History, x: int, extra: int): int
  {
    h.y1 + (Sum3(g, h, x) + extra) / 0x8000
  }

  /** The Q15 controller saturates; `extra` is what the packed build adds to the accumulator. */
  function NextQ15(g: Gains, h: History, x: int, extra: int): History
  {
    Shift(h, x, Sat16(ExactQ15(g, h, x, extra)))
  }

  /** On every state, from whatever run: the inputs move on, and the output is the exact value if
      it fits and the bound on its side if not. */
  lemma NextQ15Value(g: Gains, h: History, x: int, extra: int)
    ensures var v := h.y1 + (g.a0 * x + g.a1 * h.x1 + g.a2 * h.x2 + extra) / 0x8000;
            NextQ15(g, h, x, extra) ==
            History(x, h.x1, if v > 0x7FFF then 0x7FFF else if v < -0x8000 then -0x8000 else v)
  {
  }

  /** The scalar build, `ARM_MATH_CM0_FAMILY`. */
  class PidQ15 {
    var A0: Q15
    var A1: Q15
    var A2: Q15
    const state: array<Q15>

    ghost predicate Valid()
      reads this
    {
      state.Length == 3
    }

    ghost function GainsOf(): Gains
      reads this
    {
      Gains(A0, A1, A2)
    }

    ghost function StateOf(): History
      requires Valid()
      reads this, state
    {
      History(state[0], state[1], state[2])
    }

    constructor (a0: Q15, a1: Q15, a2: Q15)
      ensures Valid() && fresh(state) && GainsOf() == Gains(a0, a1, a2) && StateOf() == History(0, 0, 0)
    {
      A0, A1, A2 := a0, a1, a2;
      state := new Q15[3](_ => 0);
    }

    method Process(input: Q15) returns (out: Q15)
      requires Valid()
      modifies state
      ensures Valid()
      ensures var v := old(state[2]) + (A0 * input + A1 * old(state[0]) + A2 * old(state[1])) / 0x8000;
              out == if v > 0x7FFF then 0x7FFF else if v < -0x8000 then -0x8000 else v
      ensures state[0] == input && state[1] == old(state[0]) && state[2] == out
      ensures StateOf() == NextQ15(GainsOf(), old(StateOf()), input, 0) && out == StateOf().y1
    {
      ProductBound(A0, 0x8000, input, 0x8000);
      ProductBound(A1, 0x8000, state[0], 0x8000);
      ProductBound(A2, 0x8000, state[1], 0x8000);
      var p0: int, p1: int, p2: int := A0 * input, A1 * state[0], A2 * state[1];
      var acc: Q63 := p0;
      acc := acc + p1;
      acc := acc + p2;
      out := SaturateOutput(acc, state[2]);
      assert out == NextQ15(GainsOf(), StateOf(), input, 0).y1;
      state[1] := state[0];
      state[0] := input;
      state[2] := out;
    }
  }

  /** How both builds end: add y[n-1] in the accumulator's scale, shift, saturate. */
  method SaturateOutput(sum: Q63, y: Q15) returns (out: Q15)
    requires -0xC000_0001 <= sum <= 0xC000_0001
    ensures out == Sat16(y + sum / 0x8000)
  {
    var scaled: int := y * 0x8000;
    var acc: Q63 := sum + scaled;
    AccumulatorFits(sum, y);
    var sat := Ssat(ToQ31(acc / 0x8000), 16);
    SatToWidths(acc / 0x8000);
    out := ToQ15(sat);
  }

  /** Adding the scaled output commutes with the shift, and the shifted value fits the 32-bit
      parameter it is passed in. */
  lemma AccumulatorFits(s: int, y: Q15)
    requires -0xC000_0001 <= s <= 0xC000_0001
    ensures (s + y * 0x8000) / 0x8000 == y + s / 0x8000
    ensures ToQ31((s + y * 0x8000) / 0x8000) == (s + y * 0x8000) / 0x8000
    ensures ToQ15(Sat16(y + s / 0x8000)) == Sat16(y + s / 0x8000)
  {
    DivAddMultiple(s, y, 0x8000);
  }

  /** `__SMUAD`: the product of the high halves plus that of the low halves, in 32 bits. */
  function Smuad(x: Q31, y: Q31): Q31
  {
    ToQ31(x / 0x1_0000 * (y / 0x1_0000) + ToQ31(x * 0x1_0000) / 0x1_0000 * (ToQ31(y * 0x1_0000) / 0x1_0000))
  }

  /** `__SMLALD`: both products added to a 64-bit sum. */
  function Smlald(x: Q31, y: Q31, sum: Q63): Q63
  {
    MulAcc(sum, Half(x, 1), Half(y, 1), Half(x, 0), Half(y, 0))
  }

  function MulAcc(sum: Q63, a: Q15, b: Q15, c: Q15, d: Q15): Q63
  {
    ToQ63(sum + a * b + c * d)
  }

  /** On any operands: the products of like halves, summed in 32 and in 64 bits. */
  lemma DualProducts(x: Q31, y: Q31, sum: Q63)
    ensures Smuad(x, y) == ToQ31(Half(x, 1) * Half(y, 1) + Half(x, 0) * Half(y, 0))
    ensures Smlald(x, y, sum) == ToQ63(sum + Half(x, 1) * Half(y, 1) + Half(x, 0) * Half(y, 0))
  {
    TopHalf(x);
    TopHalf(y);
    LowHalfRead(x);
    LowHalfRead(y);
  }

  lemma LowHalfRead(x: Q31)
    ensures ToQ31(x * 0x1_0000) / 0x1_0000 == Half(x, 0)
  {
    HalfDigits(x);
    var low := Half(x, 0);
    DivModUnique(low, 0x1_0000, if low < 0 then -1 else 0, if low < 0 then low + 0x1_0000 else low);
    var k := if low < 0 then Half(x, 1) + 1 else Half(x, 1);
    ToQ31Is(x * 0x1_0000, low * 0x1_0000, k);
    DivModUnique(low * 0x1_0000, 0x1_0000, low, 0);
  }

  /** Two adjacent half-words read as one little-endian word. */
  function PackHalves(lo: Q15, hi: Q15): Q31 { hi * 0x1_0000 + lo % 0x1_0000 }

  /** Sign extension makes the high halves -1 or 0: the scalar product gains one exactly when
      both operands are negative. */
  lemma SmuadOfScalars(a: Q15, x: Q15)
    ensures Smuad(a, x) == a * x + if a < 0 && x < 0 then 1 else 0
  {
    LowHalfExtended(a);
    LowHalfExtended(x);
    ProductBound(a, 0x8000, x, 0x8000);
    var v := a * x + if a < 0 && x < 0 then 1 else 0;
    ToQ31Is(v, v, 0);
  }

  lemma LowHalfExtended(a: Q15)
    ensures ToQ31(a * 0x1_0000) / 0x1_0000 == a
    ensures a / 0x1_0000 == if a < 0 then -1 else 0
  {
  }

  /** What the packed accumulator has in excess of the scalar one. */
  function Excess(a0: int, x: int): int { if a0 < 0 && x < 0 then 1 else 0 }

  lemma PackedAccumulator(a0: Q15, a1: Q31, x: Q15, x1: Q15, x2: Q15)
    ensures var acc := Smlald(a1, PackHalves(x1, x2), Smuad(a0, x));
            && acc == a0 * x + Half(a1, 0) * x1 + Half(a1, 1) * x2 + Excess(a0, x)
            && -0xC000_0001 <= acc <= 0xC000_0001
  {
    ProductBound(a0, 0x8000, x, 0x8000);
    ProductBound(Half(a1, 0), 0x8000, x1, 0x8000);
    ProductBound(Half(a1, 1), 0x8000, x2, 0x8000);
    SmuadOfScalars(a0, x);
    SmlaldOfPair(a1, x1, x2, Smuad(a0, x));
    StoredSum(Smuad(a0, x), Half(a1, 1) * x2, Half(a1, 0) * x1);
  }

  lemma SmlaldOfPair(a1: Q31, x1: Q15, x2: Q15, sum: Q63)
    ensures Smlald(a1, PackHalves(x1, x2), sum) == MulAcc(sum, Half(a1, 1), x2, Half(a1, 0), x1)
  {
    WordHalves(x2, x1);
  }

  lemma StoredSum(a: int, b: int, c: int)
    requires -0x4000_0000 <= a <= 0x4000_0001 && -0x4000_0000 <= b <= 0x4000_0000 && -0x4000_0000 <= c <= 0x4000_0000
    ensures ToQ63(a + b + c) == a + b + c
  {
  }

  /** The packed build: A1 holds the second gain in its low half and the third in its high. */
  class PackedPidQ15 {
    var A0: Q15
    var A1: Q31
    const state: array<Q15>

    ghost predicate Valid()
      reads this
    {
      state.Length == 3
    }

    ghost function GainsOf(): Gains
      reads this
    {
      Gains(A0, Half(A1, 0), Half(A1, 1))
    }

    ghost function StateOf(): History
      requires Valid()
      reads this, state
    {
      History(state[0], state[1], state[2])
    }

    constructor (a0: Q15, a1: Q15, a2: Q15)
      ensures Valid() && fresh(state) && GainsOf() == Gains(a0, a1, a2) && StateOf() == History(0, 0, 0)
    {
      WordHalves(a2, a1);
      A0, A1 := a0, PackHalves(a1, a2);
      state := new Q15[3](_ => 0);
    }

    method Process(input: Q15) returns (out: Q15)
      requires Valid()
      modifies state
      ensures Valid()
      ensures var s := A0 * input + ToQ15(A1) * old(state[0]) + A1 / 0x1_0000 * old(state[1]);
              var v := old(state[2]) + (s + if A0 < 0 && input < 0 then 1 else 0) / 0x8000;
              out == if v > 0x7FFF then 0x7FFF else if v < -0x8000 then -0x8000 else v
      ensures state[0] == input && state[1] == old(state[0]) && state[2] == out
      ensures StateOf() == NextQ15(GainsOf(), old(StateOf()), input, Excess(A0, input)) && out == StateOf().y1
    {
      var vstate: Q31 := PackHalves(state[0], state[1]);
      TopHalf(A1);
      PackedAccumulator(A0, A1, input, state[0], state[1]);
      var acc: Q63 := Smuad(A0, input);
      acc := Smlald(A1, vstate, acc);
      out := SaturateOutput(acc, state[2]);
      assert out == NextQ15(GainsOf(), StateOf(), input, Excess(A0, input)).y1;
      state[1] := state[0];
      state[0] := input;
      state[2] := out;
    }
  }

  /** From equal states the builds differ, by one, exactly when the first gain and the input are
      both negative, the sum is one below a multiple of 2^15, and the exact output lies in the
      range from the least half-word to the last but greatest. */
  lemma PackedStepDiffersIff(g: Gains, h: History, x: Q15)
    ensures var scalar, packed := NextQ15(g, h, x, 0), NextQ15(g, h, x, Excess(g.a0, x));
            && packed.y1 - scalar.y1 ==
                 if g.a0 < 0 && x < 0 && Sum3(g, h, x) % 0x8000 == 0x7FFF && -0x8000 <= ExactQ15(g, h, x, 0) < 0x7FFF
                 then 1 else 0
  {
    NextQuotient(Sum3(g, h, x));
  }

  lemma NextQuotient(s: int)
    ensures (s + 1) / 0x8000 == s / 0x8000 + if s % 0x8000 == 0x7FFF then 1 else 0
  {
  }

  function RunQ15(g: Gains, xs: seq<int>): History
  {
    if xs == [] then History(0, 0, 0) else NextQ15(g, RunQ15(g, xs[..|xs| - 1]), xs[|xs| - 1], 0)
  }

  /** The Q15 output equals the unbounded one throughout a run exactly when that one fits in 16
      bits throughout; `DriftBound` then holds it to the positional law. */
  lemma {:induction false} PidQ15TracksIff(g: Gains, xs: seq<int>)
    ensures (forall k :: 0 <= k <= |xs| ==> RunQ15(g, xs[..k]).y1 == Unbounded(g, xs[..k], 0x8000))
            <==> (forall k :: 0 <= k <= |xs| ==> FitsQ15(Unbounded(g, xs[..k], 0x8000)))
  {
    forall k | 0 <= k <= |xs|
      ensures FitsQ15(RunQ15(g, xs[..k]).y1)
    {
      if k > 0 {
        assert FitsQ15(NextQ15(g, RunQ15(g, xs[..k][..k - 1]), xs[..k][k - 1], 0).y1);
      }
    }
    if forall k :: 0 <= k <= |xs| ==> FitsQ15(Unbounded(g, xs[..k], 0x8000)) {
      forall k | 0 <= k <= |xs|
        ensures RunQ15(g, xs[..k]).y1 == Unbounded(g, xs[..k], 0x8000)
      {
        UnsaturatedRun(g, xs, k);
      }
    }
  }

  lemma {:induction false} UnsaturatedRun(g: Gains, xs: seq<int>, k: nat)
    requires k <= |xs| && forall j :: 0 <= j <= k ==> FitsQ15(Unbounded(g, xs[..j], 0x8000))
    ensures RunQ15(g, xs[..k]) == History(At(xs, k - 1), At(xs, k - 2), Unbounded(g, xs[..k], 0x8000))
  {
    if k > 0 {
      UnsaturatedRun(g, xs, k - 1);
      assert xs[..k][..k - 1] == xs[..k - 1];
      assert At(xs[..k], k - 2) == At(xs, k - 2) && At(xs[..k], k - 3) == At(xs, k - 3);
      assert FitsQ15(Unbounded(g, xs[..k], 0x8000));
    }
  }

  function RunPackedQ15(g: Gains, xs: seq<int>): History
  {
    if xs == [] then History(0, 0, 0)
    else NextQ15(g, RunPackedQ15(g, xs[..|xs| - 1]), xs[|xs| - 1], Excess(g.a0, xs[|xs| - 1]))
  }

  /** How many steps of a run gave the packed accumulator its extra one. */
  function Excesses(a0: int, xs: seq<int>): nat
  {
    if xs == [] then 0 else Excesses(a0, xs[..|xs| - 1]) + Excess(a0, xs[|xs| - 1])
  }

  /** Over a whole run the packed build never falls below the scalar one and leads it by at most
      the number of such steps; the input cells agree throughout. */
  lemma {:induction false} BuildsStayClose(g: Gains, xs: seq<int>)
    ensures var s, p := RunQ15(g, xs), RunPackedQ15(g, xs);
            s.x1 == p.x1 && s.x2 == p.x2 && 0 <= p.y1 - s.y1 <= Excesses(g.a0, xs)
  {
    if xs == [] {
    } else {
      var n := |xs|;
      BuildsStayClose(g, xs[..n - 1]);
      var s, p := RunQ15(g, xs[..n - 1]), RunPackedQ15(g, xs[..n - 1]);
      assert Sum3(g, s, xs[n - 1]) == Sum3(g, p, xs[n - 1]);
      NextQuotient(Sum3(g, s, xs[n - 1]));
    }
  }
}
