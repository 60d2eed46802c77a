/**
  The truncated Newton step shared by `arm_recip_q31` and `arm_recip_q15`, for a word of half
  range h (2^31 or 2^15).

  The step aims at n * out == h*h/2. Its residual h*h/2 - n*out obeys an exact identity, from
  which every bound below follows: the step never overshoots, and it squares the residual up
  to the rounding of its two truncations.
*/
module Newton {
  import opened MachineInt

  /** One step: out * (h - 1 - (n*out >> log2 h)) >> (log2 h - 1). */
  function Step(h: int, n: int, out: int): int
    requires h >= 2
  {
    out * (h - 1 - n * out / h) / (h / 2)
  }

  function Target(h: int): int { h * h / 2 }

  function Residual(h: int, n: int, out: int): int { Target(h) - n * out }

  /** Half ranges are even; input and estimate are words of that range. */
  predicate InRange(h: int, n: int, out: int)
  {
    h >= 2 && h % 2 == 0 && 0 < n < h && 0 < out < h
  }

  lemma TargetOfHalf(h: int)
    requires h >= 2 && h % 2 == 0
    ensures Target(h) == h * (h / 2) && 2 * Target(h) == h * h && Target(h) > 0
  {
    var g := h / 2;
    assert h == 2 * g && h * h == 2 * (h * g);
    MulOrder(1, g, h);
  }

  /** The identity: T * D' is D^2 plus the two truncation remainders. */
  lemma StepIdentity(h: int, n: int, out: int) returns (r: int, e: int)
    requires InRange(h, n, out)
    ensures 0 < r <= h && 0 <= e < h / 2
    ensures Target(h) * Residual(h, n, Step(h, n, out))
         == Residual(h, n, out) * Residual(h, n, out) + n * out * r + n * (h * e)
  {
    var p, t, g := n * out, Target(h), h / 2;
    TargetOfHalf(h);
    var q := p / h;
    r := h - p % h;
    var tv := h - 1 - q;
    var out' := out * tv / g;
    e := out * tv % g;
    assert p == q * h + (h - r) by { Recompose(p, h); }
    assert h * tv == 2 * t - p - r;
    assert out * tv == out' * g + e by { Recompose(out * tv, g); }
    StepAlgebra(h, n, out, t, g, tv, r, e, out');
  }

  lemma StepAlgebra(h: int, n: int, out: int, t: int, g: int, tv: int, r: int, e: int, out': int)
    requires t == h * g && h * tv == 2 * t - n * out - r && out * tv == out' * g + e
    ensures t * (t - n * out') == (t - n * out) * (t - n * out) + n * out * r + n * (h * e)
  {
    var p := n * out;
    calc {
      t * (n * out');
      n * (h * (out' * g));
      n * (h * (out * tv - e));
      n * (out * (h * tv)) - n * (h * e);
      p * (2 * t - p - r) - n * (h * e);
    }
    assert p * (2 * t - p - r) == 2 * (p * t) - p * p - p * r;
    assert (t - p) * (t - p) == t * t - 2 * (p * t) + p * p;
    assert t * (t - n * out') == t * t - t * (n * out');
  }

  /** Never overshoots, and converges quadratically: 0 < D' and T*D' < D^2 + 3*h*T. */
  lemma StepContracts(h: int, n: int, out: int)
    requires InRange(h, n, out)
    ensures var d, d' := Residual(h, n, out), Residual(h, n, Step(h, n, out));
            0 < d' && Target(h) * d' < d * d + 3 * h * Target(h)
  {
    TargetOfHalf(h);
    var r, e := StepIdentity(h, n, out);
    ProductBelow(h, n, out);
    FirstRemainder(h, n * out, r, Target(h));
    SecondRemainder(h, n, e);
    Contraction(h, Target(h), Residual(h, n, out), Residual(h, n, Step(h, n, out)), n * out * r, n * (h * e));
  }

  lemma Contraction(h: int, t: int, d: int, d': int, first: int, second: int)
    requires t > 0 && t * d' == d * d + first + second
    requires 0 < first < 2 * (h * t) && 0 <= second < h * t
    ensures 0 < d' && t * d' < d * d + 3 * h * t
  {
    Square(d);
    PositiveFactor(t, d');
    assert 3 * h * t == 3 * (h * t);
  }

  lemma ProductBelow(h: int, n: int, out: int)
    requires 0 < n < h && 0 < out < h
    ensures 0 < n * out <= h * h - 2 * h + 1
  {
    MulOrder(1, n, out);
    MulOrder(n, h - 1, out);
    MulOrder(out, h - 1, h - 1);
    assert (h - 1) * (h - 1) == h * h - 2 * h + 1;
  }

  lemma FirstRemainder(h: int, p: int, r: int, t: int)
    requires h >= 2 && 2 * t == h * h && 0 < p < h * h && 0 < r <= h
    ensures 0 < p * r < 2 * (h * t)
  {
    MulStrict(0, p, r);
    MulOrder(r, h, p);
    MulStrict(p, 2 * t, h);
    assert (2 * t) * h == 2 * (h * t);
  }

  lemma SecondRemainder(h: int, n: int, e: int)
    requires h >= 2 && h % 2 == 0 && 0 < n < h && 0 <= e < h / 2
    ensures 0 <= n * (h * e) < h * Target(h)
  {
    TargetOfHalf(h);
    MulOrder(0, h, e);
    MulOrder(0, n, h * e);
    MulOrder(e, h / 2, h);
    MulOrder(h * e, Target(h), n);
    MulOrder(n, h - 1, Target(h));
    assert (h - 1) * Target(h) == h * Target(h) - Target(h);
  }

  lemma PositiveFactor(t: int, d: int)
    requires t > 0 && t * d > 0
    ensures d > 0
  {
    if d <= 0 {
      MulOrder(d, 0, t);
    }
  }

  lemma Square(d: int)
    ensures d * d >= 0
  {
  }

  /** The new estimate is again a word of the range: the step never wraps or saturates. */
  lemma StepStaysInRange(h: int, n: int, out: int)
    requires InRange(h, n, out) && h / 2 <= n
    ensures 0 <= Step(h, n, out) < h
    ensures 0 < h - 1 - n * out / h < h
  {
    CorrectionInRange(h, n, out);
    MulOrder(1, out, h - 1 - n * out / h);
    StaysPositive(h, n, out);
    BelowRange(h, n, Step(h, n, out));
  }

  lemma StaysPositive(h: int, n: int, out: int)
    requires InRange(h, n, out)
    ensures Residual(h, n, Step(h, n, out)) > 0
  {
    StepContracts(h, n, out);
  }

  lemma BelowRange(h: int, n: int, out: int)
    requires h >= 2 && h % 2 == 0 && h / 2 <= n && Residual(h, n, out) > 0
    ensures out < h
  {
    TargetOfHalf(h);
    if out >= h {
      MulOrder(h / 2, n, out);
      MulOrder(h, out, h / 2);
    }
  }

  lemma CorrectionInRange(h: int, n: int, out: int)
    requires InRange(h, n, out)
    ensures 0 <= n * out / h < h - 1
  {
    ProductBelow(h, n, out);
    Recompose(n * out, h);
    QuotientBelow(n * out, h, n * out / h, n * out % h);
  }

  lemma QuotientBelow(p: int, h: int, q: int, r: int)
    requires h >= 2 && 0 < p <= h * h - 2 * h + 1 && p == q * h + r && 0 <= r < h
    ensures 0 <= q < h - 1
  {
    assert (h - 1) * h == h * h - h;
    if q >= h - 1 {
      MulOrder(h - 1, q, h);
    } else if q < 0 {
      MulOrder(q, -1, h);
    }
  }

  /** A residual bound carries through a step. */
  lemma StepBound(h: int, n: int, out: int, bound: int, bound': int)
    requires InRange(h, n, out) && Abs(Residual(h, n, out)) <= bound
    requires bound * bound + 3 * h * Target(h) <= Target(h) * bound'
    ensures 0 < Residual(h, n, Step(h, n, out)) < bound'
  {
    var d, t := Residual(h, n, out), Target(h);
    var d' := Residual(h, n, Step(h, n, out));
    StepContracts(h, n, out);
    TargetOfHalf(h);
    SquareBound(d, bound);
    FactorBelow(t, d', bound');
  }

  lemma SquareBound(d: int, bound: int)
    requires Abs(d) <= bound
    ensures d * d <= bound * bound
  {
    MulOrder(Abs(d), bound, Abs(d));
    MulOrder(Abs(d), bound, bound);
  }

  lemma FactorBelow(t: int, d: int, bound: int)
    requires t > 0 && t * d < t * bound
    ensures d < bound
  {
    if d >= bound {
      MulOrder(bound, d, t);
    }
  }

  /** An estimate whose residual is below the target is positive. */
  lemma PositiveEstimate(h: int, n: int, out: int)
    requires n > 0 && Residual(h, n, out) < Target(h)
    ensures out > 0
  {
    if out <= 0 {
      MulOrder(out, 0, n);
    }
  }
}
