/**
  The bitwise operators of C on unsigned words, defined bit by bit, and the lemmas that turn
  the masks of the library into arithmetic: a mask selects a field, its complement clears
  one, and an or of disjoint fields is a sum.
*/
module Bits {
  import opened MachineInt

  function And(a: nat, b: nat): nat
  {
    if a == 0 || b == 0 then 0
    else 2 * And(a / 2, b / 2) + (if a % 2 == 1 && b % 2 == 1 then 1 else 0)
  }

  function Or(a: nat, b: nat): nat
    decreases a + b
  {
    if a == 0 then b
    else if b == 0 then a
    else 2 * Or(a / 2, b / 2) + (if a % 2 == 1 || b % 2 == 1 then 1 else 0)
  }

  function Xor(a: nat, b: nat): nat
    decreases a + b
  {
    if a == 0 then b
    else if b == 0 then a
    else 2 * Xor(a / 2, b / 2) + (if a % 2 != b % 2 then 1 else 0)
  }

  /** The complement of a 32-bit word. */
  function Not32(a: U32): U32 { 0xFFFF_FFFF - a }

  /** Shifts of an unsigned word by a variable amount; the caller stores the left shift. */
  function Shr(x: nat, k: nat): (q: nat)
  {
    DivNonNegative(x, Pow2(k));
    x / Pow2(k)
  }

  function Shl(x: nat, k: nat): (p: nat)
  {
    MulNonNegative(x, Pow2(k));
    x * Pow2(k)
  }

  lemma DivNonNegative(x: nat, d: nat)
    requires d > 0
    ensures x / d >= 0
  {
  }

  // ----- splitting a word in two

  lemma Doubled(a: int, k: nat)
    requires k > 0
    ensures a * Pow2(k) == 2 * (a * Pow2(k - 1))
  {
    var p := Pow2(k - 1);
    assert a * (2 * p) == 2 * (a * p);
  }

  /** The lowest bit of a word lies in its low part, and halving the word halves that part. */
  lemma Halve(k: nat, a: nat, b: nat)
    requires k > 0 && b < Pow2(k)
    ensures a * Pow2(k) >= 0 && a * Pow2(k - 1) >= 0 && b / 2 < Pow2(k - 1)
    ensures (a * Pow2(k) + b) / 2 == a * Pow2(k - 1) + b / 2
    ensures (a * Pow2(k) + b) % 2 == b % 2
  {
    Doubled(a, k);
    MulNonNegative(a, Pow2(k));
    MulNonNegative(a, Pow2(k - 1));
  }

  lemma MulNonNegative(a: int, b: int)
    requires a >= 0 && b >= 0
    ensures a * b >= 0
  {
  }

  lemma {:induction false} AndSplit(k: nat, a: nat, b: nat, c: nat, d: nat)
    requires b < Pow2(k) && d < Pow2(k)
    ensures And(a * Pow2(k) + b, c * Pow2(k) + d) == And(a, c) * Pow2(k) + And(b, d)
  {
    if k == 0 {
    } else {
      Halve(k, a, b);
      Halve(k, c, d);
      AndSplit(k - 1, a, b / 2, c, d / 2);
      AndStep(a * Pow2(k) + b, c * Pow2(k) + d);
      AndStep(b, d);
      Doubled(And(a, c), k);
    }
  }

  lemma AndStep(a: nat, b: nat)
    ensures And(a, b) == 2 * And(a / 2, b / 2) + (if a % 2 == 1 && b % 2 == 1 then 1 else 0)
  {
  }

  lemma {:induction false} OrSplit(k: nat, a: nat, b: nat, c: nat, d: nat)
    requires b < Pow2(k) && d < Pow2(k)
    ensures Or(a * Pow2(k) + b, c * Pow2(k) + d) == Or(a, c) * Pow2(k) + Or(b, d)
  {
    if k == 0 {
    } else {
      Halve(k, a, b);
      Halve(k, c, d);
      OrSplit(k - 1, a, b / 2, c, d / 2);
      OrStep(a * Pow2(k) + b, c * Pow2(k) + d);
      OrStep(b, d);
      Doubled(Or(a, c), k);
    }
  }

  lemma OrStep(a: nat, b: nat)
    ensures Or(a, b) == 2 * Or(a / 2, b / 2) + (if a % 2 == 1 || b % 2 == 1 then 1 else 0)
  {
    if a == 0 {
      assert Or(0, b / 2) == b / 2;
    } else if b == 0 {
      assert Or(a / 2, 0) == a / 2;
    }
  }

  // ----- masks

  lemma {:induction false} AndOnes(k: nat, a: nat)
    requires a < Pow2(k)
    ensures And(a, Pow2(k) - 1) == a
  {
    if k == 0 {
    } else {
      assert (Pow2(k) - 1) / 2 == Pow2(k - 1) - 1;
      AndOnes(k - 1, a / 2);
      AndStep(a, Pow2(k) - 1);
    }
  }

  /** A word cut in three: the bits above, in, and below the w-bit field at bit k. */
  function Cut(top: nat, field: nat, low: nat, k: nat, w: nat): (x: nat)
    requires field < Pow2(w) && low < Pow2(k)
  {
    MulNonNegative(top, Pow2(w));
    MulNonNegative(top * Pow2(w) + field, Pow2(k));
    (top * Pow2(w) + field) * Pow2(k) + low
  }

  lemma Divide(x: nat, d: nat) returns (q: nat, r: nat)
    requires d > 0
    ensures q == x / d && r == x % d && x == q * d + r && r < d
  {
    q, r := x / d, x % d;
  }

  lemma CutApart(x: nat, k: nat, w: nat) returns (top: nat, field: nat, low: nat)
    ensures field < Pow2(w) && low < Pow2(k) && x == Cut(top, field, low, k, w)
    ensures top == x / Pow2(k) / Pow2(w) && field == x / Pow2(k) % Pow2(w) && low == x % Pow2(k)
  {
    var hi;
    hi, low := Divide(x, Pow2(k));
    top, field := Divide(hi, Pow2(w));
  }

  lemma {:induction false} AndCut(top: nat, field: nat, low: nat, t: nat, f: nat, l: nat, k: nat, w: nat)
    requires field < Pow2(w) && low < Pow2(k) && f < Pow2(w) && l < Pow2(k)
    ensures And(field, f) < Pow2(w) && And(low, l) < Pow2(k)
    ensures And(Cut(top, field, low, k, w), Cut(t, f, l, k, w)) == Cut(And(top, t), And(field, f), And(low, l), k, w)
  {
    AndBelow(field, f);
    AndBelow(low, l);
    MulNonNegative(top, Pow2(w));
    MulNonNegative(t, Pow2(w));
    var upper, upper' := top * Pow2(w) + field, t * Pow2(w) + f;
    assert And(upper, upper') == And(top, t) * Pow2(w) + And(field, f) by {
      AndSplit(w, top, field, t, f);
    }
    AndSplit(k, upper, low, upper', l);
  }

  lemma AndBelow(a: nat, b: nat)
    ensures And(a, b) <= a
  {
  }

  /** A mask of w ones above k zeros selects the w-bit field at bit k. */
  lemma AndField(x: nat, k: nat, w: nat)
    ensures (Pow2(w) - 1) * Pow2(k) >= 0
    ensures And(x, (Pow2(w) - 1) * Pow2(k)) == x / Pow2(k) % Pow2(w) * Pow2(k)
  {
    var top, field, low := CutApart(x, k, w);
    AndCutField(top, field, low, k, w);
  }

  lemma AndCutField(top: nat, field: nat, low: nat, k: nat, w: nat)
    requires field < Pow2(w) && low < Pow2(k)
    ensures (Pow2(w) - 1) * Pow2(k) >= 0
    ensures And(Cut(top, field, low, k, w), (Pow2(w) - 1) * Pow2(k)) == field * Pow2(k)
  {
    MulNonNegative(Pow2(w) - 1, Pow2(k));
    AndCut(top, field, low, 0, Pow2(w) - 1, 0, k, w);
    AndOnes(w, field);
    assert And(top, 0) == 0 && And(low, 0) == 0;
  }

  lemma AndLow(x: nat, w: nat)
    ensures And(x, Pow2(w) - 1) == x % Pow2(w)
  {
    AndField(x, 0, w);
  }

  lemma AndLowWord(x: nat)
    ensures And(x, 0xFFFF_FFFF) == x % 0x1_0000_0000
  {
    var ones: nat := 0xFFFF_FFFF;
    Pow2Values();
    AndLow(x, 32);
    assert Pow2(32) - 1 == ones;
  }

  lemma AndMask(x: nat, k: nat, w: nat, mask: nat)
    requires mask == (Pow2(w) - 1) * Pow2(k)
    ensures And(x, mask) == x / Pow2(k) % Pow2(w) * Pow2(k)
  {
    AndField(x, k, w);
  }

  /** The complement of a field mask clears the field and keeps the bits above and below it. */
  lemma {:induction false} AndCutClear(top: nat, field: nat, low: nat, k: nat, w: nat)
    requires k + w <= 32 && top < Pow2(32 - k - w) && field < Pow2(w) && low < Pow2(k)
    ensures 0 <= (Pow2(w) - 1) * Pow2(k) <= 0xFFFF_FFFF
    ensures And(Cut(top, field, low, k, w), Not32((Pow2(w) - 1) * Pow2(k))) == Cut(top, 0, low, k, w)
  {
    ClearMask(k, w);
    AndCut(top, field, low, Pow2(32 - k - w) - 1, 0, Pow2(k) - 1, k, w);
    AndOnes(32 - k - w, top);
    AndOnes(k, low);
    assert And(field, 0) == 0;
  }

  lemma FullWord(k: nat, w: nat)
    requires k + w <= 32
    ensures Pow2(32 - k - w) * Pow2(w) * Pow2(k) == 0x1_0000_0000
  {
    Pow2Add(32 - k - w, w);
    Pow2Add(32 - k, k);
    Pow2Values();
  }

  lemma ClearMask(k: nat, w: nat)
    requires k + w <= 32
    ensures 0 <= (Pow2(w) - 1) * Pow2(k) <= 0xFFFF_FFFF
    ensures Not32((Pow2(w) - 1) * Pow2(k)) == Cut(Pow2(32 - k - w) - 1, 0, Pow2(k) - 1, k, w)
  {
    FullWord(k, w);
    ClearMaskValue(Pow2(32 - k - w), Pow2(w), Pow2(k));
  }

  lemma ClearMaskValue(pu: nat, pw: nat, pk: nat)
    requires pu >= 1 && pw >= 1 && pk >= 1 && pu * pw * pk == 0x1_0000_0000
    ensures 0 <= (pw - 1) * pk <= 0xFFFF_FFFF
    ensures 0xFFFF_FFFF - (pw - 1) * pk == ((pu - 1) * pw + 0) * pk + (pk - 1)
  {
    MulNonNegative(pw - 1, pk);
    MulNonNegative(pu - 1, pw);
    MulNonNegative((pu - 1) * pw, pk);
    assert (pu - 1) * pw == pu * pw - pw;
    assert (pu * pw - pw) * pk == pu * pw * pk - pw * pk;
    assert (pw - 1) * pk == pw * pk - pk;
  }

  lemma TopBelow(top: nat, field: nat, low: nat, pk: nat, pw: nat, pu: nat)
    requires (top * pw + field) * pk + low < pu * pw * pk
    ensures top < pu
  {
    if top >= pu {
      MulOrder(pu, top, pw);
      MulOrder(pu * pw, top * pw + field, pk);
    }
  }

  /** An or of a low field and a word that is zero there is a sum. */
  lemma {:induction false} OrDisjoint(a: nat, k: nat, b: nat)
    requires b < Pow2(k)
    ensures Or(a * Pow2(k), b) == a * Pow2(k) + b
  {
    assert Or(a, 0) == a && Or(0, b) == b;
    OrSplit(k, a, 0, 0, b);
    assert a * Pow2(k) + 0 == a * Pow2(k) && 0 * Pow2(k) + b == b;
  }

  /** A one-bit mask tests one bit. */
  lemma AndBit(x: nat, k: nat)
    ensures And(x, Pow2(k)) == x / Pow2(k) % 2 * Pow2(k)
  {
    AndField(x, k, 1);
    Pow2Values();
  }
}
