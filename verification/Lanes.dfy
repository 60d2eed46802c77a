/**
  The packed-lane arithmetic arm_math.h defines in C for cores without the SIMD instructions:
  four signed bytes or two signed half-words in one 32-bit word.
*/
module Lanes {
  import opened MachineInt
  import opened Bits
  import opened Saturate

  /** The k-th signed byte of a word, 0 the lowest. */
  function Byte(x: Q31, k: nat): Q7
    requires k < 4
  {
    match k
    case 0 => ToQ7(x)
    case 1 => ToQ7(x / 0x100)
    case 2 => ToQ7(x / 0x1_0000)
    case _ => ToQ7(x / 0x100_0000)
  }

  /** The k-th signed half-word, 0 the lower. */
  function Half(x: Q31, k: nat): Q15
    requires k < 2
  {
    if k == 0 then ToQ15(x) else ToQ15(x / 0x1_0000)
  }

  // ----- the digits of a word

  /** A word as a signed top byte above three unsigned ones. */
  function Word(d3: Q7, d2: U8, d1: U8, d0: U8): Q31
  {
    d3 * 0x100_0000 + d2 * 0x1_0000 + d1 * 0x100 + d0
  }

  lemma Digits(x: Q31) returns (d3: Q7, d2: U8, d1: U8, d0: U8)
    ensures x == Word(d3, d2, d1, d0)
  {
    d0 := x % 0x100;
    var x1 := x / 0x100;
    d1 := x1 % 0x100;
    var x2 := x1 / 0x100;
    d2 := x2 % 0x100;
    d3 := x2 / 0x100;
  }

  lemma WordBytes(d3: Q7, d2: U8, d1: U8, d0: U8)
    ensures var x := Word(d3, d2, d1, d0);
            Byte(x, 3) == d3 && Byte(x, 2) == ToQ7(d2) && Byte(x, 1) == ToQ7(d1) && Byte(x, 0) == ToQ7(d0)
  {
    DigitAt(d3, 0, d2 * 0x1_0000 + d1 * 0x100 + d0, 0x100_0000);
    DigitAt(d2, d3, d1 * 0x100 + d0, 0x1_0000);
    DigitAt(d1, d3 * 0x100 + d2, d0, 0x100);
    DigitAt(d0, d3 * 0x1_0000 + d2 * 0x100 + d1, 0, 1);
    ToQ7Is(d3, d3, 0);
  }

  lemma DigitAt(digit: int, above: int, below: nat, place: nat)
    requires below < place
    ensures ToQ7(((above * 0x100 + digit) * place + below) / place) == ToQ7(digit)
  {
    DivModUnique((above * 0x100 + digit) * place + below, place, above * 0x100 + digit, below);
    var m := Q7Wraps(digit);
    ToQ7Is(above * 0x100 + digit, ToQ7(digit), above + m);
  }

  lemma SameByte(a: U8, b: U8)
    requires ToQ7(a) == ToQ7(b)
    ensures a == b
  {
  }

  /** Two words with the same lanes are the same word, so the lane laws below determine the
      whole result. */
  lemma BytesDetermineWord(x: Q31, y: Q31)
    requires forall k :: 0 <= k < 4 ==> Byte(x, k) == Byte(y, k)
    ensures x == y
  {
    var x3, x2, x1, x0 := Digits(x);
    var y3, y2, y1, y0 := Digits(y);
    WordBytes(x3, x2, x1, x0);
    WordBytes(y3, y2, y1, y0);
    assert Byte(x, 3) == Byte(y, 3) && Byte(x, 2) == Byte(y, 2) && Byte(x, 1) == Byte(y, 1) && Byte(x, 0) == Byte(y, 0);
    SameByte(x2, y2);
    SameByte(x1, y1);
    SameByte(x0, y0);
  }

  /** The same for the two half-words. */
  lemma HalvesDetermineWord(x: Q31, y: Q31)
    requires Half(x, 0) == Half(y, 0) && Half(x, 1) == Half(y, 1)
    ensures x == y
  {
    HalfDigits(x);
    HalfDigits(y);
  }

  /** A word is its signed top half above the digits of its bottom half. */
  lemma HalfDigits(x: Q31)
    ensures x == Half(x, 1) * 0x1_0000 + Half(x, 0) % 0x1_0000
  {
    TopHalf(x);
    Recompose(x, 0x1_0000);
    LowHalfDigits(x, x / 0x1_0000, x % 0x1_0000);
  }

  lemma LowHalfDigits(x: int, q: int, r: U16)
    requires x == q * 0x1_0000 + r
    ensures ToQ15(x) % 0x1_0000 == r
  {
    if r < 0x8000 {
      ToQ15Is(x, r, q);
      DivModUnique(r, 0x1_0000, 0, r);
    } else {
      ToQ15Is(x, r - 0x1_0000, q + 1);
      DivModUnique(r - 0x1_0000, 0x1_0000, -1, r);
    }
  }

  /** The or of four masked byte fields, as the byte operations end. */
  function JoinBytes(u: int, t: int, s: int, r: int): Q31
  {
    ToQ31(Or(Or(Or(And(ToU32(u), 0xFF00_0000), And(ToU32(t), 0xFF_0000)), And(ToU32(s), 0xFF00)), And(ToU32(r), 0xFF)))
  }

  /** The or of two masked half-word fields. */
  function JoinHalves(s: int, r: int): Q31
  {
    ToQ31(Or(And(ToU32(s), 0xFFFF_0000), And(ToU32(r), 0xFFFF)))
  }

  /** The sign-extended byte k as the byte operations read it: the inner two are isolated by
      shifting left, then arithmetically right. */
  function ReadByte(x: Q31, k: nat): int
    requires k < 4
  {
    match k
    case 0 => ToQ7(x)
    case 1 => ToQ31(x * 0x1_0000) / 0x100_0000
    case 2 => ToQ31(x * 0x100) / 0x100_0000
    case _ => x / 0x100_0000
  }

  /** `__QADD8`. */
  function QAdd8(x: Q31, y: Q31): Q31
  {
    var r: Q7 := ToQ7(SatTo(ReadByte(x, 0) + ReadByte(y, 0), 8));
    var s: Q7 := ToQ7(SatTo(ReadByte(x, 1) + ReadByte(y, 1), 8));
    var t: Q7 := ToQ7(SatTo(ReadByte(x, 2) + ReadByte(y, 2), 8));
    var u: Q7 := ToQ7(SatTo(ReadByte(x, 3) + ReadByte(y, 3), 8));
    JoinBytes(u * 0x100_0000, t * 0x1_0000, s * 0x100, r)
  }

  /** `__QSUB8`. */
  function QSub8(x: Q31, y: Q31): Q31
  {
    var r := SatTo(ReadByte(x, 0) - ReadByte(y, 0), 8);
    var s := SatTo(ReadByte(x, 1) - ReadByte(y, 1), 8) * 0x100;
    var t := SatTo(ReadByte(x, 2) - ReadByte(y, 2), 8) * 0x1_0000;
    var u := SatTo(ReadByte(x, 3) - ReadByte(y, 3), 8) * 0x100_0000;
    JoinBytes(u, t, s, r)
  }

  /** `__QADD16`. */
  function QAdd16(x: Q31, y: Q31): Q31
  {
    var r := SatTo(ToQ15(x) + ToQ15(y), 16);
    var s := SatTo(x / 0x1_0000 + y / 0x1_0000, 16) * 0x1_0000;
    JoinHalves(s, r)
  }

  /** `__QSUB16`. */
  function QSub16(x: Q31, y: Q31): Q31
  {
    var r := SatTo(ToQ15(x) - ToQ15(y), 16);
    var s := SatTo(x / 0x1_0000 - y / 0x1_0000, 16) * 0x1_0000;
    JoinHalves(s, r)
  }

  /** `__SHADD16`: each operand is halved before the sum. */
  function ShAdd16(x: Q31, y: Q31): Q31
  {
    var r := ToQ15(x) / 2 + ToQ15(y) / 2;
    var s := ToQ31((x / 0x2_0000 + y / 0x2_0000) * 0x1_0000);
    JoinHalves(s, r)
  }

  /** How the crossed operations pack their two clipped results: added, not or-ed. */
  function AddHalves(hi: Q31, lo: Q31): Q31
  {
    ToQ31(ToQ31(ClipQ31ToQ15(hi) * 0x1_0000) + ClipQ31ToQ15(lo))
  }

  /** `__QASX`: crossed halves, sum on top, difference below. */
  function QAsx(x: Q31, y: Q31): Q31
  {
    AddHalves(Half(x, 1) + Half(y, 0), Half(x, 0) - Half(y, 1))
  }

  /** `__QSAX`: crossed halves, difference on top, sum below. */
  function QSax(x: Q31, y: Q31): Q31
  {
    AddHalves(Half(x, 1) - Half(y, 0), Half(x, 0) + Half(y, 1))
  }

  // ----- joining lanes

  lemma JoinBytesLanes(u: Q7, t: Q7, s: Q7, r: Q7)
    ensures var w := JoinBytes(u * 0x100_0000, t * 0x1_0000, s * 0x100, r);
            Byte(w, 3) == u && Byte(w, 2) == t && Byte(w, 1) == s && Byte(w, 0) == r
  {
    JoinBytesWord(u, t, s, r);
    WordBytes(u, t % 0x100, s % 0x100, r % 0x100);
    UnsignedBack(t);
    UnsignedBack(s);
    UnsignedBack(r);
  }

  lemma JoinedByte(u: Q7, t: Q7, s: Q7, r: Q7, k: nat)
    requires k < 4
    ensures Byte(JoinBytes(u * 0x100_0000, t * 0x1_0000, s * 0x100, r), k) == [r, s, t, u][k]
  {
    JoinBytesLanes(u, t, s, r);
  }

  lemma JoinBytesWord(u: Q7, t: Q7, s: Q7, r: Q7)
    ensures JoinBytes(u * 0x100_0000, t * 0x1_0000, s * 0x100, r) == Word(u, t % 0x100, s % 0x100, r % 0x100)
  {
    var fu := MaskedByte(u, 24, 0x100_0000, 0xFF00_0000);
    var ft := MaskedByte(t, 16, 0x1_0000, 0xFF_0000);
    var fs := MaskedByte(s, 8, 0x100, 0xFF00);
    var fr := MaskedByte(r, 0, 1, 0xFF);
    OrOfBytes(fu, ft, fs, fr, u % 0x100, t % 0x100, s % 0x100, r % 0x100);
    TopByteSigned(u, t % 0x100, s % 0x100, r % 0x100);
  }

  lemma MaskedByte(v: Q7, k: nat, place: nat, mask: nat) returns (field: nat)
    requires (k, place, mask) in {(24, 0x100_0000, 0xFF00_0000), (16, 0x1_0000, 0xFF_0000),
                              (8, 0x100, 0xFF00), (0, 1, 0xFF)}
    ensures field == And(ToU32(v * place), mask) == v % 0x100 * place
  {
    field := And(ToU32(v * place), mask);
    Pow2Values();
    MaskedLane(v, k, 8, 0x1_0000_0000 / (place * 0x100), mask);
  }

  lemma MaskedHalf(v: Q15, k: nat, place: nat, mask: nat) returns (field: nat)
    requires (k, place, mask) in {(16, 0x1_0000, 0xFFFF_0000), (0, 1, 0xFFFF)}
    ensures field == And(ToU32(v * place), mask) == v % 0x1_0000 * place
  {
    field := And(ToU32(v * place), mask);
    Pow2Values();
    MaskedLane(v, k, 16, 0x1_0000_0000 / (place * 0x1_0000), mask);
  }

  /** Masking a shifted signed lane leaves its unsigned digit in place. */
  lemma MaskedLane(v: int, k: nat, w: nat, top: nat, mask: nat)
    requires mask == (Pow2(w) - 1) * Pow2(k) && top * (Pow2(k) * Pow2(w)) == 0x1_0000_0000
    ensures And(ToU32(v * Pow2(k)), mask) == v % Pow2(w) * Pow2(k)
  {
    var turns := v * Pow2(k) / 0x1_0000_0000;
    var x := ToU32(v * Pow2(k));
    assert x == v * Pow2(k) - turns * 0x1_0000_0000;
    LaneDigit(v, Pow2(k), Pow2(w), top, turns);
    AndMask(x, k, w, mask);
  }

  lemma LaneDigit(v: int, place: nat, modulus: nat, top: nat, turns: int)
    requires place > 0 && modulus > 0 && top * (place * modulus) == 0x1_0000_0000
    ensures (v * place - turns * 0x1_0000_0000) / place % modulus == v % modulus
  {
    var n := v - turns * top * modulus;
    assert v * place - turns * 0x1_0000_0000 == n * place by {
      assert turns * (top * (place * modulus)) == turns * top * modulus * place;
    }
    DivModUnique(n * place, place, n, 0);
    DivAddMultiple(v, -turns * top, modulus);
  }

  lemma OrOfBytes(fu: nat, ft: nat, fs: nat, fr: nat, a: U8, b: U8, c: U8, d: U8)
    requires fu == a * 0x100_0000 && ft == b * 0x1_0000 && fs == c * 0x100 && fr == d
    ensures Or(Or(Or(fu, ft), fs), fr) == a * 0x100_0000 + b * 0x1_0000 + c * 0x100 + d
  {
    Pow2Values();
    OrDisjoint(a, 24, ft);
    OrDisjoint(a * 0x100 + b, 16, fs);
    OrDisjoint((a * 0x100 + b) * 0x100 + c, 8, fr);
  }

  /** Reading the joined word as signed makes its top byte signed. */
  lemma TopByteSigned(u: Q7, d2: U8, d1: U8, d0: U8)
    ensures ToQ31(u % 0x100 * 0x100_0000 + d2 * 0x1_0000 + d1 * 0x100 + d0) == Word(u, d2, d1, d0)
  {
    ToQ31Is(u % 0x100 * 0x100_0000 + d2 * 0x1_0000 + d1 * 0x100 + d0, Word(u, d2, d1, d0), if u < 0 then 1 else 0);
  }

  lemma UnsignedBack(v: Q7)
    ensures ToQ7(v % 0x100) == v
  {
  }

  lemma JoinHalvesLanes(s: Q15, r: Q15)
    ensures var w := JoinHalves(s * 0x1_0000, r); Half(w, 1) == s && Half(w, 0) == r
  {
    JoinHalvesWord(s, r);
    WordHalves(s, r);
  }

  lemma JoinHalvesWord(s: Q15, r: Q15)
    ensures JoinHalves(s * 0x1_0000, r) == s * 0x1_0000 + r % 0x1_0000
  {
    var fs := MaskedHalf(s, 16, 0x1_0000, 0xFFFF_0000);
    var fr := MaskedHalf(r, 0, 1, 0xFFFF);
    OrOfHalves(fs, fr, s % 0x1_0000, r % 0x1_0000);
    TopHalfSigned(s, r % 0x1_0000);
  }

  lemma TopHalfSigned(s: Q15, low: U16)
    ensures ToQ31(s % 0x1_0000 * 0x1_0000 + low) == s * 0x1_0000 + low
  {
    ToQ31Is(s % 0x1_0000 * 0x1_0000 + low, s * 0x1_0000 + low, if s < 0 then 1 else 0);
  }

  lemma OrOfHalves(fs: nat, fr: nat, a: U16, b: U16)
    requires fs == a * 0x1_0000 && fr == b
    ensures Or(fs, fr) == fs + fr
  {
    Pow2Values();
    OrDisjoint(a, 16, fr);
  }

  lemma WordHalves(s: Q15, r: Q15)
    ensures Half(s * 0x1_0000 + r % 0x1_0000, 1) == s && Half(s * 0x1_0000 + r % 0x1_0000, 0) == r
  {
    DivModUnique(s * 0x1_0000 + r % 0x1_0000, 0x1_0000, s, r % 0x1_0000);
    ToQ15Is(s * 0x1_0000 + r % 0x1_0000, r, if r < 0 then s + 1 else s);
  }

  // ----- the lane laws

  lemma ReadByteIsByte(x: Q31, k: nat)
    requires k < 4
    ensures ReadByte(x, k) == Byte(x, k)
  {
    match k
    case 0 =>
    case 1 => ShiftedByte(x, 0x100, 0x1_0000);
    case 2 => ShiftedByte(x, 0x1_0000, 0x100);
    case _ =>
  }

  lemma ShiftedByte(x: Q31, down: int, up: int)
    requires (down, up) in {(0x100, 0x1_0000), (0x1_0000, 0x100)}
    ensures ToQ31(x * up) / 0x100_0000 == ToQ7(x / down)
  {
    var lo, q := x % down, x / down;
    var s, m := ToQ7(q), (q + 0x80) / 0x100;
    ToQ31Is(x * up, (s * down + lo) * up, m);
    DivModUnique((s * down + lo) * up, 0x100_0000, s, lo * up);
  }

  lemma SaturatedLane(v: int)
    ensures SatTo(v, 8) == Sat8(v) && ToQ7(SatTo(v, 8)) == Sat8(v)
  {
    SatToWidths(v);
    ToQ7Is(Sat8(v), Sat8(v), 0);
  }

  lemma QAdd8Lane(x: Q31, y: Q31, k: nat) returns (lane: Q7)
    requires k < 4
    ensures lane == ToQ7(SatTo(ReadByte(x, k) + ReadByte(y, k), 8)) == Sat8(Byte(x, k) + Byte(y, k))
  {
    lane := Sat8(Byte(x, k) + Byte(y, k));
    ReadByteIsByte(x, k);
    ReadByteIsByte(y, k);
    SaturatedLane(ReadByte(x, k) + ReadByte(y, k));
  }

  lemma QAdd8Word(x: Q31, y: Q31, u: Q7, t: Q7, s: Q7, r: Q7)
    requires u == ToQ7(SatTo(ReadByte(x, 3) + ReadByte(y, 3), 8))
    requires t == ToQ7(SatTo(ReadByte(x, 2) + ReadByte(y, 2), 8))
    requires s == ToQ7(SatTo(ReadByte(x, 1) + ReadByte(y, 1), 8))
    requires r == ToQ7(SatTo(ReadByte(x, 0) + ReadByte(y, 0), 8))
    ensures QAdd8(x, y) == JoinBytes(u * 0x100_0000, t * 0x1_0000, s * 0x100, r)
  {
  }

  /** `__QADD8` saturates each byte lane on its own, for all words. */
  lemma QAdd8IsLaneSaturation(x: Q31, y: Q31, k: nat)
    requires k < 4
    ensures Byte(QAdd8(x, y), k) == Sat8(Byte(x, k) + Byte(y, k))
  {
    var u := QAdd8Lane(x, y, 3);
    var t := QAdd8Lane(x, y, 2);
    var s := QAdd8Lane(x, y, 1);
    var r := QAdd8Lane(x, y, 0);
    QAdd8Word(x, y, u, t, s, r);
    JoinedByte(u, t, s, r, k);
  }

  lemma QSub8Lane(x: Q31, y: Q31, k: nat) returns (lane: Q7)
    requires k < 4
    ensures lane == SatTo(ReadByte(x, k) - ReadByte(y, k), 8) == Sat8(Byte(x, k) - Byte(y, k))
  {
    lane := Sat8(Byte(x, k) - Byte(y, k));
    ReadByteIsByte(x, k);
    ReadByteIsByte(y, k);
    SaturatedLane(ReadByte(x, k) - ReadByte(y, k));
  }

  lemma QSub8Word(x: Q31, y: Q31, u: Q7, t: Q7, s: Q7, r: Q7)
    requires u == SatTo(ReadByte(x, 3) - ReadByte(y, 3), 8) && t == SatTo(ReadByte(x, 2) - ReadByte(y, 2), 8)
    requires s == SatTo(ReadByte(x, 1) - ReadByte(y, 1), 8) && r == SatTo(ReadByte(x, 0) - ReadByte(y, 0), 8)
    ensures QSub8(x, y) == JoinBytes(u * 0x100_0000, t * 0x1_0000, s * 0x100, r)
  {
  }

  /** `__QSUB8` saturates each byte lane on its own, for all words. */
  lemma QSub8IsLaneSaturation(x: Q31, y: Q31, k: nat)
    requires k < 4
    ensures Byte(QSub8(x, y), k) == Sat8(Byte(x, k) - Byte(y, k))
  {
    var u := QSub8Lane(x, y, 3);
    var t := QSub8Lane(x, y, 2);
    var s := QSub8Lane(x, y, 1);
    var r := QSub8Lane(x, y, 0);
    QSub8Word(x, y, u, t, s, r);
    JoinedByte(u, t, s, r, k);
  }

  lemma QAdd16Word(x: Q31, y: Q31, s: Q15, r: Q15)
    requires s == Sat16(Half(x, 1) + Half(y, 1)) && r == Sat16(Half(x, 0) + Half(y, 0))
    ensures QAdd16(x, y) == JoinHalves(s * 0x1_0000, r)
  {
    SatToWidths(ToQ15(x) + ToQ15(y));
    SatToWidths(x / 0x1_0000 + y / 0x1_0000);
    TopHalf(x);
    TopHalf(y);
  }

  lemma QAdd16IsLaneSaturation(x: Q31, y: Q31)
    ensures forall k :: 0 <= k < 2 ==> Half(QAdd16(x, y), k) == Sat16(Half(x, k) + Half(y, k))
  {
    var s := Sat16(Half(x, 1) + Half(y, 1));
    var r := Sat16(Half(x, 0) + Half(y, 0));
    QAdd16Word(x, y, s, r);
    JoinHalvesLanes(s, r);
  }

  lemma QSub16Word(x: Q31, y: Q31, s: Q15, r: Q15)
    requires s == Sat16(Half(x, 1) - Half(y, 1)) && r == Sat16(Half(x, 0) - Half(y, 0))
    ensures QSub16(x, y) == JoinHalves(s * 0x1_0000, r)
  {
    SatToWidths(ToQ15(x) - ToQ15(y));
    SatToWidths(x / 0x1_0000 - y / 0x1_0000);
    TopHalf(x);
    TopHalf(y);
  }

  lemma QSub16IsLaneSaturation(x: Q31, y: Q31)
    ensures forall k :: 0 <= k < 2 ==> Half(QSub16(x, y), k) == Sat16(Half(x, k) - Half(y, k))
  {
    var s := Sat16(Half(x, 1) - Half(y, 1));
    var r := Sat16(Half(x, 0) - Half(y, 0));
    QSub16Word(x, y, s, r);
    JoinHalvesLanes(s, r);
  }

  lemma TopHalf(x: Q31)
    ensures x / 0x1_0000 == Half(x, 1)
  {
  }

  /** Halving first loses the carry of two odd operands: a lane is the floor of the mean exactly
      when its operands are not both odd, and is one less otherwise. */
  lemma ShAdd16IsMeanIff(x: Q31, y: Q31, k: nat)
    requires k < 2
    ensures var a, b := Half(x, k), Half(y, k);
            Half(ShAdd16(x, y), k) == (a + b) / 2 - if a % 2 == 1 && b % 2 == 1 then 1 else 0
  {
    var s1 := HalfMean(Half(x, 1), Half(y, 1));
    var s0 := HalfMean(Half(x, 0), Half(y, 0));
    ShAdd16Word(x, y, s1, s0);
    JoinHalvesLanes(s1, s0);
  }

  lemma ShAdd16Word(x: Q31, y: Q31, s1: Q15, s0: Q15)
    requires s1 == Half(x, 1) / 2 + Half(y, 1) / 2 && s0 == Half(x, 0) / 2 + Half(y, 0) / 2
    ensures ShAdd16(x, y) == JoinHalves(s1 * 0x1_0000, s0)
  {
    TopHalved(x);
    TopHalved(y);
    assert s1 == x / 0x2_0000 + y / 0x2_0000;
    ShAddWord(x, y, s1, s0);
    ToQ31Is(s1 * 0x1_0000, s1 * 0x1_0000, 0);
  }

  lemma ShAddWord(x: Q31, y: Q31, s1: int, s0: int)
    requires s1 == x / 0x2_0000 + y / 0x2_0000 && s0 == ToQ15(x) / 2 + ToQ15(y) / 2
    ensures ShAdd16(x, y) == JoinHalves(ToQ31(s1 * 0x1_0000), s0)
  {
  }

  lemma TopHalved(x: Q31)
    ensures x / 0x2_0000 == Half(x, 1) / 2
  {
  }

  lemma HalfMean(a: Q15, b: Q15) returns (m: Q15)
    ensures m == a / 2 + b / 2 == (a + b) / 2 - if a % 2 == 1 && b % 2 == 1 then 1 else 0
  {
    m := a / 2 + b / 2;
  }

  /** The crossed sum's low lane is always the saturated difference. A negative low half is added
      with its sign and borrows one from the half above, so the high lane is the saturated sum
      exactly when that difference is not negative, and otherwise one less, wrapping below the
      most negative lane. */
  lemma QAsxLanes(x: Q31, y: Q31)
    ensures Half(QAsx(x, y), 0) == Sat16(Half(x, 0) - Half(y, 1))
    ensures Half(QAsx(x, y), 1) == ToQ15(Sat16(Half(x, 1) + Half(y, 0)) - if Half(x, 0) < Half(y, 1) then 1 else 0)
    ensures Half(QAsx(x, y), 1) == Sat16(Half(x, 1) + Half(y, 0)) <==> Half(x, 0) >= Half(y, 1)
  {
    AddHalvesLanes(Half(x, 1) + Half(y, 0), Half(x, 0) - Half(y, 1));
  }

  /** The same borrow in the crossed difference. */
  lemma QSaxLanes(x: Q31, y: Q31)
    ensures Half(QSax(x, y), 0) == Sat16(Half(x, 0) + Half(y, 1))
    ensures Half(QSax(x, y), 1) == ToQ15(Sat16(Half(x, 1) - Half(y, 0)) - if Half(x, 0) + Half(y, 1) < 0 then 1 else 0)
    ensures Half(QSax(x, y), 1) == Sat16(Half(x, 1) - Half(y, 0)) <==> Half(x, 0) + Half(y, 1) >= 0
  {
    AddHalvesLanes(Half(x, 1) - Half(y, 0), Half(x, 0) + Half(y, 1));
  }

  lemma AddHalvesLanes(hi: Q31, lo: Q31)
    ensures Half(AddHalves(hi, lo), 0) == Sat16(lo)
    ensures Half(AddHalves(hi, lo), 1) == ToQ15(Sat16(hi) - if lo < 0 then 1 else 0)
    ensures Half(AddHalves(hi, lo), 1) == Sat16(hi) <==> lo >= 0
  {
    ClipQ31ToQ15Saturates(hi);
    ClipQ31ToQ15Saturates(lo);
    AddedLanes(ClipQ31ToQ15(hi), ClipQ31ToQ15(lo));
  }

  lemma AddedLanes(hi: Q15, lo: Q15)
    ensures var w := ToQ31(ToQ31(hi * 0x1_0000) + lo);
            && Half(w, 0) == lo
            && Half(w, 1) == ToQ15(hi - if lo < 0 then 1 else 0)
            && (Half(w, 1) == hi <==> lo >= 0)
  {
    var m := Q31Wraps(hi * 0x1_0000 + lo);
    var w := ToQ31(hi * 0x1_0000 + lo);
    ToQ31Is(hi * 0x1_0000, hi * 0x1_0000, 0);
    ToQ15Is(w, lo, hi - m * 0x1_0000);
    HalfDigits(w);
    DivModUnique(lo, 0x1_0000, if lo < 0 then -1 else 0, if lo < 0 then lo + 0x1_0000 else lo);
    Borrow(hi, lo, Half(w, 1), m);
  }

  /** A negative low half borrows one from the high half. */
  lemma Borrow(hi: Q15, lo: Q15, top: Q15, m: int)
    requires hi * 0x1_0000 + lo - m * 0x1_0000_0000 == top * 0x1_0000 + if lo < 0 then lo + 0x1_0000 else lo
    ensures top == ToQ15(hi - if lo < 0 then 1 else 0)
    ensures top == hi <==> lo >= 0
  {
    ToQ15Is(hi - if lo < 0 then 1 else 0, top, m);
  }
}
