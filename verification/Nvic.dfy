/**
  Interrupt priorities. Cortex-M4 keeps one byte per interrupt; Cortex-M0+ can only access
  words, packs four priorities into each and replaces one by a read-modify-write. The packed
  form refines the byte form, for every number of implemented priority bits.
*/
module Nvic {
  import opened MachineInt
  import opened Bits

  /** `__NVIC_PRIO_BITS` of a device. */
  type PrioBits = b: int | 1 <= b <= 8 witness 4

  // ----- bytes of a word

  function Bytes(d3: U8, d2: U8, d1: U8, d0: U8): U32
  {
    ((d3 * 0x100 + d2) * 0x100 + d1) * 0x100 + d0
  }

  /** Byte lane k of a word, 0 the lowest. */
  function Lane(w: U32, k: nat): U8
    requires k < 4
  {
    match k
    case 0 => w % 0x100
    case 1 => w / 0x100 % 0x100
    case 2 => w / 0x1_0000 % 0x100
    case _ => w / 0x100_0000 % 0x100
  }

  lemma LanesOf(d3: U8, d2: U8, d1: U8, d0: U8)
    ensures var w := Bytes(d3, d2, d1, d0);
            Lane(w, 0) == d0 && Lane(w, 1) == d1 && Lane(w, 2) == d2 && Lane(w, 3) == d3
  {
    LaneAt((d3 * 0x100 + d2) * 0x100 + d1, d0, 0, 1);
    LaneAt(d3 * 0x100 + d2, d1, d0, 0x100);
    LaneAt(d3, d2, d1 * 0x100 + d0, 0x1_0000);
    LaneAt(0, d3, (d2 * 0x100 + d1) * 0x100 + d0, 0x100_0000);
  }

  lemma LaneAt(above: int, digit: U8, below: nat, place: nat)
    requires below < place
    ensures ((above * 0x100 + digit) * place + below) / place % 0x100 == digit
  {
    DivModUnique((above * 0x100 + digit) * place + below, place, above * 0x100 + digit, below);
    DivModUnique(above * 0x100 + digit, 0x100, above, digit);
  }

  lemma BytesOf(w: U32) returns (d3: U8, d2: U8, d1: U8, d0: U8)
    ensures w == Bytes(d3, d2, d1, d0)
  {
    d0 := w % 0x100;
    var w1 := w / 0x100;
    d1 := w1 % 0x100;
    var w2 := w1 / 0x100;
    d2 := w2 % 0x100;
    d3 := w2 / 0x100;
  }

  /** The read-modify-write: clear the byte at a bit position, or the new byte in. */
  function ReplaceByte(w: U32, shift: nat, b: U8): nat
    requires shift <= 24
  {
    ByteMaskFits(shift);
    Or(And(w, Not32(Shl(0xFF, shift))), Shl(b, shift))
  }

  lemma ByteMaskFits(shift: nat)
    requires shift <= 24
    ensures Shl(0xFF, shift) <= 0xFFFF_FFFF
  {
    Pow2Monotone(shift, 24);
    Pow2Values();
  }

  /** An or of words that are cut at the same places is made piece by piece. */
  lemma {:induction false} OrIntoField(top: nat, low: nat, b: U8, k: nat)
    requires low < Pow2(k)
    ensures Pow2(8) == 0x100
    ensures Or(Cut(top, 0, low, k, 8), b * Pow2(k)) == Cut(top, b, low, k, 8)
  {
    assert Pow2(8) == 0x100;
    OrSplit(8, top, 0, 0, b);
    assert Or(top, 0) == top && Or(0, b) == b && Or(low, 0) == low;
    MulNonNegative(top, Pow2(8));
    OrSplit(k, top * Pow2(8) + 0, low, b, 0);
  }

  /** The byte at bit k is replaced; what is above and below stays. */
  lemma ReplaceAt(w: U32, top: nat, field: U8, low: nat, k: nat, p: nat, b: U8)
    requires k <= 24 && p == Pow2(k) && low < p
    requires w == (top * 0x100 + field) * p + low
    ensures ReplaceByte(w, k, b) == (top * 0x100 + b) * p + low
  {
    TopFits(w, top, field, low, k);
    CutByte(top, field, low, k);
    CutByte(top, b, low, k);
    ReplaceCut(w, top, field, low, k, b);
  }

  lemma CutByte(top: nat, byte: U8, low: nat, k: nat)
    requires low < Pow2(k)
    ensures Pow2(8) == 0x100 && Cut(top, byte, low, k, 8) == (top * 0x100 + byte) * Pow2(k) + low
  {
    assert Pow2(8) == 0x100;
  }

  lemma TopFits(w: U32, top: nat, field: U8, low: nat, k: nat)
    requires k <= 24 && w == (top * 0x100 + field) * Pow2(k) + low
    ensures top < Pow2(24 - k)
  {
    FullWord(k, 8);
    assert Pow2(8) == 0x100;
    TopBelow(top, field, low, Pow2(k), Pow2(8), Pow2(24 - k));
  }

  lemma ReplaceCut(w: U32, top: nat, field: U8, low: nat, k: nat, b: U8)
    requires k <= 24 && low < Pow2(k) && top < Pow2(24 - k) && Pow2(8) == 0x100
    requires w == Cut(top, field, low, k, 8)
    ensures ReplaceByte(w, k, b) == Cut(top, b, low, k, 8)
  {
    ByteMaskFits(k);
    AndCutClear(top, field, low, k, 8);
    assert (Pow2(8) - 1) * Pow2(k) == Shl(0xFF, k);
    OrIntoField(top, low, b, k);
    assert Shl(b, k) == b * Pow2(k);
  }

  lemma ReplaceDigit(d3: U8, d2: U8, d1: U8, d0: U8, lane: nat, b: U8)
    requires lane < 4
    ensures ReplaceByte(Bytes(d3, d2, d1, d0), 8 * lane, b)
         == match lane case 0 => Bytes(d3, d2, d1, b) case 1 => Bytes(d3, d2, b, d0)
            case 2 => Bytes(d3, b, d1, d0) case _ => Bytes(b, d2, d1, d0)
  {
    var w := Bytes(d3, d2, d1, d0);
    Pow2Values();
    match lane
    case 0 => ReplaceAt(w, (d3 * 0x100 + d2) * 0x100 + d1, d0, 0, 0, 1, b);
    case 1 => ReplaceAt(w, d3 * 0x100 + d2, d1, d0, 8, 0x100, b);
    case 2 => ReplaceAt(w, d3, d2, d1 * 0x100 + d0, 16, 0x1_0000, b);
    case _ => ReplaceAt(w, 0, d3, (d2 * 0x100 + d1) * 0x100 + d0, 24, 0x100_0000, b);
  }

  /** Replacing one byte sets its lane and keeps the other three. */
  lemma ReplaceByteLanes(w: U32, lane: nat, b: U8)
    requires lane < 4
    ensures ReplaceByte(w, 8 * lane, b) <= 0xFFFF_FFFF
    ensures forall k :: 0 <= k < 4 ==> Lane(ReplaceByte(w, 8 * lane, b), k) == if k == lane then b else Lane(w, k)
  {
    var d3, d2, d1, d0 := BytesOf(w);
    LanesOf(d3, d2, d1, d0);
    ReplaceDigit(d3, d2, d1, d0, lane, b);
    match lane
    case 0 => LanesOf(d3, d2, d1, b);
    case 1 => LanesOf(d3, d2, b, d0);
    case 2 => LanesOf(d3, b, d1, d0);
    case _ => LanesOf(b, d2, d1, d0);
  }

  // ----- register files

  datatype Packed = Packed(ip: seq<U32>, shp: seq<U32>)
  {
    predicate Valid() { |ip| == 8 && |shp| == 2 }
  }

  datatype Plain = Plain(ip: seq<U8>, shp: seq<U8>)
  {
    predicate Valid() { |ip| == 240 && |shp| == 12 }
  }

  /** The interrupts both cores can prioritise: 32 external ones, and the system handlers whose
      number has low bits 8 to 15. */
  predicate Common(irq: int)
  {
    0 <= irq < 32 || (-0x8000_0000 <= irq < 0 && irq % 16 >= 8)
  }

  /** What identifies an interrupt's priority register. */
  function Register(irq: int): int { if irq < 0 then irq % 16 - 16 else irq }

  /** The priority field as stored: the implemented bits, left-aligned in a byte. */
  function Stored(bits: PrioBits, priority: U32): nat { And(ToU32(Shl(priority, 8 - bits)), 0xFF) }

  lemma {:induction false} StoredField(bits: PrioBits, priority: U32)
    ensures Stored(bits, priority) == priority % Pow2(bits) * Pow2(8 - bits) < 0x100
    ensures Shr(Stored(bits, priority), 8 - bits) == priority % Pow2(bits)
  {
    var n, r := Divide(priority, Pow2(bits));
    Pow2Add(bits, 8 - bits);
    assert Pow2(8) == 0x100;
    AlignedField(n, r, Pow2(bits), Pow2(8 - bits));
    LowByte(ToU32(Shl(priority, 8 - bits)));
    ByteOfStored(Shl(priority, 8 - bits), n, r * Pow2(8 - bits));
    DivModUnique(r * Pow2(8 - bits), Pow2(8 - bits), r, 0);
  }

  lemma AlignedField(n: nat, r: nat, p: nat, q: nat)
    requires p * q == 0x100 && r < p && q >= 1
    ensures (n * p + r) * q == n * 0x100 + r * q && 0 <= r * q <= 0xFF
  {
    assert (n * p + r) * q == n * (p * q) + r * q;
    MulNonNegative(r, q);
    MulOrder(r, p - 1, q);
    assert (p - 1) * q == p * q - q;
  }

  lemma LowByte(u: nat)
    ensures And(u, 0xFF) == u % 0x100
  {
    var mask: nat := 0xFF;
    Pow2Values();
    AndMask(u, 0, 8, mask);
  }

  lemma ByteOfStored(x: int, k: int, b: int)
    requires x == k * 0x100 + b && 0 <= b <= 0xFF
    ensures ToU32(x) % 0x100 == b
  {
  }

  // ----- the two cores

  function ShiftOf(irq: int): nat { And(ToU32(irq), 3) * 8 }

  function ShpIndex(irq: int): int { (And(ToU32(irq), 0xF) - 8) / 4 }

  function IpIndex(irq: int): int { ToU32(irq) / 4 }

  lemma IndexValues(irq: int)
    requires Common(irq)
    ensures ShiftOf(irq) == 8 * (irq % 4)
    ensures irq < 0 ==> And(ToU32(irq), 0xF) == irq % 16 && ShpIndex(irq) == (irq % 16 - 8) / 4
    ensures irq >= 0 ==> IpIndex(irq) == irq / 4
  {
    LowIndexBits(irq);
    if irq >= 0 {
      assert ToU32(irq) == irq;
    }
  }

  lemma LowIndexBits(irq: int)
    ensures And(ToU32(irq), 3) == irq % 4 && And(ToU32(irq), 0xF) == irq % 16
  {
    var m3: nat, mf: nat := 3, 0xF;
    Pow2Values();
    AndMask(ToU32(irq), 0, 2, m3);
    AndMask(ToU32(irq), 0, 4, mf);
    UnsignedDigits(irq);
  }

  lemma UnsignedDigits(irq: int)
    ensures ToU32(irq) % 4 == irq % 4 && ToU32(irq) % 16 == irq % 16
  {
    var turns := irq / 0x1_0000_0000;
    assert ToU32(irq) == irq + (-turns * 0x1000_0000) * 16;
    assert ToU32(irq) == irq + (-turns * 0x4000_0000) * 4;
    DivAddMultiple(irq, -turns * 0x1000_0000, 16);
    DivAddMultiple(irq, -turns * 0x4000_0000, 4);
  }

  /** `NVIC_SetPriority` of Cortex-M0+. */
  function SetPacked(m: Packed, bits: PrioBits, irq: int, priority: U32): (r: Packed)
    requires m.Valid() && Common(irq)
    ensures r.Valid()
  {
    IndexValues(irq);
    StoredField(bits, priority);
    if irq < 0 then
      ReplaceByteLanes(m.shp[ShpIndex(irq)], irq % 4, Stored(bits, priority));
      m.(shp := m.shp[ShpIndex(irq) := ReplaceByte(m.shp[ShpIndex(irq)], ShiftOf(irq), Stored(bits, priority))])
    else
      ReplaceByteLanes(m.ip[IpIndex(irq)], irq % 4, Stored(bits, priority));
      m.(ip := m.ip[IpIndex(irq) := ReplaceByte(m.ip[IpIndex(irq)], ShiftOf(irq), Stored(bits, priority))])
  }

  /** `NVIC_GetPriority` of Cortex-M0+. */
  function GetPacked(m: Packed, bits: PrioBits, irq: int): nat
    requires m.Valid() && Common(irq)
  {
    IndexValues(irq);
    var w := if irq < 0 then m.shp[ShpIndex(irq)] else m.ip[IpIndex(irq)];
    Shr(And(Shr(w, ShiftOf(irq)), 0xFF), 8 - bits)
  }

  /** The shifts and masks read the interrupt's own byte lane and drop the unimplemented bits. */
  lemma GetPackedValue(m: Packed, bits: PrioBits, irq: int)
    requires m.Valid() && Common(irq)
    ensures var word := if irq < 0 then m.shp[(irq % 16 - 8) / 4] else m.ip[irq / 4];
            GetPacked(m, bits, irq) == Lane(word, irq % 4) / Pow2(8 - bits) < Pow2(bits)
  {
    IndexValues(irq);
    var word := if irq < 0 then m.shp[(irq % 16 - 8) / 4] else m.ip[irq / 4];
    ShiftedLane(word, irq % 4);
    ByteField(Lane(word, irq % 4), bits);
  }

  lemma ByteField(b: U8, bits: PrioBits)
    ensures b / Pow2(8 - bits) < Pow2(bits)
  {
    Pow2Add(bits, 8 - bits);
    Pow2Values();
    Recompose(b, Pow2(8 - bits));
    if b / Pow2(8 - bits) >= Pow2(bits) {
      MulOrder(Pow2(bits), b / Pow2(8 - bits), Pow2(8 - bits));
    }
  }

  /** The byte lane of an interrupt. */
  function PriorityByte(m: Packed, irq: int): U8
    requires m.Valid() && Common(irq)
  {
    Lane(if irq < 0 then m.shp[(irq % 16 - 8) / 4] else m.ip[irq / 4], irq % 4)
  }

  /** What Cortex-M4 has a register for. */
  predicate HasRegister(irq: int)
  {
    0 <= irq < 240 || (-0x8000_0000 <= irq < 0 && irq % 16 >= 4)
  }

  /** `NVIC_SetPriority` of Cortex-M4. */
  function SetPlain(m: Plain, bits: PrioBits, irq: int, priority: U32): (r: Plain)
    requires m.Valid() && HasRegister(irq)
    ensures r.Valid()
  {
    StoredField(bits, priority);
    if irq < 0 then m.(shp := m.shp[irq % 16 - 4 := Stored(bits, priority)])
    else m.(ip := m.ip[irq := Stored(bits, priority)])
  }

  /** `NVIC_GetPriority` of Cortex-M4. */
  function GetPlain(m: Plain, bits: PrioBits, irq: int): nat
    requires m.Valid() && HasRegister(irq)
  {
    Shr(if irq < 0 then m.shp[irq % 16 - 4] else m.ip[irq], 8 - bits)
  }

  class CortexM0 {
    const IP: array<U32>
    const SHP: array<U32>
    const bits: PrioBits

    ghost predicate Valid()
    {
      IP.Length == 8 && SHP.Length == 2 && IP != SHP
    }

    ghost function View(): Packed
      reads IP, SHP
    {
      Packed(IP[..], SHP[..])
    }

    constructor (b: PrioBits)
      ensures Valid() && fresh(IP) && fresh(SHP) && bits == b && View() == Packed(seq(8, _ => 0), seq(2, _ => 0))
    {
      bits := b;
      IP := new U32[8](_ => 0);
      SHP := new U32[2](_ => 0);
    }

    method SetPriority(irq: int, priority: U32)
      requires Valid() && Common(irq)
      modifies IP, SHP
      ensures Valid() && View() == SetPacked(old(View()), bits, irq, priority)
      ensures forall i :: Common(i) ==>
                PriorityByte(View(), i) ==
                if Register(i) == Register(irq) then priority % Pow2(bits) * Pow2(8 - bits)
                else old(PriorityByte(View(), i))
    {
      SetPackedBytes(View(), bits, irq, priority);
      IndexValues(irq);
      StoredField(bits, priority);
      var value := And(ToU32(Shl(priority, 8 - bits)), 0xFF);
      if irq < 0 {
        var i := (And(ToU32(irq), 0xF) - 8) / 4;
        ReplaceByteLanes(SHP[i], irq % 4, value);
        SHP[i] := Or(And(SHP[i], Not32(Shl(0xFF, ShiftOf(irq)))), Shl(value, ShiftOf(irq)));
      } else {
        var i := ToU32(irq) / 4;
        ReplaceByteLanes(IP[i], irq % 4, value);
        IP[i] := Or(And(IP[i], Not32(Shl(0xFF, ShiftOf(irq)))), Shl(value, ShiftOf(irq)));
      }
    }

    method GetPriority(irq: int) returns (priority: nat)
      requires Valid() && Common(irq)
      ensures var word := if irq < 0 then SHP[(irq % 16 - 8) / 4] else IP[irq / 4];
              priority == Lane(word, irq % 4) / Pow2(8 - bits) < Pow2(bits)
      ensures priority == GetPacked(View(), bits, irq)
    {
      GetPackedValue(View(), bits, irq);
      IndexValues(irq);
      if irq < 0 {
        priority := Shr(And(Shr(SHP[ShpIndex(irq)], ShiftOf(irq)), 0xFF), 8 - bits);
      } else {
        priority := Shr(And(Shr(IP[IpIndex(irq)], ShiftOf(irq)), 0xFF), 8 - bits);
      }
    }
  }

  class CortexM4 {
    const IP: array<U8>
    const SHP: array<U8>
    const bits: PrioBits

    ghost predicate Valid()
    {
      IP.Length == 240 && SHP.Length == 12 && IP != SHP
    }

    ghost function View(): Plain
      reads IP, SHP
    {
      Plain(IP[..], SHP[..])
    }

    constructor (b: PrioBits)
      ensures Valid() && fresh(IP) && fresh(SHP) && bits == b && View() == Plain(seq(240, _ => 0), seq(12, _ => 0))
    {
      bits := b;
      IP := new U8[240](_ => 0);
      SHP := new U8[12](_ => 0);
    }

    method SetPriority(irq: int, priority: U32)
      requires Valid() && HasRegister(irq)
      modifies IP, SHP
      ensures Valid() && View() == SetPlain(old(View()), bits, irq, priority)
      ensures var stored := priority % Pow2(bits) * Pow2(8 - bits);
              if irq < 0 then SHP[..] == old(SHP[..])[irq % 16 - 4 := stored] && IP[..] == old(IP[..])
              else IP[..] == old(IP[..])[irq := stored] && SHP[..] == old(SHP[..])
    {
      StoredField(bits, priority);
      if irq < 0 {
        HandlerNumber(irq);
        SHP[And(ToU32(irq), 0xF) - 4] := And(ToU32(Shl(priority, 8 - bits)), 0xFF);
      } else {
        IP[irq] := And(ToU32(Shl(priority, 8 - bits)), 0xFF);
      }
    }

    method GetPriority(irq: int) returns (priority: nat)
      requires Valid() && HasRegister(irq)
      ensures priority == (if irq < 0 then SHP[irq % 16 - 4] else IP[irq]) / Pow2(8 - bits) < Pow2(bits)
      ensures priority == GetPlain(View(), bits, irq)
    {
      ByteField(if irq < 0 then SHP[irq % 16 - 4] else IP[irq], bits);
      if irq < 0 {
        HandlerNumber(irq);
        priority := Shr(SHP[And(ToU32(irq), 0xF) - 4], 8 - bits);
      } else {
        priority := Shr(IP[irq], 8 - bits);
      }
    }
  }

  lemma HandlerNumber(irq: int)
    ensures And(ToU32(irq), 0xF) == irq % 16
  {
    var mf: nat := 0xF;
    Pow2Values();
    AndMask(ToU32(irq), 0, 4, mf);
    UnsignedDigits(irq);
  }

  // ----- refinement

  /** Interrupt number i, from `base` on, has lane i mod 4 of word (i - base) / 4 on one side and
      byte i - shift on the other, with the same content. */
  ghost predicate LanesMatch(words: seq<U32>, bytes: seq<U8>, base: nat, shift: nat)
    requires shift <= base && base + 4 * |words| - shift <= |bytes|
  {
    forall i :: base <= i < base + 4 * |words| ==> Lane(words[(i - base) / 4], i % 4) == bytes[i - shift]
  }

  /** Byte lane by byte lane the words hold what the byte arrays hold: external interrupts 0 to
      31, and system handlers 8 to 15, whose bytes start at handler 4. */
  ghost predicate Refines(packed: Packed, plain: Plain)
    requires packed.Valid() && plain.Valid()
  {
    LanesMatch(packed.ip, plain.ip, 0, 0) && LanesMatch(packed.shp, plain.shp, 8, 4)
  }

  /** Setting the same priority on both keeps them in step. */
  lemma SetRefines(packed: Packed, plain: Plain, bits: PrioBits, irq: int, priority: U32)
    requires packed.Valid() && plain.Valid() && Common(irq) && Refines(packed, plain)
    ensures Refines(SetPacked(packed, bits, irq, priority), SetPlain(plain, bits, irq, priority))
  {
    IndexValues(irq);
    StoredField(bits, priority);
    if irq < 0 {
      HandlerLane(irq);
      HandlersStep(packed, plain, irq % 16, Stored(bits, priority));
    } else {
      ExternalsStep(packed, plain, irq, Stored(bits, priority));
    }
  }

  lemma HandlersStep(packed: Packed, plain: Plain, h: int, b: U8)
    requires packed.Valid() && plain.Valid() && Refines(packed, plain) && 8 <= h < 16
    ensures var w := packed.shp[(h - 8) / 4];
            && ReplaceByte(w, 8 * (h % 4), b) <= 0xFFFF_FFFF
            && Refines(packed.(shp := packed.shp[(h - 8) / 4 := ReplaceByte(w, 8 * (h % 4), b)]),
                       plain.(shp := plain.shp[h - 4 := b]))
  {
    ReplacedLanes(packed.shp, plain.shp, 8, 4, h, b);
  }

  lemma ExternalsStep(packed: Packed, plain: Plain, irq: int, b: U8)
    requires packed.Valid() && plain.Valid() && Refines(packed, plain) && 0 <= irq < 32
    ensures var w := packed.ip[irq / 4];
            && ReplaceByte(w, 8 * (irq % 4), b) <= 0xFFFF_FFFF
            && Refines(packed.(ip := packed.ip[irq / 4 := ReplaceByte(w, 8 * (irq % 4), b)]),
                       plain.(ip := plain.ip[irq := b]))
  {
    ReplacedLanes(packed.ip, plain.ip, 0, 0, irq, b);
  }

  lemma HandlerLane(irq: int)
    ensures irq % 16 % 4 == irq % 4
  {
  }

  /** Word (x - base) / 4 and byte x - shift are written together; every other number's lane is
      in another word or in another lane of this one. */
  lemma ReplacedLanes(words: seq<U32>, bytes: seq<U8>, base: nat, shift: nat, x: int, b: U8)
    requires base % 4 == 0 && base <= x < base + 4 * |words| && shift <= base && base + 4 * |words| - shift <= |bytes|
    requires LanesMatch(words, bytes, base, shift)
    ensures ReplaceByte(words[(x - base) / 4], 8 * (x % 4), b) <= 0xFFFF_FFFF
    ensures LanesMatch(words[(x - base) / 4 := ReplaceByte(words[(x - base) / 4], 8 * (x % 4), b)],
                       bytes[x - shift := b], base, shift)
  {
    ReplaceByteLanes(words[(x - base) / 4], x % 4, b);
    forall i | base <= i < base + 4 * |words| && (i - base) / 4 == (x - base) / 4 && i % 4 == x % 4
      ensures i == x
    {
      SameLane(i, x, base);
    }
  }

  lemma SameLane(i: int, x: int, base: int)
    requires base % 4 == 0 && (i - base) / 4 == (x - base) / 4 && i % 4 == x % 4
    ensures i == x
  {
  }

  /** Setting a priority on the packed words replaces the interrupt's own lane and no other. */
  lemma SetPackedBytes(m: Packed, bits: PrioBits, irq: int, priority: U32)
    requires m.Valid() && Common(irq)
    ensures forall i :: Common(i) ==>
              PriorityByte(SetPacked(m, bits, irq, priority), i) ==
              if Register(i) == Register(irq) then Stored(bits, priority) else PriorityByte(m, i)
  {
    var plain := Unpacked(m);
    SetRefines(m, plain, bits, irq, priority);
    forall i | Common(i)
      ensures PriorityByte(SetPacked(m, bits, irq, priority), i) ==
              if Register(i) == Register(irq) then Stored(bits, priority) else PriorityByte(m, i)
    {
      RefinedByte(m, plain, i);
      RefinedByte(SetPacked(m, bits, irq, priority), SetPlain(plain, bits, irq, priority), i);
    }
  }

  lemma RefinedByte(packed: Packed, plain: Plain, i: int)
    requires packed.Valid() && plain.Valid() && Common(i) && Refines(packed, plain)
    ensures PriorityByte(packed, i) == if i < 0 then plain.shp[i % 16 - 4] else plain.ip[i]
  {
    HandlerLane(i);
    if i < 0 {
      assert Lane(packed.shp[(i % 16 - 8) / 4], i % 16 % 4) == plain.shp[i % 16 - 4];
    } else {
      assert Lane(packed.ip[(i - 0) / 4], i % 4) == plain.ip[i - 0];
    }
  }

  /** Both cores read the same priority back. */
  lemma GetAgrees(packed: Packed, plain: Plain, bits: PrioBits, irq: int)
    requires packed.Valid() && plain.Valid() && Common(irq) && Refines(packed, plain)
    ensures GetPacked(packed, bits, irq) == GetPlain(plain, bits, irq)
  {
    IndexValues(irq);
    var w := if irq < 0 then packed.shp[ShpIndex(irq)] else packed.ip[IpIndex(irq)];
    ShiftedLane(w, irq % 4);
    HandlerLane(irq);
    if irq < 0 {
      assert Lane(packed.shp[(irq % 16 - 8) / 4], irq % 16 % 4) == plain.shp[irq % 16 - 4];
    } else {
      assert Lane(packed.ip[(irq - 0) / 4], irq % 4) == plain.ip[irq - 0];
    }
  }

  lemma ShiftedLane(w: U32, k: nat)
    requires k < 4
    ensures And(Shr(w, 8 * k), 0xFF) == Lane(w, k)
  {
    LowByte(Shr(w, 8 * k));
    ShiftedByte(w, k);
  }

  lemma ShiftedByte(w: U32, k: nat)
    requires k < 4
    ensures Shr(w, 8 * k) % 0x100 == Lane(w, k)
  {
    Pow2Values();
  }

  datatype Call = Call(irq: int, priority: U32)

  predicate AllCommon(calls: seq<Call>)
  {
    forall c :: c in calls ==> Common(c.irq)
  }

  function RunPacked(m: Packed, bits: PrioBits, calls: seq<Call>): (r: Packed)
    requires m.Valid() && AllCommon(calls)
    ensures r.Valid()
    decreases |calls|
  {
    if calls == [] then m else RunPacked(SetPacked(m, bits, calls[0].irq, calls[0].priority), bits, calls[1..])
  }

  function RunPlain(m: Plain, bits: PrioBits, calls: seq<Call>): (r: Plain)
    requires m.Valid() && AllCommon(calls)
    ensures r.Valid()
    decreases |calls|
  {
    if calls == [] then m else RunPlain(SetPlain(m, bits, calls[0].irq, calls[0].priority), bits, calls[1..])
  }

  /** For every sequence of calls the packed words refine the byte arrays, and every interrupt
      reads the same on both cores. */
  lemma {:induction false} RunRefines(packed: Packed, plain: Plain, bits: PrioBits, calls: seq<Call>)
    requires packed.Valid() && plain.Valid() && Refines(packed, plain) && AllCommon(calls)
    decreases |calls|
    ensures Refines(RunPacked(packed, bits, calls), RunPlain(plain, bits, calls))
    ensures forall irq :: Common(irq) ==>
              GetPacked(RunPacked(packed, bits, calls), bits, irq) == GetPlain(RunPlain(plain, bits, calls), bits, irq)
  {
    if calls == [] {
      forall irq | Common(irq) {
        GetAgrees(packed, plain, bits, irq);
      }
    } else {
      SetRefines(packed, plain, bits, calls[0].irq, calls[0].priority);
      RunRefines(SetPacked(packed, bits, calls[0].irq, calls[0].priority),
                 SetPlain(plain, bits, calls[0].irq, calls[0].priority), bits, calls[1..]);
    }
  }

  /** Setting one interrupt gives it the implemented bits of the priority and changes no other. */
  lemma {:induction false} SetThenGetPlain(m: Plain, bits: PrioBits, irq: int, priority: U32, other: int)
    requires m.Valid() && HasRegister(irq) && HasRegister(other)
    ensures GetPlain(SetPlain(m, bits, irq, priority), bits, other)
         == if Register(other) == Register(irq) then priority % Pow2(bits) else GetPlain(m, bits, other)
  {
    StoredField(bits, priority);
  }

  /** The same on the packed form. */
  lemma SetThenGetPacked(m: Packed, bits: PrioBits, irq: int, priority: U32, other: int)
    requires m.Valid() && Common(irq) && Common(other)
    ensures GetPacked(SetPacked(m, bits, irq, priority), bits, other)
         == if Register(other) == Register(irq) then priority % Pow2(bits) else GetPacked(m, bits, other)
  {
    var plain := Unpacked(m);
    SetRefines(m, plain, bits, irq, priority);
    GetAgrees(m, plain, bits, other);
    GetAgrees(SetPacked(m, bits, irq, priority), SetPlain(plain, bits, irq, priority), bits, other);
    SetThenGetPlain(plain, bits, irq, priority, other);
  }

  /** The byte arrays a packed state stands for. */
  function Unpacked(m: Packed): (r: Plain)
    requires m.Valid()
    ensures r.Valid() && Refines(m, r)
  {
    Plain(seq(240, i requires 0 <= i < 240 => if i < 32 then Lane(m.ip[i / 4], i % 4) else 0),
          seq(12, j requires 0 <= j < 12 => if j >= 4 then Lane(m.shp[(j - 4) / 4], j % 4) else 0))
  }

  // ----- priority groups

  function PreemptBits(bits: PrioBits, group: U32): nat
  {
    var g := And(group, 7);
    GroupRange(group);
    if 7 - g > bits then bits else 7 - g
  }

  function SubBits(bits: PrioBits, group: U32): nat
  {
    var g := And(group, 7);
    if g + bits < 7 then 0 else g - 7 + bits
  }

  /** Which group shares out the bits how: group 7 - p leaves the preemption p bits as far as there
      are that many, and the subpriority has the rest. */
  lemma BitsOfGroup(bits: PrioBits, group: U32)
    ensures PreemptBits(bits, group) == Min(bits, 7 - group % 8)
    ensures SubBits(bits, group) == Max(0, group % 8 + bits - 7)
  {
    GroupRange(group);
  }

  lemma GroupRange(group: U32)
    ensures And(group, 7) == group % 8
  {
    var mask: nat := 7;
    Pow2Values();
    AndMask(group, 0, 3, mask);
  }

  /** `NVIC_EncodePriority`. */
  function EncodePriority(bits: PrioBits, group: U32, preempt: U32, sub: U32): nat
  {
    var pb, sb := PreemptBits(bits, group), SubBits(bits, group);
    Or(Shl(And(preempt, Pow2(pb) - 1), sb), And(sub, Pow2(sb) - 1))
  }

  function DecodedPreempt(bits: PrioBits, group: U32, priority: nat): nat
  {
    And(Shr(priority, SubBits(bits, group)), Pow2(PreemptBits(bits, group)) - 1)
  }

  function DecodedSub(bits: PrioBits, group: U32, priority: nat): nat
  {
    And(priority, Pow2(SubBits(bits, group)) - 1)
  }

  /** `NVIC_DecodePriority`, which stores through two pointers. */
  method DecodePriority(bits: PrioBits, priority: U32, group: U32) returns (pPreemptPriority: nat, pSubPriority: nat)
    ensures pPreemptPriority == priority / Pow2(Max(0, group % 8 + bits - 7)) % Pow2(Min(bits, 7 - group % 8))
    ensures pSubPriority == priority % Pow2(Max(0, group % 8 + bits - 7))
    ensures pPreemptPriority == DecodedPreempt(bits, group, priority)
    ensures pSubPriority == DecodedSub(bits, group, priority)
  {
    BitsOfGroup(bits, group);
    var preemptBits, subBits := PreemptBits(bits, group), SubBits(bits, group);
    var shifted: nat, _ := Divide(priority, Pow2(subBits));
    AndLow(shifted, preemptBits);
    AndLow(priority, subBits);
    pPreemptPriority := And(Shr(priority, subBits), Pow2(preemptBits) - 1);
    pSubPriority := And(priority, Pow2(subBits) - 1);
  }

  /** The two fields always share out exactly the implemented bits. */
  lemma FieldsFillPriority(bits: PrioBits, group: U32)
    ensures PreemptBits(bits, group) == Min(bits, 7 - group % 8) && SubBits(bits, group) == Max(0, group % 8 + bits - 7)
    ensures PreemptBits(bits, group) + SubBits(bits, group) == bits
    ensures Pow2(PreemptBits(bits, group)) * Pow2(SubBits(bits, group)) == Pow2(bits)
  {
    GroupRange(group);
    Pow2Add(PreemptBits(bits, group), SubBits(bits, group));
  }

  /** Encoding is positional: the preemption field above the subpriority field, each as wide as the
      group says. */
  lemma EncodedValue(bits: PrioBits, group: U32, preempt: U32, sub: U32)
    ensures var pb: nat, sb: nat := Min(bits, 7 - group % 8), Max(0, group % 8 + bits - 7);
            EncodePriority(bits, group, preempt, sub) == preempt % Pow2(pb) * Pow2(sb) + sub % Pow2(sb) < Pow2(bits)
    ensures PreemptBits(bits, group) == Min(bits, 7 - group % 8) && SubBits(bits, group) == Max(0, group % 8 + bits - 7)
  {
    BitsOfGroup(bits, group);
    EncodedFields(bits, group, preempt, sub);
  }

  lemma EncodedFields(bits: PrioBits, group: U32, preempt: U32, sub: U32)
    ensures var pb, sb := PreemptBits(bits, group), SubBits(bits, group);
            EncodePriority(bits, group, preempt, sub) == preempt % Pow2(pb) * Pow2(sb) + sub % Pow2(sb) < Pow2(bits)
  {
    var pb, sb := PreemptBits(bits, group), SubBits(bits, group);
    AndLow(preempt, pb);
    AndLow(sub, sb);
    var _, high := Divide(preempt, Pow2(pb));
    var _, low := Divide(sub, Pow2(sb));
    FieldsFillPriority(bits, group);
    OrDisjoint(high, sb, low);
    PairBelow(high, low, Pow2(pb), Pow2(sb));
  }

  lemma PairBelow(high: nat, low: nat, p: nat, q: nat)
    requires high < p && low < q
    ensures 0 <= high * q + low < p * q
  {
    MulNonNegative(high, q);
    MulOrder(high, p - 1, q);
    assert (p - 1) * q == p * q - q;
  }

  /** Decoding an encoded priority returns both fields, reduced to their widths. */
  lemma DecodeEncode(bits: PrioBits, group: U32, preempt: U32, sub: U32)
    ensures var p := EncodePriority(bits, group, preempt, sub);
            && DecodedPreempt(bits, group, p) == preempt % Pow2(PreemptBits(bits, group))
            && DecodedSub(bits, group, p) == sub % Pow2(SubBits(bits, group))
  {
    EncodedFields(bits, group, preempt, sub);
    var pb, sb := PreemptBits(bits, group), SubBits(bits, group);
    var _, high := Divide(preempt, Pow2(pb));
    var _, low := Divide(sub, Pow2(sb));
    DecodeFields(bits, group, EncodePriority(bits, group, preempt, sub), high, low);
  }

  lemma DecodeFields(bits: PrioBits, group: U32, priority: nat, high: nat, low: nat)
    requires high < Pow2(PreemptBits(bits, group)) && low < Pow2(SubBits(bits, group))
    requires priority == high * Pow2(SubBits(bits, group)) + low
    ensures DecodedPreempt(bits, group, priority) == high && DecodedSub(bits, group, priority) == low
  {
    var pb, sb := PreemptBits(bits, group), SubBits(bits, group);
    DivModUnique(priority, Pow2(sb), high, low);
    AndOnes(pb, high);
    AndLow(priority, sb);
  }

  /** Encoding a decoded priority is the identity on the implemented range. */
  lemma {:induction false} EncodeDecode(bits: PrioBits, group: U32, priority: nat)
    requires priority < Pow2(bits)
    ensures DecodedPreempt(bits, group, priority) < 0x1_0000_0000 && DecodedSub(bits, group, priority) < 0x1_0000_0000
    ensures EncodePriority(bits, group, DecodedPreempt(bits, group, priority), DecodedSub(bits, group, priority))
     == priority
  {
    var pb, sb := PreemptBits(bits, group), SubBits(bits, group);
    FieldsFillPriority(bits, group);
    var high, low := Divide(priority, Pow2(sb));
    HighBelow(high, low, Pow2(pb), Pow2(sb));
    DecodeFields(bits, group, priority, high, low);
    FieldLimit(pb, high);
    FieldLimit(sb, low);
    EncodeFields(bits, group, high, low);
  }

  lemma HighBelow(high: nat, low: nat, p: nat, q: nat)
    requires high * q + low < p * q
    ensures high < p
  {
    if high >= p {
      MulOrder(p, high, q);
    }
  }

  lemma FieldLimit(w: nat, v: nat)
    requires w <= 8 && v < Pow2(w)
    ensures v < 0x1_0000_0000
  {
    Pow2Monotone(w, 8);
    Pow2Values();
  }

  lemma EncodeFields(bits: PrioBits, group: U32, high: U32, low: U32)
    requires high < Pow2(PreemptBits(bits, group)) && low < Pow2(SubBits(bits, group))
    ensures EncodePriority(bits, group, high, low) == high * Pow2(SubBits(bits, group)) + low
  {
    EncodedFields(bits, group, high, low);
    DivModUnique(high, Pow2(PreemptBits(bits, group)), 0, high);
    DivModUnique(low, Pow2(SubBits(bits, group)), 0, low);
  }

  /** Numeric order of encoded priorities is the order of (preemption, subpriority) pairs. */
  lemma EncodeIsLexicographic(bits: PrioBits, group: U32, p: U32, s: U32, p': U32, s': U32)
    requires p < Pow2(PreemptBits(bits, group)) && p' < Pow2(PreemptBits(bits, group))
    requires s < Pow2(SubBits(bits, group)) && s' < Pow2(SubBits(bits, group))
    ensures EncodePriority(bits, group, p, s) < EncodePriority(bits, group, p', s') <==> (p < p' || (p == p' && s < s'))
  {
    EncodeFields(bits, group, p, s);
    EncodeFields(bits, group, p', s');
    PairOrder(p, s, p', s', Pow2(SubBits(bits, group)));
  }

  lemma PairOrder(p: int, s: int, p': int, s': int, m: int)
    requires 0 <= s < m && 0 <= s' < m
    ensures p * m + s < p' * m + s' <==> (p < p' || (p == p' && s < s'))
  {
    if p < p' {
      MulOrder(p + 1, p', m);
      assert (p + 1) * m == p * m + m;
    } else if p' < p {
      MulOrder(p' + 1, p, m);
      assert (p' + 1) * m == p' * m + m;
    }
  }

  /** End to end on the packed core: encode, set, get and decode return the two fields. */
  lemma PriorityRoundTrip(m: Packed, bits: PrioBits, irq: int, group: U32, preempt: U32, sub: U32)
    requires m.Valid() && Common(irq)
    requires preempt < Pow2(PreemptBits(bits, group)) && sub < Pow2(SubBits(bits, group))
    ensures EncodePriority(bits, group, preempt, sub) < 0x100
    ensures var got := GetPacked(SetPacked(m, bits, irq, EncodePriority(bits, group, preempt, sub)), bits, irq);
            DecodedPreempt(bits, group, got) == preempt && DecodedSub(bits, group, got) == sub
  {
    EncodedFields(bits, group, preempt, sub);
    var p := EncodePriority(bits, group, preempt, sub);
    Pow2Monotone(bits, 8);
    Pow2Values();
    SetThenGetPacked(m, bits, irq, p, irq);
    DivModUnique(p, Pow2(bits), 0, p);
    DecodeEncode(bits, group, preempt, sub);
    DivModUnique(preempt, Pow2(PreemptBits(bits, group)), 0, preempt);
    DivModUnique(sub, Pow2(SubBits(bits, group)), 0, sub);
  }
}
