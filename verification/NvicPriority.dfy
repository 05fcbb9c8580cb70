/** Interrupt priorities: the group-dependent encoding, and the two register layouts, one
    byte per interrupt on Cortex-M4 and four bytes per word, updated by read-modify-write,
    on Cortex-M0. Registers and priorities are bit-vectors; interrupt numbers are integers,
    negative for the core's own handlers, and `x & 0x0F` of one is its remainder mod 16. */
module NvicPriority {

  predicate PrioBits(bits: bv32) { 1 <= bits <= 8 }

  /** The low n ones. */
  function Mask(n: bv32): bv32
    requires n <= 8
  {
    (1 << n) - 1
  }

  /** `v & ((1 << n) - 1)` */
  function Reduce(v: bv32, n: bv32): bv32
    requires n <= 8
  {
    v & Mask(n)
  }

  // ----- encoding -----

  function PreemptBits(group: bv32, bits: bv32): (n: bv32)
    ensures n <= 7
  {
    var g := group & 0x07;
    if 7 - g > bits then bits else 7 - g
  }

  function SubBits(group: bv32, bits: bv32): (n: bv32)
    requires PrioBits(bits)
    ensures n <= 8
  {
    var g := group & 0x07;
    if g + bits < 7 then 0 else (g - 7) + bits
  }

  /** The fields always share out the implemented bits. */
  lemma FieldsShareBits(group: bv32, bits: bv32)
    requires PrioBits(bits)
    ensures PreemptBits(group, bits) + SubBits(group, bits) == bits
  {
  }

  /** `((preempt & mask) << sub bits) | (sub & mask)` */
  function JoinFields(preempt: bv32, sub: bv32, pb: bv32, sb: bv32): bv32
    requires pb <= 8 && sb <= 8
  {
    (Reduce(preempt, pb) << sb) | Reduce(sub, sb)
  }

  function HighField(v: bv32, pb: bv32, sb: bv32): bv32
    requires pb <= 8 && sb <= 8
  {
    Reduce(v >> sb, pb)
  }

  function LowField(v: bv32, sb: bv32): bv32
    requires sb <= 8
  {
    Reduce(v, sb)
  }

  function Encode(group: bv32, preempt: bv32, sub: bv32, bits: bv32): bv32
    requires PrioBits(bits)
  {
    JoinFields(preempt, sub, PreemptBits(group, bits), SubBits(group, bits))
  }

  function Decode(priority: bv32, group: bv32, bits: bv32): (bv32, bv32)
    requires PrioBits(bits)
  {
    (HighField(priority, PreemptBits(group, bits), SubBits(group, bits)), LowField(priority, SubBits(group, bits)))
  }

  lemma FieldsRoundTrip(p: bv32, s: bv32, pb: bv32, sb: bv32)
    requires pb <= 8 && sb <= 8
    ensures HighField(JoinFields(p, s, pb, sb), pb, sb) == Reduce(p, pb)
    ensures LowField(JoinFields(p, s, pb, sb), sb) == Reduce(s, sb)
  {
  }

  /** Decoding an encoding returns the two fields reduced to their widths. */
  lemma DecodeOfEncode(group: bv32, preempt: bv32, sub: bv32, bits: bv32)
    requires PrioBits(bits)
    ensures Decode(Encode(group, preempt, sub, bits), group, bits)
         == (Reduce(preempt, PreemptBits(group, bits)), Reduce(sub, SubBits(group, bits)))
  {
    hide PreemptBits, SubBits, JoinFields, HighField, LowField, Reduce;
    FieldsRoundTrip(preempt, sub, PreemptBits(group, bits), SubBits(group, bits));
  }

  lemma JoinFits(p: bv32, s: bv32, pb: bv32, sb: bv32, bits: bv32)
    requires pb <= 7 && sb <= 8 && pb + sb == bits && bits <= 8
    ensures Reduce(JoinFields(p, s, pb, sb), bits) == JoinFields(p, s, pb, sb)
  {
  }

  /** An encoding uses only the implemented bits. */
  lemma EncodeFits(group: bv32, preempt: bv32, sub: bv32, bits: bv32)
    requires PrioBits(bits)
    ensures Reduce(Encode(group, preempt, sub, bits), bits) == Encode(group, preempt, sub, bits)
  {
    hide PreemptBits, SubBits, JoinFields, Reduce;
    FieldsShareBits(group, bits);
    JoinFits(preempt, sub, PreemptBits(group, bits), SubBits(group, bits), bits);
  }

  lemma FieldsCover(v: bv32, pb: bv32, sb: bv32)
    requires pb <= 8 && sb <= 8 && pb + sb <= 8
    ensures JoinFields(HighField(v, pb, sb), LowField(v, sb), pb, sb) == Reduce(v, pb + sb)
  {
  }

  /** Encoding a decoded value reduces it modulo 2^bits. */
  lemma EncodeOfDecode(v: bv32, group: bv32, bits: bv32)
    requires PrioBits(bits)
    ensures var d := Decode(v, group, bits); Encode(group, d.0, d.1, bits) == Reduce(v, bits)
  {
    hide PreemptBits, SubBits, JoinFields, HighField, LowField, Reduce;
    FieldsShareBits(group, bits);
    FieldsCover(v, PreemptBits(group, bits), SubBits(group, bits));
  }

  /** Field values within their widths, and their lexicographic order. */
  predicate InRange(p: bv32, s: bv32, pb: bv32, sb: bv32)
    requires pb <= 8 && sb <= 8
  {
    Fits(p, pb) && Fits(s, sb)
  }

  predicate Fits(v: bv32, n: bv32)
    requires n <= 8
  {
    Reduce(v, n) == v
  }

  predicate FieldsBefore(p: bv32, s: bv32, p': bv32, s': bv32) {
    Before(p, p') || (p == p' && Before(s, s'))
  }

  predicate Before(a: bv32, b: bv32) { a < b }

  function Joined(p: bv32, s: bv32, sb: bv32): bv32
    requires sb <= 8
  {
    (p << sb) | s
  }

  lemma FitsBelow(v: bv32, n: bv32)
    requires n <= 8 && Fits(v, n)
    ensures v <= Mask(n)
  {
  }

  /** The shift is fixed case by case: the solver compares constant shifts easily. */
  lemma LargerHighFieldAt(p: bv32, s: bv32, p': bv32, s': bv32, sb: bv32)
    requires sb <= 8 && p < p' && p' <= 0x7F && s <= Mask(sb)
    ensures Joined(p, s, sb) < Joined(p', s', sb)
  {
    if sb == 0 {} else if sb == 1 {} else if sb == 2 {} else if sb == 3 {} else if sb == 4 {}
    else if sb == 5 {} else if sb == 6 {} else if sb == 7 {} else {}
  }

  lemma LargerHighField(p: bv32, s: bv32, p': bv32, s': bv32, sb: bv32)
    requires sb <= 8 && Before(p, p') && Fits(p', 7) && Fits(s, sb)
    ensures Before(Joined(p, s, sb), Joined(p', s', sb))
  {
    hide Fits, Joined;
    FitsBelow(s, sb);
    FitsBelow(p', 7);
    LargerHighFieldAt(p, s, p', s', sb);
  }

  lemma LargerLowField(p: bv32, s: bv32, s': bv32, sb: bv32)
    requires sb <= 8 && Fits(p, 7) && Before(s, s') && Fits(s', sb)
    ensures Before(Joined(p, s, sb), Joined(p, s', sb))
  {
  }

  lemma BeforeAsymmetric(a: bv32, b: bv32)
    ensures !(Before(a, b) && Before(b, a))
  {
  }

  predicate IsByte(v: bv32) { v & 0xFF == v }

  lemma FitsByte(v: bv32, n: bv32)
    requires n <= 8 && Fits(v, n)
    ensures IsByte(v)
  {
  }

  lemma BeforeTotal(a: bv32, b: bv32)
    requires IsByte(a) && IsByte(b)
    ensures Before(a, b) || Before(b, a) || a == b
  {
  }

  lemma JoinedForward(p: bv32, s: bv32, p': bv32, s': bv32, sb: bv32)
    requires sb <= 8 && Fits(p', 7) && Fits(s, sb) && Fits(s', sb)
    requires FieldsBefore(p, s, p', s')
    ensures Before(Joined(p, s, sb), Joined(p', s', sb))
  {
    hide Joined, Fits, Before;
    if Before(p, p') {
      LargerHighField(p, s, p', s', sb);
    } else {
      LargerLowField(p, s, s', sb);
    }
  }

  lemma FieldsTotal(p: bv32, s: bv32, p': bv32, s': bv32)
    requires IsByte(p) && IsByte(p') && IsByte(s) && IsByte(s')
    ensures FieldsBefore(p, s, p', s') || FieldsBefore(p', s', p, s) || (p == p' && s == s')
  {
    hide Before, IsByte;
    BeforeTotal(p, p');
    BeforeTotal(s, s');
  }

  lemma JoinedOrder(p: bv32, s: bv32, p': bv32, s': bv32, sb: bv32)
    requires sb <= 8 && Fits(p, 7) && Fits(p', 7) && Fits(s, sb) && Fits(s', sb)
    ensures Before(Joined(p, s, sb), Joined(p', s', sb)) <==> FieldsBefore(p, s, p', s')
  {
    hide Joined, Fits, Before, FieldsBefore, IsByte;
    FitsByte(p, 7);
    FitsByte(p', 7);
    FitsByte(s, sb);
    FitsByte(s', sb);
    BeforeAsymmetric(Joined(p, s, sb), Joined(p', s', sb));
    FieldsTotal(p, s, p', s');
    if FieldsBefore(p, s, p', s') {
      JoinedForward(p, s, p', s', sb);
    } else if FieldsBefore(p', s', p, s) {
      JoinedForward(p', s', p, s, sb);
    }
  }

  lemma FitsWider(v: bv32, n: bv32)
    requires n <= 7 && Fits(v, n)
    ensures Fits(v, 7)
  {
  }

  lemma JoinOfInRange(p: bv32, s: bv32, pb: bv32, sb: bv32)
    requires pb <= 7 && sb <= 8 && InRange(p, s, pb, sb)
    ensures Fits(p, 7) && Fits(s, sb) && JoinFields(p, s, pb, sb) == Joined(p, s, sb)
  {
    hide Reduce;
    FitsWider(p, pb);
  }

  lemma FieldsOrder(p: bv32, s: bv32, p': bv32, s': bv32, pb: bv32, sb: bv32)
    requires pb <= 7 && sb <= 8 && InRange(p, s, pb, sb) && InRange(p', s', pb, sb)
    ensures Before(JoinFields(p, s, pb, sb), JoinFields(p', s', pb, sb)) <==> FieldsBefore(p, s, p', s')
  {
    hide JoinFields, Joined, InRange, Before, FieldsBefore, Fits;
    JoinOfInRange(p, s, pb, sb);
    JoinOfInRange(p', s', pb, sb);
    JoinedOrder(p, s, p', s', sb);
  }

  /** The hardware's numeric comparison is the lexicographic order of the fields. */
  lemma EncodeOrder(group: bv32, p: bv32, s: bv32, p': bv32, s': bv32, bits: bv32)
    requires PrioBits(bits)
    requires InRange(p, s, PreemptBits(group, bits), SubBits(group, bits))
    requires InRange(p', s', PreemptBits(group, bits), SubBits(group, bits))
    ensures Before(Encode(group, p, s, bits), Encode(group, p', s', bits)) <==> FieldsBefore(p, s, p', s')
  {
    hide PreemptBits, SubBits, JoinFields, InRange, Before, FieldsBefore;
    FieldsOrder(p, s, p', s', PreemptBits(group, bits), SubBits(group, bits));
  }

  function Above(a: bv32, k: bv32): bv32
    requires k <= 8
  {
    a >> k
  }

  lemma AboveTwice(a: bv32, m: bv32, n: bv32)
    requires m <= 8 && n <= 8 && m + n <= 8
    ensures Above(Above(a, m), n) == Above(a, m + n)
  {
    if m == 0 {} else if m == 1 {} else if m == 2 {} else if m == 3 {} else if m == 4 {}
    else if m == 5 {} else if m == 6 {} else if m == 7 {} else {}
  }

  lemma AboveFits(a: bv32, n: bv32)
    requires a <= 0xFF && n <= 8
    ensures Reduce(Above(a, n), 8 - n) == Above(a, n)
  {
  }

  /** How the two widths sit in the register byte: the level starts at bit g + 1, or at the
      lowest implemented bit when that is higher. */
  lemma Widths(group: bv32, bits: bv32)
    requires PrioBits(bits)
    ensures var g, pb, sb := group & 0x07, PreemptBits(group, bits), SubBits(group, bits);
      && g <= 7 && 8 - bits <= 8 && sb <= 8 && 8 - bits + sb <= 8 && pb == 8 - (8 - bits + sb)
      && g + 1 <= 8 && (if g + bits < 7 then sb == 0 && g + 1 <= 8 - bits else 8 - bits + sb == g + 1)
  {
  }

  lemma NothingBelow(a: bv32, n: bv32, k: bv32)
    requires n <= 8 && k <= n && Reduce(a, n) == 0
    ensures Below(Above(a, k), k) == a
  {
  }

  function Below(a: bv32, k: bv32): bv32
    requires k <= 8
  {
    a << k
  }

  lemma SameAbove(a: bv32, b: bv32, n: bv32, k: bv32)
    requires n <= 8 && k <= n && Reduce(a, n) == 0 && Reduce(b, n) == 0
    ensures Above(a, k) == Above(b, k) <==> a == b
  {
    hide Above, Below, Reduce;
    NothingBelow(a, n, k);
    NothingBelow(b, n, k);
  }

  lemma LevelAbove(a: bv32, bits: bv32, pb: bv32, sb: bv32)
    requires PrioBits(bits) && a <= 0xFF && 8 - bits <= 8 && sb <= 8 && 8 - bits + sb <= 8
    requires pb == 8 - (8 - bits + sb) && pb <= 8
    ensures HighField(Above(a, 8 - bits), pb, sb) == Above(a, 8 - bits + sb)
  {
    hide Reduce;
    AboveTwice(a, 8 - bits, sb);
    AboveFits(a, 8 - bits + sb);
  }

  lemma LevelsAgree(a: bv32, b: bv32, g: bv32, bits: bv32, few: bool, start: bv32)
    requires PrioBits(bits) && 8 - bits <= 8 && g + 1 <= 8 && start <= 8
    requires Reduce(a, 8 - bits) == 0 && Reduce(b, 8 - bits) == 0
    requires if few then start == 8 - bits && g + 1 <= 8 - bits else start == g + 1
    ensures Above(a, start) == Above(b, start) <==> Above(a, g + 1) == Above(b, g + 1)
  {
    hide Reduce, Above;
    if few {
      SameAbove(a, b, 8 - bits, 8 - bits);
      SameAbove(a, b, 8 - bits, g + 1);
    }
  }

  function LevelOf(byte: bv32, group: bv32, bits: bv32): bv32
    requires PrioBits(bits)
  {
    Decode(byte >> (8 - bits), group, bits).0
  }

  /** Where the level of a register byte starts. */
  function LevelStart(group: bv32, bits: bv32): (n: bv32)
    requires PrioBits(bits)
    ensures n <= 8
  {
    Widths(group, bits);
    8 - bits + SubBits(group, bits)
  }

  lemma LevelIsAbove(a: bv32, group: bv32, bits: bv32)
    requires PrioBits(bits) && a <= 0xFF
    ensures LevelOf(a, group, bits) == Above(a, LevelStart(group, bits))
  {
    ShiftIsAbove(a, 8 - bits);
    hide PreemptBits, SubBits, HighField, LowField, Reduce, Above;
    Widths(group, bits);
    LevelAbove(a, bits, PreemptBits(group, bits), SubBits(group, bits));
  }

  lemma ShiftIsAbove(a: bv32, n: bv32)
    requires n <= 8
    ensures a >> n == Above(a, n)
  {
  }

  lemma LevelStarts(group: bv32, bits: bv32)
    requires PrioBits(bits)
    ensures var g := group & 0x07;
      && 8 - bits <= 8 && g + 1 <= 8
      && (if g + bits < 7 then LevelStart(group, bits) == 8 - bits && g + 1 <= 8 - bits
          else LevelStart(group, bits) == g + 1)
  {
    hide PreemptBits, SubBits;
    Widths(group, bits);
  }

  lemma LevelsMeet(a: bv32, b: bv32, group: bv32, bits: bv32)
    requires PrioBits(bits) && Reduce(a, 8 - bits) == 0 && Reduce(b, 8 - bits) == 0
    requires (group & 0x07) + 1 <= 8
    ensures Above(a, LevelStart(group, bits)) == Above(b, LevelStart(group, bits)) <==>
      Above(a, (group & 0x07) + 1) == Above(b, (group & 0x07) + 1)
  {
    hide LevelStart, Reduce, Above;
    LevelStarts(group, bits);
    var g := group & 0x07;
    LevelsAgree(a, b, g, bits, g + bits < 7, LevelStart(group, bits));
  }

  /** The meaning of a group: two handlers whose register bytes hold implemented bits only
      share a preemption level exactly when the bytes agree above bit g. */
  lemma BinaryPoint(a: bv32, b: bv32, group: bv32, bits: bv32)
    requires PrioBits(bits) && a <= 0xFF && b <= 0xFF
    requires Reduce(a, 8 - bits) == 0 && Reduce(b, 8 - bits) == 0
    ensures (group & 0x07) + 1 <= 8
    ensures LevelOf(a, group, bits) == LevelOf(b, group, bits) <==>
      Above(a, (group & 0x07) + 1) == Above(b, (group & 0x07) + 1)
  {
    hide LevelOf, LevelStart, Above, Reduce;
    LevelStarts(group, bits);
    LevelIsAbove(a, group, bits);
    LevelIsAbove(b, group, bits);
    LevelsMeet(a, b, group, bits);
  }

  // ----- one byte per interrupt -----

  datatype ByteRegs = ByteRegs(shp: seq<bv8>, ip: seq<bv8>) {
    predicate Valid() { |shp| == 12 && |ip| == 240 }
  }

  /** Interrupts with a byte of their own. */
  predicate ByteSupported(irq: int) { -12 <= irq < 240 }

  /** `(IRQn & 0xF) - 4` */
  function ShpByteIndex(irq: int): int { irq % 0x10 - 4 }

  /** `(priority << (8 - bits)) & 0xFF`, the form both layouts store. */
  function Aligned(priority: bv32, bits: bv32): (v: bv32)
    requires PrioBits(bits)
    ensures v <= 0xFF
  {
    (priority << (8 - bits)) & 0xFF
  }

  /** `>> (8 - bits)` */
  function Unaligned(byte: bv32, bits: bv32): bv32
    requires PrioBits(bits)
  {
    byte >> (8 - bits)
  }

  function ToByte(v: bv32): bv8
    requires v <= 0xFF
  {
    v as bv8
  }

  function FromByte(b: bv8): bv32 { b as bv32 }

  function ByteSet(r: ByteRegs, irq: int, priority: bv32, bits: bv32): (r': ByteRegs)
    requires r.Valid() && ByteSupported(irq) && PrioBits(bits)
    ensures r'.Valid()
  {
    if irq < 0 then r.(shp := r.shp[ShpByteIndex(irq) := ToByte(Aligned(priority, bits))])
    else r.(ip := r.ip[irq := ToByte(Aligned(priority, bits))])
  }

  function ByteOf(r: ByteRegs, irq: int): bv32
    requires r.Valid() && ByteSupported(irq)
  {
    FromByte(if irq < 0 then r.shp[ShpByteIndex(irq)] else r.ip[irq])
  }

  function ByteGet(r: ByteRegs, irq: int, bits: bv32): bv32
    requires r.Valid() && ByteSupported(irq) && PrioBits(bits)
  {
    Unaligned(ByteOf(r, irq), bits)
  }

  class ByteNvic {
    const shp: array<bv8>
    const ip: array<bv8>

    ghost predicate Valid() { shp.Length == 12 && ip.Length == 240 && shp != ip }

    ghost function Regs(): ByteRegs
      reads shp, ip
    {
      ByteRegs(shp[..], ip[..])
    }

    constructor ()
      ensures Valid() && fresh(shp) && fresh(ip)
    {
      shp := new bv8[12];
      ip := new bv8[240];
    }

    method SetPriority(irq: int, priority: bv32, bits: bv32)
      requires Valid() && ByteSupported(irq) && PrioBits(bits)
      modifies shp, ip
      ensures Regs() == ByteSet(old(Regs()), irq, priority, bits)
      ensures var v := ((priority << (8 - bits)) & 0xFF) as bv8;
        if irq < 0 then shp[..] == old(shp[..])[irq + 12 := v] && ip[..] == old(ip[..])
        else ip[..] == old(ip[..])[irq := v] && shp[..] == old(shp[..])
    {
      if irq < 0 {
        shp[ShpByteIndex(irq)] := ToByte(Aligned(priority, bits));
      } else {
        ip[irq] := ToByte(Aligned(priority, bits));
      }
      assert irq < 0 ==> ip[..] == old(ip[..]);
      assert irq >= 0 ==> shp[..] == old(shp[..]);
    }

    method GetPriority(irq: int, bits: bv32) returns (priority: bv32)
      requires Valid() && ByteSupported(irq) && PrioBits(bits)
      ensures priority == ByteGet(Regs(), irq, bits)
      ensures priority == (if irq < 0 then shp[irq + 12] else ip[irq]) as bv32 >> (8 - bits)
    {
      if irq < 0 {
        priority := Unaligned(FromByte(shp[ShpByteIndex(irq)]), bits);
      } else {
        priority := Unaligned(FromByte(ip[irq]), bits);
      }
    }
  }

  // ----- four bytes per word -----

  datatype WordRegs = WordRegs(shp: seq<bv32>, ip: seq<bv32>) {
    predicate Valid() { |shp| == 2 && |ip| == 8 }
  }

  predicate WordSupported(irq: int) { -8 <= irq < 32 }

  /** `IRQn & 3` */
  function LaneNumber(irq: int): (k: bv32)
    ensures k <= 3
  {
    if irq % 4 == 0 then 0 else if irq % 4 == 1 then 1 else if irq % 4 == 2 then 2 else 3
  }

  /** `((IRQn & 0x0F) - 8) >> 2` */
  function ShpIndex(irq: int): int { (irq % 0x10 - 8) / 4 }

  /** `IRQn >> 2` */
  function IpIndex(irq: int): int { irq / 4 }

  /** `(word & ~(0xFF << 8k)) | (v << 8k)` */
  function SetLane(word: bv32, k: bv32, v: bv32): bv32
    requires k <= 3
  {
    (word & !(0xFF << (k * 8))) | (v << (k * 8))
  }

  /** `(word >> 8k) & 0xFF` */
  function Lane(word: bv32, k: bv32): bv32
    requires k <= 3
  {
    (word >> (k * 8)) & 0xFF
  }

  function WordSet(r: WordRegs, irq: int, priority: bv32, bits: bv32): (r': WordRegs)
    requires r.Valid() && WordSupported(irq) && PrioBits(bits)
    ensures r'.Valid()
  {
    if irq < 0 then
      r.(shp := r.shp[ShpIndex(irq) := SetLane(r.shp[ShpIndex(irq)], LaneNumber(irq), Aligned(priority, bits))])
    else
      r.(ip := r.ip[IpIndex(irq) := SetLane(r.ip[IpIndex(irq)], LaneNumber(irq), Aligned(priority, bits))])
  }

  function WordOf(r: WordRegs, irq: int): bv32
    requires r.Valid() && WordSupported(irq)
  {
    if irq < 0 then r.shp[ShpIndex(irq)] else r.ip[IpIndex(irq)]
  }

  function WordGet(r: WordRegs, irq: int, bits: bv32): bv32
    requires r.Valid() && WordSupported(irq) && PrioBits(bits)
  {
    Unaligned(Lane(WordOf(r, irq), LaneNumber(irq)), bits)
  }

  /** The word with byte k of it replaced, byte 0 being the lowest. */
  function Merged(word: bv32, k: int, v: bv32): bv32 {
    if k == 0 then (word & 0xFFFF_FF00) | v
    else if k == 1 then (word & 0xFFFF_00FF) | (v << 8)
    else if k == 2 then (word & 0xFF00_FFFF) | (v << 16)
    else (word & 0x00FF_FFFF) | (v << 24)
  }

  /** Byte k of the word. */
  function Extracted(word: bv32, k: int): bv32 {
    if k == 0 then word & 0xFF
    else if k == 1 then (word >> 8) & 0xFF
    else if k == 2 then (word >> 16) & 0xFF
    else word >> 24
  }

  lemma LowLanesMerged(word: bv32, v: bv32)
    ensures SetLane(word, 0, v) == Merged(word, 0, v) && SetLane(word, 1, v) == Merged(word, 1, v)
  {
  }

  lemma HighLanesMerged(word: bv32, v: bv32)
    ensures SetLane(word, 2, v) == Merged(word, 2, v) && SetLane(word, 3, v) == Merged(word, 3, v)
  {
  }

  lemma LanesExtracted(word: bv32)
    ensures Lane(word, 0) == Extracted(word, 0) && Lane(word, 1) == Extracted(word, 1)
    ensures Lane(word, 2) == Extracted(word, 2) && Lane(word, 3) == Extracted(word, 3)
  {
  }

  lemma LaneIsMerged(word: bv32, irq: int, v: bv32)
    ensures SetLane(word, LaneNumber(irq), v) == Merged(word, irq % 4, v)
    ensures Lane(word, LaneNumber(irq)) == Extracted(word, irq % 4)
  {
    LowLanesMerged(word, v);
    HighLanesMerged(word, v);
    LanesExtracted(word);
    hide SetLane, Lane, Merged, Extracted;
  }

  lemma WordIndices(irq: int)
    requires WordSupported(irq)
    ensures irq < 0 ==> ShpIndex(irq) == (irq + 8) / 4
    ensures irq >= 0 ==> IpIndex(irq) == irq / 4
  {
  }

  class WordNvic {
    const shp: array<bv32>
    const ip: array<bv32>

    ghost predicate Valid() { shp.Length == 2 && ip.Length == 8 && shp != ip }

    ghost function Regs(): WordRegs
      reads shp, ip
    {
      WordRegs(shp[..], ip[..])
    }

    constructor ()
      ensures Valid() && fresh(shp) && fresh(ip)
    {
      shp := new bv32[2];
      ip := new bv32[8];
      new;
      assert shp.Length != ip.Length;
    }

    method SetPriority(irq: int, priority: bv32, bits: bv32)
      requires Valid() && WordSupported(irq) && PrioBits(bits)
      modifies shp, ip
      ensures Regs() == WordSet(old(Regs()), irq, priority, bits)
      ensures var v := (priority << (8 - bits)) & 0xFF;
        if irq < 0 then
          var k := (irq + 8) / 4;
          shp[..] == old(shp[..])[k := Merged(old(shp[k]), irq % 4, v)] && ip[..] == old(ip[..])
        else
          var k := irq / 4;
          ip[..] == old(ip[..])[k := Merged(old(ip[k]), irq % 4, v)] && shp[..] == old(shp[..])
    {
      hide SetLane, LaneNumber, Merged;
      WordIndices(irq);
      LaneIsMerged(WordOf(Regs(), irq), irq, Aligned(priority, bits));
      if irq < 0 {
        var k := ShpIndex(irq);
        shp[k] := SetLane(shp[k], LaneNumber(irq), Aligned(priority, bits));
      } else {
        var k := IpIndex(irq);
        ip[k] := SetLane(ip[k], LaneNumber(irq), Aligned(priority, bits));
      }
      assert irq < 0 ==> ip[..] == old(ip[..]);
      assert irq >= 0 ==> shp[..] == old(shp[..]);
    }

    method GetPriority(irq: int, bits: bv32) returns (priority: bv32)
      requires Valid() && WordSupported(irq) && PrioBits(bits)
      ensures priority == WordGet(Regs(), irq, bits)
      ensures priority == Extracted(if irq < 0 then shp[(irq + 8) / 4] else ip[irq / 4], irq % 4) >> (8 - bits)
    {
      hide Lane, LaneNumber, Extracted;
      WordIndices(irq);
      LaneIsMerged(WordOf(Regs(), irq), irq, 0);
      if irq < 0 {
        priority := Unaligned(Lane(shp[ShpIndex(irq)], LaneNumber(irq)), bits);
      } else {
        priority := Unaligned(Lane(ip[IpIndex(irq)], LaneNumber(irq)), bits);
      }
    }
  }

  // ----- the word layout refines the byte layout -----

  /** Every supported interrupt's lane holds what its byte holds. */
  ghost predicate Related(w: WordRegs, b: ByteRegs)
    requires w.Valid() && b.Valid()
  {
    forall irq :: WordSupported(irq) ==> Lane(WordOf(w, irq), LaneNumber(irq)) == ByteOf(b, irq)
  }

  lemma OwnLane(word: bv32, k: bv32, v: bv32)
    requires k <= 3 && v <= 0xFF
    ensures Lane(SetLane(word, k, v), k) == v
  {
  }

  lemma OtherLane(word: bv32, k: bv32, k': bv32, v: bv32)
    requires k <= 3 && k' <= 3 && k != k' && v <= 0xFF
    ensures Lane(SetLane(word, k, v), k') == Lane(word, k')
  {
  }

  /** Two interrupts share a word only in different lanes. */
  lemma LanesApart(i: int, j: int)
    requires WordSupported(i) && WordSupported(j) && i != j
    requires i < 0 <==> j < 0
    requires if i < 0 then ShpIndex(i) == ShpIndex(j) else IpIndex(i) == IpIndex(j)
    ensures LaneNumber(i) != LaneNumber(j)
  {
  }

  /** A set writes its own lane and leaves every other interrupt's lane alone. */
  lemma WordSetLanes(r: WordRegs, irq: int, priority: bv32, bits: bv32, other: int)
    requires r.Valid() && WordSupported(irq) && WordSupported(other) && PrioBits(bits)
    ensures Lane(WordOf(WordSet(r, irq, priority, bits), other), LaneNumber(other))
         == if other == irq then Aligned(priority, bits) else Lane(WordOf(r, other), LaneNumber(other))
  {
    hide SetLane, Lane, Aligned, LaneNumber;
    var word := WordOf(r, irq);
    if other == irq {
      OwnLane(word, LaneNumber(irq), Aligned(priority, bits));
    } else if (irq < 0 <==> other < 0) &&
              (if irq < 0 then ShpIndex(irq) == ShpIndex(other) else IpIndex(irq) == IpIndex(other)) {
      LanesApart(irq, other);
      OtherLane(word, LaneNumber(irq), LaneNumber(other), Aligned(priority, bits));
    }
  }

  lemma ByteKeepsValue(v: bv32)
    requires v <= 0xFF
    ensures FromByte(ToByte(v)) == v
  {
  }

  lemma ByteSetBytes(r: ByteRegs, irq: int, priority: bv32, bits: bv32, other: int)
    requires r.Valid() && ByteSupported(irq) && ByteSupported(other) && PrioBits(bits)
    ensures ByteOf(ByteSet(r, irq, priority, bits), other)
         == if other == irq then Aligned(priority, bits) else ByteOf(r, other)
  {
    hide Aligned, FromByte, ToByte;
    ByteKeepsValue(Aligned(priority, bits));
  }

  datatype Write = Write(irq: int, priority: bv32)

  predicate Supported(run: seq<Write>) { forall k :: 0 <= k < |run| ==> WordSupported(run[k].irq) }

  function WordRun(r: WordRegs, run: seq<Write>, bits: bv32): (r': WordRegs)
    requires r.Valid() && Supported(run) && PrioBits(bits)
    ensures r'.Valid()
  {
    if run == [] then r
    else WordSet(WordRun(r, run[..|run| - 1], bits), run[|run| - 1].irq, run[|run| - 1].priority, bits)
  }

  function ByteRun(r: ByteRegs, run: seq<Write>, bits: bv32): (r': ByteRegs)
    requires r.Valid() && Supported(run) && PrioBits(bits)
    ensures r'.Valid()
  {
    if run == [] then r
    else ByteSet(ByteRun(r, run[..|run| - 1], bits), run[|run| - 1].irq, run[|run| - 1].priority, bits)
  }

  /** For every run of sets the layouts stay related, so every read agrees. */
  lemma {:induction false} WordRefinesByte(w: WordRegs, b: ByteRegs, run: seq<Write>, bits: bv32)
    requires w.Valid() && b.Valid() && Supported(run) && PrioBits(bits) && Related(w, b)
    ensures Related(WordRun(w, run, bits), ByteRun(b, run, bits))
    ensures forall irq :: WordSupported(irq) ==>
              WordGet(WordRun(w, run, bits), irq, bits) == ByteGet(ByteRun(b, run, bits), irq, bits)
  {
    hide Lane, WordOf, ByteOf, LaneNumber, WordSet, ByteSet, Aligned, Unaligned;
    if run != [] {
      var prefix, last := run[..|run| - 1], run[|run| - 1];
      WordRefinesByte(w, b, prefix, bits);
      forall irq | WordSupported(irq)
        ensures Lane(WordOf(WordRun(w, run, bits), irq), LaneNumber(irq)) == ByteOf(ByteRun(b, run, bits), irq)
      {
        WordSetLanes(WordRun(w, prefix, bits), last.irq, last.priority, bits, irq);
        ByteSetBytes(ByteRun(b, prefix, bits), last.irq, last.priority, bits, irq);
      }
    }
  }

  /** The priority of the last set of `irq` in the run, or `initial`. */
  function LastPriority(run: seq<Write>, irq: int, initial: bv32): bv32 {
    if run == [] then initial
    else if run[|run| - 1].irq == irq then run[|run| - 1].priority
    else LastPriority(run[..|run| - 1], irq, initial)
  }

  lemma AlignedReadsBack(priority: bv32, bits: bv32)
    requires PrioBits(bits)
    ensures Unaligned(Aligned(priority, bits), bits) == Reduce(priority, bits)
  {
  }

  lemma LaneIsByte(word: bv32, k: bv32)
    requires k <= 3
    ensures Lane(word, k) <= 0xFF
  {
  }

  lemma GetReduced(lane: bv32, bits: bv32)
    requires PrioBits(bits) && lane <= 0xFF
    ensures Reduce(Unaligned(lane, bits), bits) == Unaligned(lane, bits)
  {
  }

  /** The same over what the registers hold. */
  function LastAligned(run: seq<Write>, irq: int, initial: bv32, bits: bv32): bv32
    requires PrioBits(bits)
  {
    if run == [] then initial
    else if run[|run| - 1].irq == irq then Aligned(run[|run| - 1].priority, bits)
    else LastAligned(run[..|run| - 1], irq, initial, bits)
  }

  lemma {:induction false} LaneAfterRun(w: WordRegs, run: seq<Write>, bits: bv32, irq: int)
    requires w.Valid() && Supported(run) && PrioBits(bits) && WordSupported(irq)
    ensures Lane(WordOf(WordRun(w, run, bits), irq), LaneNumber(irq))
         == LastAligned(run, irq, Lane(WordOf(w, irq), LaneNumber(irq)), bits)
  {
    hide Lane, WordOf, LaneNumber, WordSet, Aligned;
    if run != [] {
      var prefix, last := run[..|run| - 1], run[|run| - 1];
      LaneAfterRun(w, prefix, bits, irq);
      WordSetLanes(WordRun(w, prefix, bits), last.irq, last.priority, bits, irq);
    }
  }

  lemma {:induction false} LastAlignedReadsBack(run: seq<Write>, irq: int, lane: bv32, bits: bv32)
    requires PrioBits(bits) && lane <= 0xFF
    ensures Unaligned(LastAligned(run, irq, lane, bits), bits)
         == Reduce(LastPriority(run, irq, Unaligned(lane, bits)), bits)
  {
    hide Aligned, Unaligned, Reduce;
    if run == [] {
      GetReduced(lane, bits);
    } else if run[|run| - 1].irq == irq {
      AlignedReadsBack(run[|run| - 1].priority, bits);
    } else {
      LastAlignedReadsBack(run[..|run| - 1], irq, lane, bits);
    }
  }

  /** Reading after any run returns the last priority set for that interrupt, reduced to
      the implemented bits, or the initial one. */
  lemma GetReturnsLast(w: WordRegs, run: seq<Write>, bits: bv32, irq: int)
    requires w.Valid() && Supported(run) && PrioBits(bits) && WordSupported(irq)
    ensures WordGet(WordRun(w, run, bits), irq, bits)
         == Reduce(LastPriority(run, irq, WordGet(w, irq, bits)), bits)
  {
    hide Lane, WordOf, LaneNumber, WordRun, LastAligned, LastPriority, Unaligned, Reduce;
    LaneIsByte(WordOf(w, irq), LaneNumber(irq));
    LaneAfterRun(w, run, bits, irq);
    LastAlignedReadsBack(run, irq, Lane(WordOf(w, irq), LaneNumber(irq)), bits);
  }

  /** Encode, set, get, decode in either layout returns the two fields reduced to their
      widths. */
  lemma StoredFields(w: WordRegs, b: ByteRegs, irq: int, group: bv32, preempt: bv32, sub: bv32, bits: bv32)
    requires w.Valid() && b.Valid() && WordSupported(irq) && PrioBits(bits)
    ensures var e := Encode(group, preempt, sub, bits);
            var fields := (Reduce(preempt, PreemptBits(group, bits)), Reduce(sub, SubBits(group, bits)));
            && Decode(WordGet(WordSet(w, irq, e, bits), irq, bits), group, bits) == fields
            && Decode(ByteGet(ByteSet(b, irq, e, bits), irq, bits), group, bits) == fields
  {
    hide Lane, WordOf, ByteOf, LaneNumber, WordSet, ByteSet, Aligned, Unaligned;
    hide Reduce, Encode, Decode, PreemptBits, SubBits;
    var e := Encode(group, preempt, sub, bits);
    WordSetLanes(w, irq, e, bits, irq);
    ByteSetBytes(b, irq, e, bits, irq);
    AlignedReadsBack(e, bits);
    EncodeFits(group, preempt, sub, bits);
    DecodeOfEncode(group, preempt, sub, bits);
  }
}
