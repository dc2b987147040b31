/** The descriptors and the stage 1 EL1&0 translation of the Arm architecture
    (VMSAv8-64, 4 KiB granule), for tables of three levels or four. */
module Vmsa {
  import opened Bits
  import opened PageTree
  import opened Va39

  const VALID: U64 := 1
  const TABLE_OR_PAGE: U64 := 2
  const ADDR_MASK: U64 := 0xFFFF_FFFF_F000
  const AP_USER: U64 := 64
  const AP_RO: U64 := 128
  const SH_INNER: U64 := 0x300
  const AF: U64 := 1024
  const PXN: U64 := 0x20_0000_0000_0000
  const UXN: U64 := 0x40_0000_0000_0000

  /** Frames a descriptor can name: output address bits 47..12. */
  const FRAMES: nat := 0x10_0000_0000

  /** A descriptor is valid by bit 0; above the last level bit 1 clear makes it a
      block, if the mapper looks for blocks; bits 47..12 are the next table. */
  function DescriptorWords(blocks: bool): Codec {
    Codec(e => e % 2 == 1, e => blocks && e / 2 % 2 == 0, e => e / 4096 % FRAMES, t => Descriptor(t, 3, 0))
  }

  /** The descriptor of `frame` with the given bits 11..0 and 55..53. */
  function Descriptor(frame: nat, low: nat, high: nat): U64 {
    if low < 4096 && high < 8 then high * 0x20_0000_0000_0000 + frame % FRAMES * 4096 + low else 0
  }

  lemma DescriptorsAreLawful(blocks: bool, frames: nat)
    requires frames <= FRAMES
    ensures Lawful(DescriptorWords(blocks), frames)
  {
    var c := DescriptorWords(blocks);
    forall t: nat | t < frames ensures Points(c, c.table(t)) && c.next(c.table(t)) == t {
      LowFields(t, 3, 0);
    }
  }

  /** The fields of a descriptor. */
  lemma LowFields(f: nat, low: nat, high: nat)
    requires low < 4096 && high < 8
    ensures var e := Descriptor(f, low, high);
      && e % 2 == low % 2 && e / 2 % 2 == low / 2 % 2 && e / 64 % 2 == low / 64 % 2
      && e / 128 % 2 == low / 128 % 2 && e / 1024 % 2 == low / 1024 % 2
      && e / 4 % 8 == low / 4 % 8 && e / 256 % 4 == low / 256 % 4
      && e / 4096 % FRAMES == f % FRAMES
  {
    var g := high * 0x200_0000_0000 + f % FRAMES;
    assert Descriptor(f, low, high) == g * 4096 + low;
    FieldIgnoresHigh(g, low, 1, 2, 2048);
    FieldIgnoresHigh(g, low, 2, 2, 1024);
    FieldIgnoresHigh(g, low, 64, 2, 32);
    FieldIgnoresHigh(g, low, 128, 2, 16);
    FieldIgnoresHigh(g, low, 1024, 2, 2);
    FieldIgnoresHigh(g, low, 4, 8, 128);
    FieldIgnoresHigh(g, low, 256, 4, 4);
    ModUnique(g * 4096 + low, 4096, g, low);
    FrameField(f % FRAMES, high);
  }

  lemma FrameField(f: nat, high: nat)
    requires f < FRAMES
    ensures (high * 0x200_0000_0000 + f) % FRAMES == f
  {
    ModUnique(high * 0x200_0000_0000 + f, FRAMES, high * 32, f);
  }

  lemma HighFields(f: nat, low: nat, high: nat)
    requires low < 4096 && high < 4
    ensures var e := Descriptor(f, low, high);
      && e / PXN % 2 == high % 2 && e / UXN % 2 == high / 2 && e < 0x80_0000_0000_0000
  {
    var e := Descriptor(f, low, high);
    ModUnique(e, PXN, high, f % FRAMES * 4096 + low);
    var up, rest := high / 2, high % 2 * PXN + (f % FRAMES * 4096 + low);
    assert e == up * UXN + rest;
    ModUnique(e, UXN, up, rest);
  }

  // ---------------------------------------------------------------------------
  // Building descriptors
  // ---------------------------------------------------------------------------

  lemma AddressField(e: U64)
    ensures And(e, ADDR_MASK) == e / 4096 % FRAMES * 4096
  {
    Powers();
    AndField(e, 12, 48);
    FieldValue(e);
  }

  lemma FieldValue(e: nat)
    ensures e % 0x1_0000_0000_0000 - e % 4096 == e / 4096 % FRAMES * 4096
  {
    var q := e / 4096;
    assert e == (q / FRAMES * FRAMES + q % FRAMES) * 4096 + e % 4096;
    ModUnique(e, 0x1_0000_0000_0000, q / FRAMES, q % FRAMES * 4096 + e % 4096);
  }

  lemma TableWord(t: U64)
    ensures Or(Or(And(t, ADDR_MASK), VALID), TABLE_OR_PAGE) == Descriptor(t / 4096, 3, 0)
  {
    hide And, Or;
    AddressField(t);
    PointerBits(t / 4096 % FRAMES);
  }

  lemma PointerBits(f: nat)
    ensures Or(Or(f * 4096, VALID), TABLE_OR_PAGE) == f * 4096 + 3
  {
    hide And, Or, Shr;
    MulMod(f, 4096);
    Powers();
    OrDisjoint(f * 4096, 1, 12);
    assert Pow2(1) == 2;
    ShrBy(f * 4096 + 1, 1, 2);
    FieldIgnoresHigh(f, 1, 2, 2, 1024);
    OrBit(f * 4096 + 1, 1);
  }

  lemma AddressWord(a: U64, low: nat, high: nat)
    requires low < 4096 && high < 8
    ensures Or(And(a, ADDR_MASK), high * PXN + low) == Descriptor(a / 4096, low, high)
  {
    AddressField(a);
    var f := a / 4096 % FRAMES;
    MulMod(f, 4096);
    Powers();
    Pow2Add(44, 9);
    OrBetween(f * 4096, high, low, 12, 53);
  }

  lemma Shareable(a: nat)
    requires a < 4
    ensures Or(a, SH_INNER) == 0x300 + a
  {
    hide And, Or;
    assert Pow2(8) == 256;
    OrDisjoint(SH_INNER, a, 8);
    OrCommutes(a, SH_INNER);
  }

  lemma AccessedBit(a: nat)
    requires a < 1024
    ensures Or(a, AF) == 1024 + a
  {
    hide And, Or;
    Powers();
    OrDisjoint(AF, a, 10);
    OrCommutes(a, AF);
  }

  lemma HighBitsAdded(low: nat)
    requires low < 4096
    ensures Or(low, Or(UXN, PXN)) == 3 * PXN + low
    ensures Or(low, PXN) == PXN + low && Or(low, UXN) == 2 * PXN + low
  {
    Powers();
    Pow2Add(44, 9);
    Pow2Add(1, 53);
    assert Pow2(1) == 2;
    OrDisjoint(UXN, PXN, 54);
    HighPart(low, 1);
    HighPart(low, 2);
    HighPart(low, 3);
  }

  lemma HighPart(low: nat, high: nat)
    requires low < 4096 && Pow2(53) == PXN
    ensures Or(low, high * PXN) == high * PXN + low
  {
    MulMod(high, PXN);
    OrDisjoint(high * PXN, low, 53);
    OrCommutes(low, high * PXN);
  }

  // ---------------------------------------------------------------------------
  // The translation the hardware performs
  // ---------------------------------------------------------------------------

  /** EL0, or EL1 with or without PSTATE.PAN. */
  datatype Regime = El0 | El1(pan: bool)

  datatype Translated =
    | TranslationFault | AddressSizeFault | AccessFlagFault | PermissionFault | ExternalAbort
    | Physical(addr: nat, kind: MemoryType)

  /** What MAIR_EL1 makes of memory: Normal write-back with a shareability (3 is inner),
      the strictest Device memory, or another attribute byte. */
  datatype MemoryType = WriteBack(shareability: nat) | DeviceNGnRnE | Attributes(byte: nat)

  /** As both `activate` routines program it: index 0 write-back, all others Device. */
  const MAIR_EL1: nat := 0x00FF

  /** The memory type a descriptor selects: AttrIndx in bits 4..2, SH in bits 9..8. */
  function TypeOf(d: nat): MemoryType {
    var attr := MAIR_EL1 / Pow2(8 * (d / 4 % 8)) % 256;
    if attr == 0xFF then WriteBack(d / 256 % 4) else if attr == 0 then DeviceNGnRnE else Attributes(attr)
  }

  lemma TypeByIndex(d: nat)
    ensures d / 4 % 8 == 0 ==> TypeOf(d) == WriteBack(d / 256 % 4)
    ensures d / 4 % 8 == 1 ==> TypeOf(d) == DeviceNGnRnE
  {
    assert Pow2(0) == 1 && Pow2(8) == 256;
  }

  /** What the table descriptors passed so far take away (APTable, UXNTable, PXNTable). */
  datatype Limits = Limits(noEl0: bool, readOnly: bool, uxn: bool, pxn: bool)

  predicate Has(e: nat, bit: nat)
    requires bit > 0
  {
    e / bit % 2 == 1
  }

  function Restrict(l: Limits, d: U64): Limits {
    Limits(l.noEl0 || Has(d, 0x2000_0000_0000_0000), l.readOnly || Has(d, 0x4000_0000_0000_0000),
           l.uxn || Has(d, 0x1000_0000_0000_0000), l.pxn || Has(d, 0x800_0000_0000_0000))
  }

  const UNLIMITED := Limits(false, false, false, false)

  /** Level 3 - `i` of the walk, in table `a`; output frames lie below `out`. */
  function WalkAt(m: Memory, out: nat, a: nat, i: nat, va: U64, acc: Access, el: Regime, l: Limits): Translated
    decreases i
  {
    if a >= |m| then ExternalAbort
    else
      var d := m[a][Vpn(va, i)];
      if !Has(d, 1) then TranslationFault
      else if i == 0 then (if Has(d, 2) then LeafAt(d, out, 0, va, acc, el, l) else TranslationFault)
      else if !Has(d, 2) then (if i < 3 then LeafAt(d, out, i, va, acc, el, l) else TranslationFault)
      else if d / 4096 % 0x10_0000_0000 >= out then AddressSizeFault
      else WalkAt(m, out, d / 4096 % 0x10_0000_0000, i - 1, va, acc, el, Restrict(l, d))
  }

  /** A page or block descriptor: output size, access flag (bit 10), permissions (AP in
      bits 6 and 7, PXN bit 53, UXN bit 54), memory type. */
  function LeafAt(d: U64, out: nat, i: nat, va: U64, acc: Access, el: Regime, l: Limits): Translated {
    var span := if i == 0 then 1 else if i == 1 then 512 else 0x4_0000;
    var base := d / 4096 % 0x10_0000_0000 / span * span;
    if base >= out then AddressSizeFault
    else if !Has(d, 1024) then AccessFlagFault
    else if !Permits(Has(d, 64) && !l.noEl0, !Has(d, 128) && !l.readOnly,
                     Has(d, 0x40_0000_0000_0000) || l.uxn, Has(d, 0x20_0000_0000_0000) || l.pxn, acc, el) then PermissionFault
    else Physical((base + va / 4096 % span) * 4096 + va % 4096, TypeOf(d))
  }

  /** `el0`: EL0 may access data; `w`: writable. A page EL0 may write is never
      executable at EL1. */
  predicate Permits(el0: bool, w: bool, uxn: bool, pxn: bool, acc: Access, el: Regime) {
    match el
    case El0 => (match acc case Load => el0 case Store => el0 && w case Fetch => !uxn)
    case El1(pan) => (match acc
                      case Load => !(pan && el0)
                      case Store => w && !(pan && el0)
                      case Fetch => !pxn && !(el0 && w))
  }

  /** What the hardware makes of the descriptor a walk ends on. */
  function WordEnds(out: nat, e: End, va: U64, acc: Access, el: Regime): Translated {
    match e
    case Fault => TranslationFault
    case Stop(i, d) =>
      if i >= 3 || (i == 0 && !Has(d, 2)) then TranslationFault else LeafAt(d, out, i, va, acc, el, UNLIMITED)
  }

  /** The attribute bits of a valid leaf: page or block bit, AttrIndx, EL0 access, read-only
      and shareability fields of `low`, and PXN and UXN in `high`. */
  predicate LeafBits(low: nat, high: nat, page: bool, index: nat, el0: bool, readOnly: bool, pxn: bool, uxn: bool) {
    && low < 4096 && high < 4
    && low % 2 == 1 && (low / 2 % 2 == 1 <==> page) && low / 4 % 8 == index && (low / 64 % 2 == 1 <==> el0)
    && (low / 128 % 2 == 1 <==> readOnly) && low / 256 % 4 == 3 && low / 1024 % 2 == 1
    && (high % 2 == 1 <==> pxn) && (high / 2 == 1 <==> uxn)
  }

  /** What the hardware makes of a descriptor with such bits. */
  lemma DescriptorMeaning(f: nat, low: nat, high: nat, index: nat, el0: bool, readOnly: bool, pxn: bool, uxn: bool,
                          out: nat, i: nat, va: U64, acc: Access, el: Regime)
    requires i < 3 && index <= 1 && LeafBits(low, high, i == 0, index, el0, readOnly, pxn, uxn)
    requires var span := if i == 0 then 1 else if i == 1 then 512 else 0x4_0000;
      f < out <= FRAMES && f / span * span == f
    ensures var span := if i == 0 then 1 else if i == 1 then 512 else 0x4_0000;
      WordEnds(out, Stop(i, Descriptor(f, low, high)), va, acc, el) ==
      if Permits(el0, !readOnly, uxn, pxn, acc, el)
      then Physical((f + va / 4096 % span) * 4096 + va % 4096, if index == 0 then WriteBack(3) else DeviceNGnRnE)
      else PermissionFault
  {
    hide Descriptor, TypeOf, Permits;
    LowFields(f, low, high);
    HighFields(f, low, high);
    TypeByIndex(Descriptor(f, low, high));
    assert f % FRAMES == f;
  }

  lemma PlainPointer(t: nat)
    requires t < FRAMES
    ensures var d := Descriptor(t, 3, 0);
      && Has(d, 1) && Has(d, 2) && d / 4096 % FRAMES == t && Restrict(UNLIMITED, d) == UNLIMITED
  {
    LowFields(t, 3, 0);
  }

  lemma WalkEndsHere(blocks: bool, m: Memory, out: nat, a: nat, i: nat, va: U64, acc: Access, el: Regime)
    requires a < |m| && i <= 3
    requires i > 0 ==> !Points(DescriptorWords(blocks), Get(m, a, Vpn(va, i)))
    ensures WalkAt(m, out, a, i, va, acc, el, UNLIMITED)
      == WordEnds(out, Find(DescriptorWords(blocks), m, a, Below(va, i)), va, acc, el)
  {
    hide LeafAt, Vpn;
  }

  lemma WalkGoesOn(blocks: bool, m: Memory, out: nat, a: nat, i: nat, va: U64, acc: Access, el: Regime)
    requires a < |m| && 0 < i <= 3 && Points(DescriptorWords(blocks), Get(m, a, Vpn(va, i)))
    requires var e := Get(m, a, Vpn(va, i));
      e == DescriptorWords(blocks).table(DescriptorWords(blocks).next(e)) && DescriptorWords(blocks).next(e) < out
    ensures var t := DescriptorWords(blocks).next(Get(m, a, Vpn(va, i)));
      && WalkAt(m, out, a, i, va, acc, el, UNLIMITED) == WalkAt(m, out, t, i - 1, va, acc, el, UNLIMITED)
      && Find(DescriptorWords(blocks), m, a, Below(va, i)) == Find(DescriptorWords(blocks), m, t, Below(va, i - 1))
  {
    hide LeafAt, Vpn, Below, Descriptor, Restrict;
    PlainPointer(DescriptorWords(blocks).next(Get(m, a, Vpn(va, i))));
  }

  /** The hardware reads an owned tree exactly as `Find` does. */
  lemma {:induction false} WalkFinds(blocks: bool, m: Memory, out: nat, root: nat, depth: nat, own: Owners,
                                     a: nat, i: nat, va: U64, acc: Access, el: Regime)
    requires |m| <= out && depth <= 4 && Owned(DescriptorWords(blocks), m, root, depth, own)
    requires a in own && |own[a]| + i + 1 == depth
    ensures WalkAt(m, out, a, i, va, acc, el, UNLIMITED)
      == WordEnds(out, Find(DescriptorWords(blocks), m, a, Below(va, i)), va, acc, el)
    decreases i
  {
    hide DescriptorWords, Find, WalkAt, WordEnds, Reach, Below, Vpn;
    if i > 0 && Points(DescriptorWords(blocks), Get(m, a, Vpn(va, i))) {
      WalkGoesOn(blocks, m, out, a, i, va, acc, el);
      WalkFinds(blocks, m, out, root, depth, own, DescriptorWords(blocks).next(Get(m, a, Vpn(va, i))), i - 1, va, acc, el);
    } else {
      WalkEndsHere(blocks, m, out, a, i, va, acc, el);
    }
  }
}
