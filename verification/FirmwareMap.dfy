/** The memory map a UEFI boot loader hands over, printed field by field, and what
    hal/hal-arm64/src/memory.rs makes of it. */
module FirmwareMap {
  import opened Bits
  import opened LittleEndian
  import opened Manifest

  type U32 = n: nat | n < 0x1_0000_0000

  /** One EFI_MEMORY_DESCRIPTOR, and what a newer firmware appends to it. */
  datatype Entry = Entry(ty: U32, pad: U32, physicalStart: U64, virtualStart: U64, pages: U64, attribute: U64, extra: seq<Byte>)

  predicate Sized(es: seq<Entry>, size: nat) {
    forall k | 0 <= k < |es| :: 40 + |es[k].extra| == size
  }

  /** `slack` ends the map without filling an entry; `rest` follows it in memory. */
  datatype Map = Map(entries: seq<Entry>, size: U64, slack: seq<Byte>, rest: seq<Byte>)

  predicate Printable(m: Map) {
    40 <= m.size && Sized(m.entries, m.size) && |m.slack| < m.size && |m.entries| * m.size + |m.slack| < TWO64
  }

  function U64Field(v: U64): Field {
    EightBytes();
    FieldSpec(8, v)
  }

  function U32Field(v: U32): Field {
    EightBytes();
    FieldSpec(4, v)
  }

  lemma EightBytes()
    ensures Pow256(8) == TWO64 && Pow256(4) == 0x1_0000_0000
  {
    assert Pow256(4) == 256 * (256 * (256 * (256 * Pow256(0))));
    assert Pow256(8) == 256 * (256 * (256 * (256 * Pow256(4))));
  }

  function EntryFields(e: Entry): seq<Field> {
    [U32Field(e.ty), U32Field(e.pad), U64Field(e.physicalStart), U64Field(e.virtualStart), U64Field(e.pages), U64Field(e.attribute)]
  }

  function PrintEntries(es: seq<Entry>): seq<Byte> {
    if es == [] then [] else PrintEntries(es[..|es| - 1]) + Print(EntryFields(es[|es| - 1])) + es[|es| - 1].extra
  }

  function HeaderFields(m: Map): seq<Field>
    requires Printable(m)
  {
    [U64Field(|m.entries| * m.size + |m.slack|), U64Field(m.size)]
  }

  function PrintMap(m: Map): seq<Byte>
    requires Printable(m)
  {
    Print(HeaderFields(m)) + (PrintEntries(m.entries) + m.slack + m.rest)
  }

  lemma EntryWidths(e: Entry)
    ensures var fs := EntryFields(e);
      && Width(fs[..0]) == 0 && Width(fs[..1]) == 4 && Width(fs[..2]) == 8 && Width(fs[..3]) == 16
      && Width(fs[..4]) == 24 && Width(fs[..5]) == 32 && Width(fs) == 40
  {
    var fs := EntryFields(e);
    assert fs[..1][..0] == [] && fs[..2][..1] == fs[..1] && fs[..3][..2] == fs[..2];
    assert fs[..4][..3] == fs[..3] && fs[..5][..4] == fs[..4];
  }

  lemma HeaderWidths(m: Map)
    requires Printable(m)
    ensures Width(HeaderFields(m)[..0]) == 0 && Width(HeaderFields(m)[..1]) == 8 && Width(HeaderFields(m)) == 16
  {
    assert HeaderFields(m)[..1][..0] == [];
  }

  /** Where entry `k` stands among the printed ones. */
  lemma {:induction false} EntryPlace(es: seq<Entry>, size: nat, k: nat)
    requires Sized(es, size) && k < |es| && size >= 40
    ensures |PrintEntries(es)| == |es| * size && k * size + 40 <= |es| * size
    ensures PrintEntries(es)[k * size..k * size + 40] == Print(EntryFields(es[k]))
    decreases |es|
  {
    hide Print, EntryFields, Width;
    var n := |es| - 1;
    EntryWidths(es[n]);
    EntriesLength(es[..n], size);
    EntriesLength(es, size);
    MulStep(k, n + 1, size);
    if k == n {
      Middle(PrintEntries(es[..n]), Print(EntryFields(es[n])), es[n].extra);
    } else {
      EntryPlace(es[..n], size, k);
      Early(PrintEntries(es[..n]), Print(EntryFields(es[n])) + es[n].extra, k * size, k * size + 40);
      assert PrintEntries(es) == PrintEntries(es[..n]) + (Print(EntryFields(es[n])) + es[n].extra);
    }
  }

  lemma Middle(a: seq<Byte>, b: seq<Byte>, c: seq<Byte>)
    ensures (a + b + c)[|a|..|a| + |b|] == b
  {
  }

  lemma Early(a: seq<Byte>, b: seq<Byte>, i: nat, j: nat)
    requires i <= j <= |a|
    ensures (a + b)[i..j] == a[i..j]
  {
  }

  lemma {:induction false} EntriesLength(es: seq<Entry>, size: nat)
    requires Sized(es, size)
    ensures |PrintEntries(es)| == |es| * size
    decreases |es|
  {
    hide Print, EntryFields, Width;
    if es != [] {
      var n := |es| - 1;
      EntryWidths(es[n]);
      EntriesLength(es[..n], size);
      assert |es| * size == n * size + size;
    }
  }

  lemma HeaderReads(m: Map)
    requires Printable(m)
    ensures var b := PrintMap(m);
      IsMemoryMap(b) && MapSize(b) == |m.entries| * m.size + |m.slack| && EntrySize(b) == m.size
  {
    var b := PrintMap(m);
    HeaderWidths(m);
    EntriesLength(m.entries, m.size);
    assert b[0..0 + 16] == Print(HeaderFields(m));
    ReadField(b, 0, HeaderFields(m), 0);
    ReadField(b, 0, HeaderFields(m), 1);
  }

  lemma EntryReads(m: Map, k: nat)
    requires Printable(m) && k < |m.entries|
    ensures var b, e := PrintMap(m), m.entries[k];
      16 + k * m.size + 40 <= |b| && DescriptorAt(b, 16 + k * m.size) == Descriptor(e.ty, e.physicalStart, e.pages)
  {
    hide Print, EntryFields, Width, PrintEntries, DescriptorAt;
    var e, body := m.entries[k], PrintEntries(m.entries);
    HeaderWidths(m);
    EntryWidths(e);
    EntriesLength(m.entries, m.size);
    EntryPlace(m.entries, m.size, k);
    Later(Print(HeaderFields(m)), body, m.slack + m.rest, k * m.size, k * m.size + 40);
    assert body + (m.slack + m.rest) == body + m.slack + m.rest;
    DescriptorReads(PrintMap(m), 16 + k * m.size, e);
  }

  lemma Later(h: seq<Byte>, a: seq<Byte>, b: seq<Byte>, i: nat, j: nat)
    requires i <= j <= |a|
    ensures (h + (a + b))[|h| + i..|h| + j] == a[i..j]
  {
  }

  lemma DescriptorReads(b: seq<Byte>, at: nat, e: Entry)
    requires at + 40 <= |b| && b[at..at + 40] == Print(EntryFields(e))
    ensures DescriptorAt(b, at) == Descriptor(e.ty, e.physicalStart, e.pages)
  {
    hide Print, Width;
    var fs := EntryFields(e);
    EntryWidths(e);
    ReadField(b, at, fs, 0);
    ReadField(b, at, fs, 2);
    ReadField(b, at, fs, 4);
  }

  lemma CountIs(n: nat, size: nat, slack: nat)
    requires size >= 40 && slack < size
    ensures EntryCount(n * size + slack, size) == n
  {
    ModUnique(n * size + slack, size, n, slack);
  }

  /** The kind of region a UEFI memory type stands for. */
  predicate KindFits(kind: RegionKind, ty: nat) {
    && (kind.Usable? <==> ty in {1, 2, 3, 4, 7})
    && (kind.AcpiReclaimable? <==> ty == 9)
    && (kind.AcpiNvs? <==> ty == 10)
    && (kind.Mmio? <==> ty in {11, 12})
    && (kind.Reserved? <==> ty in {0, 5, 6, 8} || 13 <= ty)
  }

  lemma {:induction false} RegionsOfPrinted(m: Map, k: nat)
    requires Printable(m)
    ensures var b := PrintMap(m);
      && IsMemoryMap(b) && |Regions(b)| == |m.entries|
      && (k < |m.entries| ==>
            var r, e := Regions(b)[k], m.entries[k];
            r.base == e.physicalStart && r.length == e.pages * 4096 % TWO64 && KindFits(r.kind, e.ty) && !r.behindIommu)
  {
    hide PrintMap, DescriptorAt, EntryCount, PrintEntries;
    HeaderReads(m);
    CountIs(|m.entries|, m.size, |m.slack|);
    if k < |m.entries| {
      EntryReads(m, k);
      RegionIs(PrintMap(m), k);
    }
  }

  /** Entries shorter than a descriptor are not read at all. */
  lemma ShortEntriesHoldNothing(map_: seq<Byte>)
    requires IsMemoryMap(map_) && EntrySize(map_) < 40
    ensures Regions(map_) == []
  {
  }

  /** The tables built from a printed map: each of its first 256 descriptors, in order, with
      its start, its pages in bytes, its kind and the SMMU's answer; the others counted. */
  lemma {:induction false} PrintedMapIsHeld(m: Map, smmu: bool)
    requires Printable(m)
    ensures var b, n := PrintMap(m), |m.entries|;
      && IsMemoryMap(b)
      && var held := Marked(First(Regions(b), MAX_MEMORY_REGIONS), smmu);
      && |held| == (if n < 256 then n else 256)
      && Surplus(|Regions(b)|, MAX_MEMORY_REGIONS) == (if n < 256 then 0 else n - 256)
      && forall k | 0 <= k < |held| ::
           && held[k].base == m.entries[k].physicalStart
           && held[k].length == m.entries[k].pages * 4096 % TWO64
           && KindFits(held[k].kind, m.entries[k].ty)
           && held[k].behindIommu == smmu
  {
    hide PrintMap, Regions, KindFits, IsMemoryMap;
    RegionsOfPrinted(m, 0);
    var b := PrintMap(m);
    forall k: nat | k < |m.entries|
      ensures var r, e := Regions(b)[k], m.entries[k];
        r.base == e.physicalStart && r.length == e.pages * 4096 % TWO64 && KindFits(r.kind, e.ty) && !r.behindIommu
    {
      RegionsOfPrinted(m, k);
    }
  }
}
