/** The ELF64 parser of elf-loader/src/lib.rs, and the images it reads, generalising
    the builder of its own tests. */
module ElfLoader {
  import opened Bits
  import opened Options
  import opened LittleEndian

  // ---------------------------------------------------------------------------
  // The parser
  // ---------------------------------------------------------------------------

  const PT_LOAD: nat := 1
  const ET_EXEC: nat := 2

  datatype LoadSegment = LoadSegment(fileOffset: nat, fileSize: nat, vaddr: nat, paddr: nat, memSize: nat, flags: nat)

  datatype ElfError =
    | TooShort | BadMagic | NotClass64 | NotLittleEndian | NotExecutable | WrongMachine | BadProgramHeaderOffset

  /** `Panics` is a read outside the slice. */
  datatype Result<T> = Ok(value: T) | Err(error: ElfError) | Panics

  datatype Header = Header(entry: nat, phoff: nat, phentsize: nat, phnum: nat)

  function ParseHeader(data: seq<Byte>, expectedMachine: nat): Result<Header> {
    if |data| < 64 then Err(TooShort)
    else if data[0..4] != [0x7F, 0x45, 0x4C, 0x46] then Err(BadMagic)
    else if data[4] != 2 then Err(NotClass64)
    else if data[5] != 1 then Err(NotLittleEndian)
    else if Read(data, 16, 2) != ET_EXEC then Err(NotExecutable)
    else if Read(data, 18, 2) != expectedMachine then Err(WrongMachine)
    else Ok(Header(Read(data, 24, 8), Read(data, 32, 8), Read(data, 54, 2), Read(data, 56, 2)))
  }

  /** The segment described at `base`, if it is one to load. */
  function SegmentAt(data: seq<Byte>, base: nat): Result<Option<LoadSegment>> {
    if base + 4 > |data| then Panics
    else if Read(data, base, 4) != PT_LOAD then Ok(None)
    else if base + 48 > |data| then Panics
    else Ok(Some(LoadSegment(Read(data, base + 8, 8), Read(data, base + 32, 8), Read(data, base + 16, 8),
                             Read(data, base + 24, 8), Read(data, base + 40, 8), Read(data, base + 4, 4))))
  }

  /** The PT_LOAD segments among the first `n` entries, in order. */
  function Collect(data: seq<Byte>, start: nat, entrySize: nat, n: nat): Result<seq<LoadSegment>> {
    if n == 0 then Ok([])
    else
      match Collect(data, start, entrySize, n - 1)
      case Ok(segments) =>
        (match SegmentAt(data, start + (n - 1) * entrySize)
         case Ok(None) => Ok(segments)
         case Ok(Some(s)) => Ok(segments + [s])
         case Err(e) => Err(e)
         case Panics => Panics)
      case Err(e) => Err(e)
      case Panics => Panics
  }

  datatype Image = Image(entry: nat, segments: seq<LoadSegment>)

  /** `parse_and_collect_load_segments`, with its iterator drained. */
  function Parse(data: seq<Byte>, expectedMachine: nat): Result<Image> {
    match ParseHeader(data, expectedMachine)
    case Err(e) => Err(e)
    case Panics => Panics
    case Ok(h) =>
      if h.phoff + h.phentsize * h.phnum >= TWO64 || h.phoff + h.phentsize * h.phnum > |data| then Err(BadProgramHeaderOffset)
      else
        match Collect(data, h.phoff, h.phentsize, h.phnum)
        case Ok(segments) => Ok(Image(h.entry, segments))
        case Err(e) => Err(e)
        case Panics => Panics
  }

  // ---------------------------------------------------------------------------
  // Every read is in bounds
  // ---------------------------------------------------------------------------

  lemma {:induction false} CollectStaysInside(data: seq<Byte>, start: nat, entrySize: nat, n: nat)
    requires entrySize >= 48 && start + entrySize * n <= |data|
    ensures Collect(data, start, entrySize, n).Ok?
    decreases n
  {
    hide Read;
    if n > 0 {
      assert entrySize * n == (n - 1) * entrySize + entrySize && entrySize * (n - 1) == (n - 1) * entrySize;
      CollectStaysInside(data, start, entrySize, n - 1);
    }
  }

  /** An entry of which the parser needs bytes past the end: its type, and 48 bytes if
      it is PT_LOAD. */
  predicate Overruns(data: seq<Byte>, base: nat) {
    base + 4 > |data| || (base + 48 > |data| && Read(data, base, 4) == 1)
  }

  lemma {:induction false} CollectPanics(data: seq<Byte>, start: nat, entrySize: nat, n: nat)
    ensures Collect(data, start, entrySize, n).Panics? <==> exists i: nat :: i < n && Overruns(data, start + i * entrySize)
    ensures !Collect(data, start, entrySize, n).Err?
    decreases n
  {
    hide Read;
    if n > 0 {
      CollectPanics(data, start, entrySize, n - 1);
      assert Overruns(data, start + (n - 1) * entrySize) <==> SegmentAt(data, start + (n - 1) * entrySize).Panics?;
    }
  }

  lemma HeaderNeverPanics(data: seq<Byte>, expectedMachine: nat)
    ensures !ParseHeader(data, expectedMachine).Panics?
  {
    hide Read;
  }

  /** The table lies in the file. */
  predicate TableInside(data: seq<Byte>, h: Header) {
    var end := h.phoff + h.phentsize * h.phnum;
    end < TWO64 && end <= |data|
  }

  ghost predicate SomeOverruns(data: seq<Byte>, h: Header) {
    exists i: nat :: i < h.phnum && Overruns(data, h.phoff + i * h.phentsize)
  }

  /** Exactly which images make the parser read outside its input: those with an accepted
      header and a table inside the file, one of whose entries overruns it. */
  lemma ParsePanicsExactly(data: seq<Byte>, expectedMachine: nat)
    ensures Parse(data, expectedMachine).Panics? <==>
      var h := ParseHeader(data, expectedMachine);
      h.Ok? && TableInside(data, h.value) && SomeOverruns(data, h.value)
  {
    hide Read, Overruns, ParseHeader, Collect;
    HeaderNeverPanics(data, expectedMachine);
    var h := ParseHeader(data, expectedMachine);
    if h.Ok? {
      CollectPanics(data, h.value.phoff, h.value.phentsize, h.value.phnum);
    }
  }

  /** With entries of at least 48 bytes the parser is total. */
  lemma ParseIsTotal(data: seq<Byte>, expectedMachine: nat)
    requires |data| >= 64 ==> Read(data, 54, 2) >= 48
    ensures !Parse(data, expectedMachine).Panics?
  {
    hide Read;
    var h := ParseHeader(data, expectedMachine);
    if h.Ok? && h.value.phoff + h.value.phentsize * h.value.phnum <= |data| {
      CollectStaysInside(data, h.value.phoff, h.value.phentsize, h.value.phnum);
    }
  }

  // ---------------------------------------------------------------------------
  // Which headers are accepted
  // ---------------------------------------------------------------------------

  /** 0x7F 'E' 'L' 'F', 64-bit, little-endian, in that order of complaint. */
  function IdentDefect(data: seq<Byte>): Option<ElfError>
    requires |data| >= 64
  {
    if !(data[0] == 127 && data[1] == 'E' as int && data[2] == 'L' as int && data[3] == 'F' as int) then Some(BadMagic)
    else if data[4] != 2 then Some(NotClass64)
    else if data[5] != 1 then Some(NotLittleEndian)
    else None
  }

  /** A header is accepted exactly when it has 64 bytes, the right first six, e_type 2 at 16
      and the expected machine at 18; otherwise the first defect in that order is the
      error. */
  lemma HeaderAcceptedExactly(data: seq<Byte>, expectedMachine: nat)
    ensures var r := ParseHeader(data, expectedMachine);
      && (|data| < 64 ==> r == Err(TooShort))
      && (|data| >= 64 && IdentDefect(data).Some? ==> r == Err(IdentDefect(data).value))
      && (|data| >= 64 && IdentDefect(data).None? ==>
            var kind, machine := data[16] as int + 256 * data[17] as int, data[18] as int + 256 * data[19] as int;
            && (r == Err(NotExecutable) <==> kind != 2)
            && (r == Err(WrongMachine) <==> kind == 2 && machine != expectedMachine)
            && (r.Ok? <==> kind == 2 && machine == expectedMachine))
  {
    if |data| >= 64 {
      TwoBytes(data, 16);
      TwoBytes(data, 18);
      hide Read;
      assert data[0..4] == [data[0], data[1], data[2], data[3]];
    }
  }

  lemma TwoBytes(data: seq<Byte>, at: nat)
    requires at + 2 <= |data|
    ensures Read(data, at, 2) == data[at] as int + 256 * data[at + 1] as int
  {
    assert Read(data, at + 1, 1) == data[at + 1] + 256 * Read(data, at + 2, 0);
  }

  // ---------------------------------------------------------------------------
  // Images
  // ---------------------------------------------------------------------------

  datatype ProgramHeader = ProgramHeader(ptype: nat, flags: nat, offset: nat, vaddr: nat, paddr: nat,
                                         filesz: nat, memsz: nat, align: nat)

  predicate Encodable(p: ProgramHeader) {
    && p.ptype < 0x1_0000_0000 && p.flags < 0x1_0000_0000
    && p.offset < TWO64 && p.vaddr < TWO64 && p.paddr < TWO64 && p.filesz < TWO64 && p.memsz < TWO64 && p.align < TWO64
  }

  lemma Widths()
    ensures Pow256(1) == 256 && Pow256(2) == 65536 && Pow256(4) == 0x1_0000_0000 && Pow256(8) == TWO64
    ensures 0x464C_457F < Pow256(4) && 0 < Pow256(9)
  {
  }

  function EntryFields(p: ProgramHeader): (f: seq<Field>)
    requires Encodable(p)
    ensures |f| == 8
  {
    Widths();
    [FieldSpec(4, p.ptype), FieldSpec(4, p.flags), FieldSpec(8, p.offset), FieldSpec(8, p.vaddr), FieldSpec(8, p.paddr),
     FieldSpec(8, p.filesz), FieldSpec(8, p.memsz), FieldSpec(8, p.align)]
  }

  /** The 64-byte file header: magic, class, data, version, padding, e_type .. e_shstrndx. */
  function HeaderFields(machine: nat, entry: nat, phentsize: nat, phnum: nat): (f: seq<Field>)
    requires machine < 65536 && entry < TWO64 && phentsize < 65536 && phnum < 65536
    ensures |f| == 18
  {
    Widths();
    [FieldSpec(4, 0x464C_457F), FieldSpec(1, 2), FieldSpec(1, 1), FieldSpec(1, 1), FieldSpec(9, 0), FieldSpec(2, 2),
     FieldSpec(2, machine), FieldSpec(4, 1), FieldSpec(8, entry), FieldSpec(8, 64), FieldSpec(8, 0), FieldSpec(4, 0),
     FieldSpec(2, 64), FieldSpec(2, phentsize), FieldSpec(2, phnum), FieldSpec(2, 0), FieldSpec(2, 0), FieldSpec(2, 0)]
  }

  function Table(phs: seq<ProgramHeader>): seq<Byte>
    requires forall k | 0 <= k < |phs| :: Encodable(phs[k])
  {
    if phs == [] then [] else Table(phs[..|phs| - 1]) + Print(EntryFields(phs[|phs| - 1]))
  }

  /** An image of any program headers, with `body` after them. */
  function Build(machine: nat, entry: nat, phs: seq<ProgramHeader>, body: seq<Byte>): seq<Byte>
    requires machine < 65536 && entry < TWO64 && |phs| < 65536
    requires forall k | 0 <= k < |phs| :: Encodable(phs[k])
  {
    Print(HeaderFields(machine, entry, 56, |phs|)) + Table(phs) + body
  }

  function Segment(p: ProgramHeader): LoadSegment {
    LoadSegment(p.offset, p.filesz, p.vaddr, p.paddr, p.memsz, p.flags)
  }

  /** The headers to load, in order. */
  function Loads(phs: seq<ProgramHeader>): seq<LoadSegment> {
    if phs == [] then []
    else
      var p := phs[|phs| - 1];
      Loads(phs[..|phs| - 1]) + (if p.ptype == 1 then [Segment(p)] else [])
  }

  // ---------------------------------------------------------------------------
  // Parsing undoes printing
  // ---------------------------------------------------------------------------

  lemma WidthNext(fields: seq<Field>, k: nat)
    requires k < |fields|
    ensures Width(fields[..k + 1]) == Width(fields[..k]) + fields[k].width
  {
    assert fields[..k + 1][..k] == fields[..k] && fields[..k + 1][k] == fields[k];
  }

  /** Reading field `k` of a list that stands at `at` and is preceded by `off` bytes of it. */
  lemma ReadAt(data: seq<Byte>, at: nat, fields: seq<Field>, k: nat, off: nat)
    requires k < |fields| && at + Width(fields) <= |data| && data[at..at + Width(fields)] == Print(fields)
    requires Width(fields[..k]) == off
    ensures at + off + fields[k].width <= |data| && Read(data, at + off, fields[k].width) == fields[k].value
    ensures Width(fields[..k + 1]) == off + fields[k].width
  {
    ReadField(data, at, fields, k);
    WidthNext(fields, k);
  }

  lemma WholeWidth(fields: seq<Field>)
    ensures fields[..|fields|] == fields && Width(fields[..0]) == 0
  {
  }

  lemma HeaderWidth(f: seq<Field>, machine: nat, entry: nat, phentsize: nat, phnum: nat)
    requires machine < 65536 && entry < TWO64 && phentsize < 65536 && phnum < 65536
    requires f == HeaderFields(machine, entry, phentsize, phnum)
    ensures Width(f[..1]) == 4 && Width(f[..2]) == 5 && Width(f[..5]) == 16 && Width(f[..6]) == 18 && Width(f[..8]) == 24
    ensures Width(f[..9]) == 32 && Width(f[..13]) == 54 && Width(f[..14]) == 56 && Width(f) == 64
  {
    hide Width;
    WholeWidth(f);
    WidthNext(f, 0);
    WidthNext(f, 1);
    WidthNext(f, 2);
    WidthNext(f, 3);
    WidthNext(f, 4);
    WidthNext(f, 5);
    WidthNext(f, 6);
    WidthNext(f, 7);
    WidthNext(f, 8);
    WidthNext(f, 9);
    WidthNext(f, 10);
    WidthNext(f, 11);
    WidthNext(f, 12);
    WidthNext(f, 13);
    WidthNext(f, 14);
    WidthNext(f, 15);
    WidthNext(f, 16);
    WidthNext(f, 17);
  }

  lemma MagicBytes(data: seq<Byte>)
    requires |data| >= 4 && Read(data, 0, 4) == 0x464C_457F
    ensures data[0..4] == [0x7F, 0x45, 0x4C, 0x46]
  {
    hide Read;
    FirstByte(data, 0, 4, 0x7F, 0x46_4C45);
    FirstByte(data, 1, 3, 0x45, 0x464C);
    FirstByte(data, 2, 2, 0x4C, 0x46);
    FirstByte(data, 3, 1, 0x46, 0);
  }

  lemma FirstByte(data: seq<Byte>, at: nat, n: nat, b: Byte, rest: nat)
    requires n > 0 && at + n <= |data| && Read(data, at, n) == 256 * rest + b
    ensures data[at] == b && Read(data, at + 1, n - 1) == rest
  {
  }

  lemma OneByte(data: seq<Byte>, at: nat)
    requires at < |data|
    ensures Read(data, at, 1) == data[at]
  {
    assert Read(data, at + 1, 0) == 0;
  }

  /** The header of any printed image is accepted and read back. */
  lemma HeaderParses(data: seq<Byte>, machine: nat, entry: nat, phentsize: nat, phnum: nat)
    requires machine < 65536 && entry < TWO64 && phentsize < 65536 && phnum < 65536
    requires |data| >= 64 && data[0..64] == Print(HeaderFields(machine, entry, phentsize, phnum))
    ensures ParseHeader(data, machine) == Ok(Header(entry, 64, phentsize, phnum))
  {
    hide Read, Print, Width;
    var f := HeaderFields(machine, entry, phentsize, phnum);
    HeaderWidth(f, machine, entry, phentsize, phnum);
    WholeWidth(f);
    ReadAt(data, 0, f, 0, 0);
    ReadAt(data, 0, f, 1, 4);
    ReadAt(data, 0, f, 2, 5);
    ReadAt(data, 0, f, 5, 16);
    ReadAt(data, 0, f, 6, 18);
    ReadAt(data, 0, f, 8, 24);
    ReadAt(data, 0, f, 9, 32);
    ReadAt(data, 0, f, 13, 54);
    ReadAt(data, 0, f, 14, 56);
    MagicBytes(data);
    OneByte(data, 4);
    OneByte(data, 5);
  }

  lemma EntryWidth(p: ProgramHeader)
    requires Encodable(p)
    ensures var f := EntryFields(p);
      && Width(f[..0]) == 0 && Width(f[..1]) == 4 && Width(f[..2]) == 8 && Width(f[..3]) == 16 && Width(f[..4]) == 24
      && Width(f[..5]) == 32 && Width(f[..6]) == 40 && Width(f) == 56
  {
    hide Width;
    var f := EntryFields(p);
    WholeWidth(f);
    WidthNext(f, 0);
    WidthNext(f, 1);
    WidthNext(f, 2);
    WidthNext(f, 3);
    WidthNext(f, 4);
    WidthNext(f, 5);
    WidthNext(f, 6);
    WidthNext(f, 7);
  }

  /** The segment of a printed program header. */
  lemma EntryParses(data: seq<Byte>, base: nat, p: ProgramHeader)
    requires Encodable(p) && base + 56 <= |data| && data[base..base + 56] == Print(EntryFields(p))
    ensures SegmentAt(data, base) == Ok(if p.ptype == 1 then Some(Segment(p)) else None)
  {
    hide Read, Print, Width;
    var f := EntryFields(p);
    EntryWidth(p);
    ReadAt(data, base, f, 0, 0);
    ReadAt(data, base, f, 1, 4);
    ReadAt(data, base, f, 2, 8);
    ReadAt(data, base, f, 3, 16);
    ReadAt(data, base, f, 4, 24);
    ReadAt(data, base, f, 5, 32);
    ReadAt(data, base, f, 6, 40);
  }

  lemma {:induction false} TableEntries(phs: seq<ProgramHeader>, i: nat)
    requires forall k | 0 <= k < |phs| :: Encodable(phs[k])
    ensures |Table(phs)| == 56 * |phs|
    ensures i < |phs| ==> Table(phs)[56 * i..56 * i + 56] == Print(EntryFields(phs[i]))
    decreases |phs|
  {
    hide Print, EntryFields;
    if phs != [] {
      var n := |phs| - 1;
      EntryWidth(phs[n]);
      TableEntries(phs[..n], i);
      var rest := Table(phs[..n]);
      if i < n {
        assert Table(phs)[56 * i..56 * i + 56] == rest[56 * i..56 * i + 56];
      }
    }
  }

  lemma SubSlice(data: seq<Byte>, at: nat, n: nat, lo: nat, hi: nat)
    requires at + n <= |data| && lo <= hi <= n
    ensures data[at..at + n][lo..hi] == data[at + lo..at + hi]
  {
    var a, b := data[at..at + n][lo..hi], data[at + lo..at + hi];
    assert forall k | 0 <= k < |a| :: a[k] == b[k];
  }

  lemma {:induction false} EntriesCollect(data: seq<Byte>, phs: seq<ProgramHeader>, n: nat)
    requires forall k | 0 <= k < |phs| :: Encodable(phs[k])
    requires n <= |phs| && 64 + 56 * |phs| <= |data| && data[64..64 + 56 * |phs|] == Table(phs)
    ensures Collect(data, 64, 56, n) == Ok(Loads(phs[..n]))
    decreases n
  {
    hide SegmentAt, Table, EntryFields, Print, Segment, Collect, Loads;
    if n > 0 {
      EntriesCollect(data, phs, n - 1);
      TableEntries(phs, n - 1);
      EntryWidth(phs[n - 1]);
      SubSlice(data, 64, 56 * |phs|, 56 * (n - 1), 56 * (n - 1) + 56);
      EntryParses(data, 64 + (n - 1) * 56, phs[n - 1]);
      CollectNext(data, n, Loads(phs[..n - 1]), if phs[n - 1].ptype == 1 then Some(Segment(phs[n - 1])) else None);
      LoadsNext(phs, n);
    } else {
      NothingCollected(data, phs);
    }
  }

  lemma {:induction false} NothingCollected(data: seq<Byte>, phs: seq<ProgramHeader>)
    ensures Collect(data, 64, 56, 0) == Ok(Loads(phs[..0]))
  {
  }

  lemma {:induction false} CollectNext(data: seq<Byte>, n: nat, segments: seq<LoadSegment>, o: Option<LoadSegment>)
    requires n > 0 && Collect(data, 64, 56, n - 1) == Ok(segments) && SegmentAt(data, 64 + (n - 1) * 56) == Ok(o)
    ensures Collect(data, 64, 56, n) == Ok(segments + (if o.Some? then [o.value] else []))
  {
    hide SegmentAt;
    assert segments + [] == segments;
  }

  lemma {:induction false} LoadsNext(phs: seq<ProgramHeader>, n: nat)
    requires 0 < n <= |phs|
    ensures Loads(phs[..n]) == Loads(phs[..n - 1]) + (if phs[n - 1].ptype == 1 then [Segment(phs[n - 1])] else [])
  {
    assert phs[..n][..n - 1] == phs[..n - 1];
  }

  /** Parsing a printed image gives back its entry point and its PT_LOAD headers. */
  lemma {:induction false} ParseUndoesBuild(machine: nat, entry: nat, phs: seq<ProgramHeader>, body: seq<Byte>)
    requires machine < 65536 && entry < TWO64 && |phs| < 65536
    requires forall k | 0 <= k < |phs| :: Encodable(phs[k])
    ensures Parse(Build(machine, entry, phs, body), machine) == Ok(Image(entry, Loads(phs)))
  {
    hide ParseHeader, Collect, Print, Table, HeaderFields, Loads;
    var data := Build(machine, entry, phs, body);
    HeaderWidth(HeaderFields(machine, entry, 56, |phs|), machine, entry, 56, |phs|);
    TableEntries(phs, 0);
    assert data[0..64] == Print(HeaderFields(machine, entry, 56, |phs|));
    assert data[64..64 + 56 * |phs|] == Table(phs);
    HeaderParses(data, machine, entry, 56, |phs|);
    EntriesCollect(data, phs, |phs|);
    assert phs[..|phs|] == phs;
  }

  // ---------------------------------------------------------------------------
  // Short entries
  // ---------------------------------------------------------------------------

  /** Below 48 bytes an accepted table can run out inside an entry, for every entry
      size and machine: the bound on e_phentsize is the exact one. */
  lemma ShortEntriesPanic(machine: nat, entry: nat, phentsize: nat) returns (data: seq<Byte>)
    requires machine < 65536 && entry < TWO64 && phentsize < 48
    ensures ParseHeader(data, machine) == Ok(Header(entry, 64, phentsize, 1)) && Parse(data, machine).Panics?
  {
    hide Print, HeaderFields, ParseHeader;
    var table: seq<Byte> := LeBytes(PT_LOAD, phentsize);
    data := Print(HeaderFields(machine, entry, phentsize, 1)) + table;
    HeaderWidth(HeaderFields(machine, entry, phentsize, 1), machine, entry, phentsize, 1);
    assert data[0..64] == Print(HeaderFields(machine, entry, phentsize, 1));
    HeaderParses(data, machine, entry, phentsize, 1);
    assert |data| == 64 + phentsize;
    if phentsize >= 4 {
      FirstWordLoads(data, phentsize);
    }
    assert Collect(data, 64, phentsize, 0) == Ok([]);
    assert SegmentAt(data, 64 + 0 * phentsize).Panics?;
  }

  lemma FirstWordLoads(data: seq<Byte>, n: nat)
    requires n >= 4 && |data| == 64 + n && data[64..] == LeBytes(PT_LOAD, n)
    ensures Read(data, 64, 4) == PT_LOAD
  {
    LowBytes(n);
    assert data[64] == data[64..][0] && data[65] == data[64..][1] && data[66] == data[64..][2] && data[67] == data[64..][3];
    assert Read(data, 67, 1) == 0;
    assert Read(data, 66, 2) == 0;
    assert Read(data, 65, 3) == 0;
  }

  lemma LowBytes(n: nat)
    requires n >= 4
    ensures var b := LeBytes(PT_LOAD, n);
      b[0] == 1 && b[1] == 0 && b[2] == 0 && b[3] == 0
  {
    assert LeBytes(PT_LOAD, n)[1..] == LeBytes(0, n - 1);
    assert LeBytes(0, n - 1)[1..] == LeBytes(0, n - 2);
    assert LeBytes(0, n - 2)[1..] == LeBytes(0, n - 3);
  }
}
