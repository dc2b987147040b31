/** The boot-time four-level mapper of hal/hal-arm64/src/memory.rs: a static root,
    a static pool of 16 tables, and identity mappings of whole regions. */
module EarlyTables {
  import opened Bits
  import opened Options
  import opened PageTree
  import opened Va39
  import opened Vmsa

  const PAGE_SIZE: nat := 4096
  const TABLE_POOL_SIZE: nat := 16
  const ATTR_NORMAL: U64 := 0
  const ATTR_DEVICE: U64 := 4
  const AP_RW_EL1: U64 := 0

  /** This mapper never looks for blocks. */
  function Words(): Codec {
    DescriptorWords(false)
  }

  lemma WordsAreLawful(frames: nat)
    requires frames <= FRAMES
    ensures Lawful(Words(), frames)
  {
    DescriptorsAreLawful(false, frames);
  }

  /** The four indices of a page number. */
  function Path4(page: nat): (p: Path)
    ensures |p| == 4
  {
    [page / 0x800_0000 % 512] + PathOf(page)
  }

  datatype MapPermissions = MapPermissions(readable: bool, writable: bool, executable: bool, deviceUncached: bool)

  datatype Result<T> = Ok(value: T) | InvalidMemoryRegion

  // ---------------------------------------------------------------------------
  // Words
  // ---------------------------------------------------------------------------

  /** Bits 11..0 of a page; WRITABLE and READABLE leave no trace in them. */
  function PageLow(perms: MapPermissions): nat {
    if perms.deviceUncached then 0x707 else 0x703
  }

  function PageHigh(perms: MapPermissions): nat {
    if perms.executable then 0 else 3
  }

  method PermissionsToFlags(perms: MapPermissions) returns (flags: U64)
    ensures flags == PageHigh(perms) * PXN + (PageLow(perms) - 0x403)
  {
    hide And, Or;
    FlagBits();
    flags := Or(SH_INNER, if perms.deviceUncached then ATTR_DEVICE else ATTR_NORMAL);
    if perms.writable {
      flags := Or(flags, AP_RW_EL1);
    }
    if !perms.executable {
      HighBitsAdded(flags);
      OrCommutes(PXN, UXN);
      flags := Or(flags, Or(PXN, UXN));
    }
  }

  lemma FlagBits()
    ensures Or(SH_INNER, ATTR_DEVICE) == 0x304 && Or(SH_INNER, ATTR_NORMAL) == 0x300
    ensures Or(0x304, AP_RW_EL1) == 0x304 && Or(0x300, AP_RW_EL1) == 0x300
  {
    assert Pow2(8) == 256;
    OrDisjoint(SH_INNER, ATTR_DEVICE, 8);
  }

  /** The three bits `map_page` adds to any leaf. */
  lemma PageWord(phys: U64, low: nat, high: nat)
    requires low < 4096 && high < 8 && low % 2 == 0 && low / 2 % 2 == 0 && low / 1024 % 2 == 0
    ensures Or(Or(Or(Or(And(phys, ADDR_MASK), high * PXN + low), VALID), TABLE_OR_PAGE), AF)
      == Descriptor(phys / 4096, low + 0x403, high)
  {
    hide And, Or, Shr, Descriptor;
    var f := phys / 4096;
    AddressWord(phys, low, high);
    LowBounds(low);
    SetBit(f, low, high, 0, 1);
    SetBit(f, low + 1, high, 1, 2);
    SetBit(f, low + 3, high, 10, 1024);
  }

  lemma LowBounds(low: nat)
    requires low < 4096 && low % 2 == 0 && low / 2 % 2 == 0 && low / 1024 % 2 == 0
    ensures low + 0x403 < 4096 && (low + 1) / 2 % 2 == 0 && (low + 3) / 1024 % 2 == 0
  {
  }

  lemma SetBit(f: nat, low: nat, high: nat, k: nat, p: nat)
    requires high < 8 && ((k == 0 && p == 1) || (k == 1 && p == 2) || (k == 10 && p == 1024))
    requires low + p < 4096 && low / p % 2 == 0
    ensures Or(Descriptor(f, low, high), p) == Descriptor(f, low + p, high)
  {
    hide And, Or, Shr;
    Powers();
    assert Pow2(0) == 1 && Pow2(1) == 2;
    LowFields(f, low, high);
    ShrBy(Descriptor(f, low, high), k, p);
    OrBit(Descriptor(f, low, high), k);
  }

  lemma PathIndices(va: U64)
    ensures And(Shr(va, 39), 0x1FF) == Path4(va / 4096)[0]
    ensures And(Shr(va, 30), 0x1FF) == Path4(va / 4096)[1]
    ensures And(Shr(va, 21), 0x1FF) == Path4(va / 4096)[2]
    ensures And(Shr(va, 12), 0x1FF) == Path4(va / 4096)[3]
  {
    hide And, Shr;
    PageIndices(va);
    Powers();
    ShrBy(va, 39, 0x80_0000_0000);
    AndBy(va / 0x80_0000_0000, 9, 512);
    assert va / 0x80_0000_0000 == va / 4096 / 0x800_0000;
  }

  lemma EntryTest(e: U64)
    ensures And(e, VALID) == 0 <==> !Words().valid(e)
    ensures And(e, ADDR_MASK) % 4096 == 0 && And(e, ADDR_MASK) / 4096 == Words().next(e)
  {
    hide And, Descriptor;
    AndBit(e, 0);
    assert Pow2(0) == 1;
    AddressField(e);
  }

  /** The frames that hold tables once `n` pool tables are linked. */
  ghost function Linked(root: nat, base: nat, n: nat): set<nat> {
    {root} + Range(base, n)
  }

  ghost function Range(base: nat, n: nat): (s: set<nat>)
    ensures forall k :: k in s <==> base <= k < base + n
    ensures |s| == n
  {
    if n == 0 then {} else Range(base, n - 1) + {base + n - 1}
  }

  /** A tree of linked pool tables below a root outside the pool, the rest of the pool
      still free. */
  ghost predicate Sound(m: Memory, root: nat, base: nat, next: nat, own: Owners) {
    && |m| <= FRAMES && next <= TABLE_POOL_SIZE && !(base <= root < base + TABLE_POOL_SIZE)
    && Owned(Words(), m, root, 4, own) && Fresh(m, own, Pool(base, TABLE_POOL_SIZE), next)
    && own.Keys == Linked(root, base, next)
  }

  // ---------------------------------------------------------------------------
  // The static tables
  // ---------------------------------------------------------------------------

  class StaticTables {
    const mem: array<Frame>
    /** The frame of TTBR0_ROOT, and the first frame of TABLE_POOL. */
    const root: nat
    const base: nat
    /** TABLE_POOL_NEXT. */
    var next: nat
    ghost var own: Owners

    ghost predicate Valid()
      reads this, mem
    {
      Sound(mem[..], root, base, next, own)
    }

    function TablePool(): Pool {
      Pool(base, TABLE_POOL_SIZE)
    }

    constructor (mem: array<Frame>, root: nat, base: nat)
      requires mem.Length <= FRAMES && root < mem.Length && !(base <= root < base + TABLE_POOL_SIZE)
      requires Zeroed(mem[..], root)
      requires forall f | base <= f < base + TABLE_POOL_SIZE :: f < mem.Length && Zeroed(mem[..], f)
      ensures Valid() && next == 0
      ensures this.mem == mem && this.root == root && this.base == base
    {
      this.mem, this.root, this.base := mem, root, base;
      next, own := 0, Bare(root);
      new;
      RootAlone(mem[..], root);
    }

    method AllocTable() returns (r: Result<U64>)
      requires next < TABLE_POOL_SIZE ==> base + TABLE_POOL_SIZE <= FRAMES
      modifies this`next
      ensures old(next) < 16 ==> r == Ok((base + old(next)) * 4096) && next == old(next) + 1
      ensures old(next) >= 16 ==> r == InvalidMemoryRegion && next == old(next)
    {
      if next >= TABLE_POOL_SIZE {
        return InvalidMemoryRegion;
      }
      r := Ok((base + next) * 4096);
      next := next + 1;
    }

    /** One level of the descent: the table the slot leads to, linked if missing. */
    method NextTable(table: U64, slot: Index, ghost path: Path) returns (r: Result<U64>)
      requires Valid() && table % 4096 == 0
      requires table / 4096 in own && |own[table / 4096]| + 1 < 4 && path != [] && path[0] == slot
      modifies this`next, this`own, mem
      ensures Valid()
      ensures r.Ok? ==> r.value % 4096 == 0 && r.value / 4096 in own && |own[r.value / 4096]| == old(|own[table / 4096]|) + 1
      ensures var d := Descend(Words(), old(mem[..]), old(next), TablePool(), table / 4096, path);
        d == if r.Ok? then Descend(Words(), mem[..], next, TablePool(), r.value / 4096, path[1..])
             else Step(mem[..], next, Exhausted)
    {
      hide Words, Sound, Descend, And, Or;
      ghost var f, m := table / 4096, mem[..];
      TableInMemory(m, root, base, next, own, f);
      var frame := mem[table / 4096];
      var entry := frame[slot];
      assert entry == Get(m, f, path[0]);
      EntryTest(entry);
      if And(entry, VALID) == 0 {
        PoolInMemory(m, root, base, next, own);
        var t := AllocTable();
        if t.InvalidMemoryRegion? {
          RunsDry(m, next, TablePool(), f, path);
          return InvalidMemoryRegion;
        }
        PointerWord(base + next - 1);
        entry := Or(Or(t.value, VALID), TABLE_OR_PAGE);
        own := LinkTable(m, next - 1, base, root, own, f, path, entry);
        EntryTest(entry);
        mem[table / 4096] := frame[slot := entry];
        assert mem[..] == m[f := m[f][path[0] := entry]];
      } else {
        FollowTable(m, root, base, own, f, path, next);
      }
      r := Ok(And(entry, ADDR_MASK));
    }

    /** `map_page`: descends three levels, linking what is missing, and writes the page. */
    method MapPage(virt: U64, phys: U64, flags: U64, ghost word: U64) returns (r: Result<()>)
      requires Valid() && word == Or(Or(Or(Or(And(phys, ADDR_MASK), flags), VALID), TABLE_OR_PAGE), AF)
      modifies this`next, this`own, mem
      ensures Valid()
      ensures var s := PageTree.MapPage(Words(), old(mem[..]), old(next), TablePool(), root, Request(Path4(virt / 4096), word));
        mem[..] == s.mem && next == s.used && r == (if s.status.Table? then Ok(()) else InvalidMemoryRegion)
    {
      hide Words, Sound, Descend, And, Or, Shr, Path4;
      PathIndices(virt);
      var indices: seq<Index> := [And(Shr(virt, 39), 0x1FF), And(Shr(virt, 30), 0x1FF),
                                  And(Shr(virt, 21), 0x1FF), And(Shr(virt, 12), 0x1FF)];
      assert |Path4(virt / 4096)| == 4;
      ghost var m, used, top := mem[..], next, Path4(virt / 4096)[..3];
      TopLevels(Path4(virt / 4096), indices);
      RootInTree(m, root, base, next, own);
      var table: U64 := root * 4096;
      for level := 0 to 3
        invariant Valid() && table % 4096 == 0
        invariant table / 4096 in own && |own[table / 4096]| == level
        invariant Descend(Words(), m, used, TablePool(), root, top)
          == Descend(Words(), mem[..], next, TablePool(), table / 4096, top[level..])
      {
        assert top[level..][0] == indices[level] && top[level..][1..] == top[level + 1..];
        var t := NextTable(table, indices[level], top[level..]);
        if t.InvalidMemoryRegion? {
          return InvalidMemoryRegion;
        }
        table := t.value;
      }
      assert top[3..] == [];
      DescendEnds(Words(), mem[..], next, TablePool(), table / 4096);
      TableInMemory(mem[..], root, base, next, own, table / 4096);
      ghost var m3 := mem[..];
      var frame := mem[table / 4096];
      mem[table / 4096] := frame[indices[3] := Or(Or(Or(Or(And(phys, ADDR_MASK), flags), VALID), TABLE_OR_PAGE), AF)];
      assert mem[..] == Put(m3, table / 4096, indices[3], word);
      LeafWritten(m3, root, base, next, own, table / 4096, indices[3], word);
      r := Ok(());
    }

    /** `setup_identity_mapping`: one `map_page` for every page the region touches. */
    method SetupIdentityMapping(baseAddr: U64, lengthBytes: U64, perms: MapPermissions) returns (r: Result<U64>)
      requires Valid() && baseAddr + lengthBytes + 4095 < TWO64
      modifies this`next, this`own, mem
      ensures Valid()
      ensures lengthBytes == 0 ==> r == InvalidMemoryRegion && mem[..] == old(mem[..]) && next == old(next)
      ensures lengthBytes > 0 ==>
        var rs := RegionRequests(baseAddr, lengthBytes, perms);
        var s := MapPages(Words(), old(mem[..]), old(next), TablePool(), root, rs);
        && mem[..] == s.mem && next == s.used
        && r == (if s.status.Table? then Ok(baseAddr / 4096 * 4096) else InvalidMemoryRegion)
        && Mapped(Words(), old(mem[..]), old(next), TablePool(), root, 4, old(own), rs, s, own)
    {
      hide Words, Sound, MapPages, PageTree.MapPage, Mapped, RegionRequests, And, Or, Not, Path4, Descriptor, PageLow, PageHigh;
      if lengthBytes == 0 {
        return InvalidMemoryRegion;
      }
      var flags := PermissionsToFlags(perms);
      AlignedDown(baseAddr);
      AlignedDown(baseAddr + lengthBytes + 4095);
      var start := And(baseAddr, Not(PAGE_SIZE - 1));
      var end := And(baseAddr + lengthBytes + PAGE_SIZE - 1, Not(PAGE_SIZE - 1));
      ghost var rs := RegionRequests(baseAddr, lengthBytes, perms);
      ghost var m, used, own0 := mem[..], next, own;
      RegionShape(baseAddr, lengthBytes, perms, m, used, TablePool(), root);
      var addr := start;
      ghost var n := 0;
      while addr < end
        invariant Valid() && addr == start + n * 4096 && n <= |rs|
        invariant var s := MapPages(Words(), m, used, TablePool(), root, rs[..n]);
          s.status.Table? && mem[..] == s.mem && next == s.used
        decreases end - addr
      {
        RegionPage(baseAddr, lengthBytes, perms, n);
        NextPage(Words(), m, used, TablePool(), root, rs, n);
        PermsWord(addr, perms);
        var r1 := MapPage(addr, addr, flags, Descriptor(addr / 4096, PageLow(perms), PageHigh(perms)));
        n := n + 1;
        if r1.InvalidMemoryRegion? {
          FailureIsFinal(Words(), m, used, TablePool(), root, rs, n);
          own := RegionKeeps(m, root, base, used, own0, baseAddr, lengthBytes, perms);
          return InvalidMemoryRegion;
        }
        addr := addr + PAGE_SIZE;
      }
      own := RegionKeeps(m, root, base, used, own0, baseAddr, lengthBytes, perms);
      r := Ok(start);
    }
  }

  // ---------------------------------------------------------------------------
  // Steps of the methods
  // ---------------------------------------------------------------------------

  lemma RootAlone(m: Memory, root: nat)
    requires root < |m| && Zeroed(m, root)
    ensures Owned(Words(), m, root, 4, Bare(root))
  {
    forall i: Index ensures !Points(Words(), Get(m, root, i)) {
      assert Get(m, root, i) == 0;
    }
  }

  lemma TopLevels(p: Path, indices: seq<Index>)
    requires |p| == 4 && |indices| == 4 && forall k | 0 <= k < 4 :: indices[k] == p[k]
    ensures indices == p && p[..3][0..] == p[..3]
  {
  }

  lemma RootInTree(m: Memory, root: nat, base: nat, next: nat, own: Owners)
    requires Sound(m, root, base, next, own)
    ensures root in own && own[root] == [] && root * 4096 < TWO64 && root * 4096 / 4096 == root
  {
  }

  lemma TableInMemory(m: Memory, root: nat, base: nat, next: nat, own: Owners, f: nat)
    requires Sound(m, root, base, next, own) && f in own
    ensures f < |m| && next <= TABLE_POOL_SIZE
  {
  }

  lemma PoolInMemory(m: Memory, root: nat, base: nat, next: nat, own: Owners)
    requires Sound(m, root, base, next, own)
    ensures next < TABLE_POOL_SIZE ==> base + TABLE_POOL_SIZE <= FRAMES
  {
    if next < TABLE_POOL_SIZE {
      assert Free(m, own, base + TABLE_POOL_SIZE - 1);
    }
  }

  lemma RunsDry(m: Memory, used: nat, pool: Pool, f: nat, path: Path)
    requires path != [] && !Words().valid(Get(m, f, path[0])) && used >= pool.len
    ensures Descend(Words(), m, used, pool, f, path) == Step(m, used, Exhausted)
  {
  }

  lemma LeafWritten(m: Memory, root: nat, base: nat, next: nat, own: Owners, f: nat, i: Index, word: U64)
    requires Sound(m, root, base, next, own) && f in own && |own[f]| == 3
    ensures Sound(Put(m, f, i, word), root, base, next, own)
  {
    hide Words, Owned, Fresh;
    LeafOwned(Words(), m, root, 4, own, f, i, word);
    LeafFresh(m, own, Pool(base, TABLE_POOL_SIZE), next, f, i, word);
  }

  lemma LinkTable(m: Memory, used: nat, base: nat, root: nat, own: Owners, f: nat, path: Path, word: U64)
    returns (own1: Owners)
    requires Sound(m, root, base, used, own) && used < TABLE_POOL_SIZE && word == Words().table(base + used)
    requires f in own && path != [] && |own[f]| + 1 < 4 && !Words().valid(Get(m, f, path[0]))
    ensures base + used in own1 && |own1[base + used]| == |own[f]| + 1 && f < |m|
    ensures var m1 := Put(m, f, path[0], word);
      && Sound(m1, root, base, used + 1, own1)
      && Descend(Words(), m, used, Pool(base, TABLE_POOL_SIZE), f, path)
        == Descend(Words(), m1, used + 1, Pool(base, TABLE_POOL_SIZE), base + used, path[1..])
  {
    hide Descend, Find, Words, Owned, Fresh, Linked, Lawful, SameWalks;
    WordsAreLawful(|m|);
    var g, m1;
    g, m1, own1 := LinkGrown(Words(), m, used, Pool(base, TABLE_POOL_SIZE), root, 4, own, f, path[0]);
    LinksFirst(Words(), m, used, Pool(base, TABLE_POOL_SIZE), f, path, g, m1);
    InMemory(m, root, own, f);
    LinkedMore(root, base, used);
  }

  lemma LinkedMore(root: nat, base: nat, n: nat)
    ensures Linked(root, base, n + 1) == Linked(root, base, n) + {base + n}
  {
  }

  lemma InMemory(m: Memory, root: nat, own: Owners, f: nat)
    requires Owned(Words(), m, root, 4, own) && f in own
    ensures f < |m|
  {
  }

  lemma PointerWord(g: nat)
    requires g < FRAMES
    ensures Or(Or(g * 4096, VALID), TABLE_OR_PAGE) == Words().table(g)
    ensures Words().next(Words().table(g)) == g && Words().valid(Words().table(g))
  {
    PointerBits(g);
    LowFields(g, 3, 0);
  }

  lemma FollowTable(m: Memory, root: nat, base: nat, own: Owners, f: nat, path: Path, used: nat)
    requires Sound(m, root, base, used, own) && f in own && path != [] && |own[f]| + 1 < 4
    requires Words().valid(Get(m, f, path[0]))
    ensures var g, pool := Words().next(Get(m, f, path[0])), Pool(base, TABLE_POOL_SIZE);
      && g in own && |own[g]| == |own[f]| + 1
      && Descend(Words(), m, used, pool, f, path) == Descend(Words(), m, used, pool, g, path[1..])
  {
    hide Descend, Find, Fresh, Linked;
    assert Points(Words(), Get(m, f, path[0]));
    FollowsFirst(Words(), m, used, Pool(base, TABLE_POOL_SIZE), f, path);
  }

  // ---------------------------------------------------------------------------
  // A region as a batch of pages
  // ---------------------------------------------------------------------------

  /** Page `q` shares an address with the region. */
  predicate Overlaps(baseAddr: nat, lengthBytes: nat, q: nat) {
    q * 4096 < baseAddr + lengthBytes && baseAddr < q * 4096 + 4096
  }

  function IdentityPages(start: nat, pages: nat, low: nat, high: nat): (rs: seq<Request>)
    ensures |rs| == pages
    ensures forall k | 0 <= k < pages :: rs[k] == IdentityPage(start + k, low, high)
  {
    if pages == 0 then []
    else IdentityPages(start, pages - 1, low, high) + [IdentityPage(start + pages - 1, low, high)]
  }

  function IdentityPage(q: nat, low: nat, high: nat): Request {
    Request(Path4(q), Descriptor(q, low, high))
  }

  function RegionPages(baseAddr: nat, lengthBytes: nat): nat {
    (baseAddr + lengthBytes + 4095) / 4096 - baseAddr / 4096
  }

  function RegionRequests(baseAddr: nat, lengthBytes: nat, perms: MapPermissions): seq<Request> {
    IdentityPages(baseAddr / 4096, RegionPages(baseAddr, lengthBytes), PageLow(perms), PageHigh(perms))
  }

  /** The pages of the batch are exactly those the region overlaps. */
  lemma PagesOverlap(baseAddr: nat, lengthBytes: nat, q: nat)
    requires lengthBytes > 0
    ensures baseAddr / 4096 <= q < baseAddr / 4096 + RegionPages(baseAddr, lengthBytes) <==> Overlaps(baseAddr, lengthBytes, q)
  {
  }

  /** `align_down`, and `align_up` once PAGE_SIZE - 1 was added. */
  lemma AlignedDown(a: U64)
    ensures And(a, Not(PAGE_SIZE - 1)) == a / 4096 * 4096
  {
    hide And, Pow2;
    Powers();
    WordSize();
    AndField(a, 12, 64);
    WholeWord(a);
  }

  lemma WholeWord(a: U64)
    ensures a % TWO64 == a && a - a % 4096 == a / 4096 * 4096
  {
  }

  lemma RegionShape(baseAddr: nat, lengthBytes: nat, perms: MapPermissions, m: Memory, used: nat, pool: Pool, root: nat)
    ensures var rs := RegionRequests(baseAddr, lengthBytes, perms);
      && rs[..|rs|] == rs && (forall k | 0 <= k < |rs| :: |rs[k].path| == 4)
      && baseAddr / 4096 * 4096 + |rs| * 4096 == (baseAddr + lengthBytes + 4095) / 4096 * 4096
      && MapPages(Words(), m, used, pool, root, rs[..0]) == Step(m, used, Table(root))
  {
  }

  lemma RegionPage(baseAddr: nat, lengthBytes: nat, perms: MapPermissions, n: nat)
    requires n < RegionPages(baseAddr, lengthBytes)
    ensures var addr := baseAddr / 4096 * 4096 + n * 4096;
      && n < |RegionRequests(baseAddr, lengthBytes, perms)|
      && RegionRequests(baseAddr, lengthBytes, perms)[n]
         == Request(Path4(addr / 4096), Descriptor(addr / 4096, PageLow(perms), PageHigh(perms)))
  {
    assert (baseAddr / 4096 * 4096 + n * 4096) / 4096 == baseAddr / 4096 + n;
  }

  lemma PermsWord(addr: U64, perms: MapPermissions)
    ensures Or(Or(Or(Or(And(addr, ADDR_MASK), PageHigh(perms) * PXN + (PageLow(perms) - 0x403)), VALID), TABLE_OR_PAGE), AF)
      == Descriptor(addr / 4096, PageLow(perms), PageHigh(perms))
  {
    PageWord(addr, PageLow(perms) - 0x403, PageHigh(perms));
  }

  lemma RegionWanted(baseAddr: nat, lengthBytes: nat, perms: MapPermissions)
    ensures Wanted(Words(), 4, RegionRequests(baseAddr, lengthBytes, perms))
  {
    hide Descriptor;
    var rs := RegionRequests(baseAddr, lengthBytes, perms);
    forall k | 0 <= k < |rs| ensures |rs[k].path| == 4 && Words().valid(rs[k].word) {
      LowFields(baseAddr / 4096 + k, PageLow(perms), PageHigh(perms));
    }
  }

  lemma RegionKeeps(m: Memory, root: nat, base: nat, used: nat, own: Owners,
                    baseAddr: nat, lengthBytes: nat, perms: MapPermissions)
    returns (own': Owners)
    requires Sound(m, root, base, used, own)
    ensures var rs, pool := RegionRequests(baseAddr, lengthBytes, perms), Pool(base, TABLE_POOL_SIZE);
      var s := MapPages(Words(), m, used, pool, root, rs);
      && Mapped(Words(), m, used, pool, root, 4, own, rs, s, own')
      && Sound(s.mem, root, base, s.used, own')
  {
    hide Words, Owned, Fresh, MapPages, Lawful, Wanted, Overlaid, RegionRequests, NoneCovered, Needed;
    WordsAreLawful(|m|);
    RegionWanted(baseAddr, lengthBytes, perms);
    own' := MapPagesKeeps(Words(), m, used, Pool(base, TABLE_POOL_SIZE), root, 4, own,
                          RegionRequests(baseAddr, lengthBytes, perms));
    KeysGrow(own, own', root, base, used,
             MapPages(Words(), m, used, Pool(base, TABLE_POOL_SIZE), root, RegionRequests(baseAddr, lengthBytes, perms)).used);
  }

  lemma KeysGrow(own: Owners, own': Owners, root: nat, base: nat, used: nat, used': nat)
    requires own.Keys == Linked(root, base, used) && used <= used'
    requires forall g | g in own :: g in own'
    requires forall g | g in own' :: g in own || base + used <= g < base + used'
    requires forall g | base + used <= g < base + used' :: g in own'
    ensures own'.Keys == Linked(root, base, used')
  {
    forall g | g in Linked(root, base, used') ensures g in own' {
      assert g in Linked(root, base, used) ==> g in own.Keys;
    }
    forall g | g in own' ensures g in Linked(root, base, used') {
      assert g in own ==> g in own.Keys;
    }
  }

  // ---------------------------------------------------------------------------
  // What the mapper promises
  // ---------------------------------------------------------------------------

  /** TABLE_POOL_NEXT counts the tables below the root, each linked at one path. */
  lemma NextCountsTables(m: Memory, root: nat, base: nat, next: nat, own: Owners)
    requires Sound(m, root, base, next, own)
    ensures |own.Values - {[]}| == next
    ensures forall p: Path | 0 < |p| < 4 :: p in own.Values - {[]} <==> Reach(Words(), m, root, p).Some?
  {
    hide Words, Reach, Fresh, Closed;
    forall p: Path | 0 < |p| < 4 ensures p in own.Values <==> Reach(Words(), m, root, p).Some? {
      TablesAreOwned(Words(), m, root, 4, own, p);
    }
    PathsAreUnique(m, root, own);
    OnePathEach(own);
    assert own[root] in own.Values;
    CountBelowRoot(own, root, base, next);
  }

  lemma PathsAreUnique(m: Memory, root: nat, own: Owners)
    requires Owned(Words(), m, root, 4, own)
    ensures forall f, g | f in own && g in own && own[f] == own[g] :: f == g
  {
    hide Words, Reach, Closed;
    forall f, g | f in own && g in own && own[f] == own[g] ensures f == g {
      assert Reach(Words(), m, root, own[f]) == Some(f);
    }
  }

  lemma CountBelowRoot(own: Owners, root: nat, base: nat, next: nat)
    requires own.Keys == Linked(root, base, next) && !(base <= root < base + next)
    requires |own.Values| == |own.Keys| && [] in own.Values
    ensures |own.Values - {[]}| == next
  {
    assert Linked(root, base, next) - {root} == Range(base, next);
  }

  lemma {:induction false} OnePathEach(own: Owners)
    requires forall f, g | f in own && g in own && own[f] == own[g] :: f == g
    ensures |own.Values| == |own.Keys|
    decreases |own|
  {
    if own.Keys == {} {
      assert own.Values == {};
    } else {
      var f :| f in own.Keys;
      var rest := own - {f};
      OnePathEach(rest);
      assert own.Keys == rest.Keys + {f};
      ValuesSplit(own, f);
    }
  }

  lemma ValuesSplit(own: Owners, f: nat)
    requires f in own && forall g | g in own && own[f] == own[g] :: f == g
    ensures own[f] !in (own - {f}).Values && own.Values == (own - {f}).Values + {own[f]}
  {
    var rest := own - {f};
    forall p | p in own.Values ensures p in rest.Values + {own[f]} {
      var g :| g in own && own[g] == p;
      assert g != f ==> rest[g] == p;
    }
    forall p | p in rest.Values ensures p in own.Values && p != own[f] {
      var g :| g in rest && rest[g] == p;
      assert own[g] == p;
    }
  }

  /** No walk of this mapper's trees meets a block. */
  lemma {:induction false} NeverCovered(m: Memory, f: nat, p: Path)
    requires p != []
    ensures !Covered(Find(Words(), m, f, p))
    decreases |p|
  {
    if |p| > 1 && Words().valid(Get(m, f, p[0])) {
      NeverCovered(m, Words().next(Get(m, f, p[0])), p[1..]);
    }
  }

  /** A region is mapped whole exactly when the pool holds the tables it lacks. */
  lemma RegionSucceeds(m: Memory, root: nat, base: nat, used: nat, own: Owners,
                       baseAddr: nat, lengthBytes: nat, perms: MapPermissions)
    requires Sound(m, root, base, used, own)
    ensures var rs := RegionRequests(baseAddr, lengthBytes, perms);
      var s := MapPages(Words(), m, used, Pool(base, TABLE_POOL_SIZE), root, rs);
      var lacking := |Missing(Words(), m, root, rs)|;
      && (s.status.Table? <==> used + lacking <= 16)
      && (s.status.Table? ==> s.used == used + lacking)
  {
    hide Words, Owned, Fresh, MapPages, Lawful, Overlaid, RegionRequests, Needed, Grown, Missing, Find;
    var rs := RegionRequests(baseAddr, lengthBytes, perms);
    WordsAreLawful(|m|);
    RegionWanted(baseAddr, lengthBytes, perms);
    var own' := MapPagesKeeps(Words(), m, used, Pool(base, TABLE_POOL_SIZE), root, 4, own, rs);
    MissingIsUnowned(Words(), m, root, 4, own, rs);
    forall k | 0 <= k < |rs| ensures !Covered(Find(Words(), m, root, rs[k].path)) {
      NeverCovered(m, root, rs[k].path);
    }
  }

  lemma IdentityNeeds(start: nat, pages: nat, low: nat, high: nat)
    requires pages > 0
    ensures Needed(IdentityPages(start, pages, low, high))
      == Needed(IdentityPages(start, pages - 1, low, high)) + Tops(Path4(start + pages - 1))
  {
    hide Tops, Path4, Descriptor;
    var rs := IdentityPages(start, pages, low, high);
    assert rs[..pages - 1] == IdentityPages(start, pages - 1, low, high);
  }

  lemma {:induction false} SameNeeds(start: nat, pages: nat, low: nat, high: nat, low': nat, high': nat)
    ensures Needed(IdentityPages(start, pages, low, high)) == Needed(IdentityPages(start, pages, low', high'))
  {
    hide Tops, Path4, Descriptor, Needed;
    if pages > 0 {
      SameNeeds(start, pages - 1, low, high, low', high');
      IdentityNeeds(start, pages, low, high);
      IdentityNeeds(start, pages, low', high');
    }
  }

  /** Mapping a mapped region again, with any permissions, takes no table. */
  lemma RemapIsFree(m: Memory, root: nat, base: nat, used: nat, own: Owners,
                    baseAddr: nat, lengthBytes: nat, perms: MapPermissions, perms': MapPermissions)
    requires Sound(m, root, base, used, own)
    ensures var pool := Pool(base, TABLE_POOL_SIZE);
      var s := MapPages(Words(), m, used, pool, root, RegionRequests(baseAddr, lengthBytes, perms));
      var t := MapPages(Words(), s.mem, s.used, pool, root, RegionRequests(baseAddr, lengthBytes, perms'));
      s.status.Table? ==> t.status.Table? && t.used == s.used
  {
    hide Words, Owned, Fresh, MapPages, Lawful, Overlaid, Needed, Find, IdentityPages, Wanted;
    var rs, rs' := RegionRequests(baseAddr, lengthBytes, perms), RegionRequests(baseAddr, lengthBytes, perms');
    var pool := Pool(base, TABLE_POOL_SIZE);
    WordsAreLawful(|m|);
    RegionWanted(baseAddr, lengthBytes, perms);
    RegionWanted(baseAddr, lengthBytes, perms');
    var own1 := MapPagesKeeps(Words(), m, used, pool, root, 4, own, rs);
    var s := MapPages(Words(), m, used, pool, root, rs);
    if s.status.Table? {
      var own2 := MapPagesKeeps(Words(), s.mem, s.used, pool, root, 4, own1, rs');
      SameNeeds(baseAddr / 4096, RegionPages(baseAddr, lengthBytes), PageLow(perms), PageHigh(perms), PageLow(perms'), PageHigh(perms'));
      assert Needed(rs') - own1.Values == {};
      forall k | 0 <= k < |rs'| ensures !Covered(Find(Words(), s.mem, root, rs'[k].path)) {
        NeverCovered(s.mem, root, rs'[k].path);
      }
    }
  }

  // ---------------------------------------------------------------------------
  // What the hardware makes of a region
  // ---------------------------------------------------------------------------

  /** TTBR0 covers 48 bits; output frames lie below `out`. */
  function Translate(m: Memory, out: nat, root: nat, va: U64, acc: Access, el: Regime): Translated {
    if va < 0x1_0000_0000_0000 then WalkAt(m, out, root, 3, va, acc, el, UNLIMITED) else TranslationFault
  }

  /** EL1 may always load and store, EL0 never; both may fetch if EXECUTABLE. */
  predicate Grants(perms: MapPermissions, acc: Access, el: Regime) {
    if acc.Fetch? then perms.executable else el.El1?
  }

  lemma BelowIsPath4(va: U64)
    ensures Below(va, 3) == Path4(va / 4096)
  {
    BelowIsPath(va);
    assert va / 0x80_0000_0000 == va / 4096 / 0x800_0000;
  }

  lemma TranslateFinds(m: Memory, out: nat, root: nat, own: Owners, va: U64, acc: Access, el: Regime)
    requires |m| <= out && Owned(Words(), m, root, 4, own)
    ensures Translate(m, out, root, va, acc, el)
      == if va < 0x1_0000_0000_0000 then WordEnds(out, Find(Words(), m, root, Path4(va / 4096)), va, acc, el)
         else TranslationFault
  {
    hide Path4, Below, WalkAt, WordEnds;
    WalkFinds(false, m, out, root, 4, own, root, 3, va, acc, el);
    BelowIsPath4(va);
  }

  lemma PageFields(perms: MapPermissions)
    ensures LeafBits(PageLow(perms), PageHigh(perms), true, if perms.deviceUncached then 1 else 0, false, false,
                     !perms.executable, !perms.executable)
  {
  }

  lemma PageMeaning(f: nat, perms: MapPermissions, out: nat, va: U64, acc: Access, el: Regime)
    requires f < out <= FRAMES
    ensures WordEnds(out, Stop(0, Descriptor(f, PageLow(perms), PageHigh(perms))), va, acc, el)
      == if Grants(perms, acc, el)
         then Physical(f * 4096 + va % 4096, if perms.deviceUncached then DeviceNGnRnE else WriteBack(3)) else PermissionFault
  {
    hide Descriptor, WordEnds, LeafBits, PageLow, PageHigh;
    PageFields(perms);
    var x := perms.executable;
    DescriptorMeaning(f, PageLow(perms), PageHigh(perms), if perms.deviceUncached then 1 else 0, false, false, !x, !x,
                      out, 0, va, acc, el);
    assert Grants(perms, acc, el) <==> Permits(false, true, !x, !x, acc, el);
  }

  lemma PathsEqual(a: nat, b: nat)
    requires a < FRAMES && b < FRAMES && Path4(a) == Path4(b)
    ensures a == b
  {
    hide PathOf;
    assert Path4(a)[0] == Path4(b)[0];
    assert Path4(a)[1..] == PathOf(a) && Path4(b)[1..] == PathOf(b);
    PathsAgree(a, b);
    TopAndRest(a, b);
  }

  lemma TopAndRest(a: nat, b: nat)
    requires a < FRAMES && b < FRAMES && a / 0x800_0000 % 512 == b / 0x800_0000 % 512 && a % 0x800_0000 == b % 0x800_0000
    ensures a == b
  {
  }

  lemma {:induction false} LatestIdentity(start: nat, pages: nat, low: nat, high: nat, q: nat)
    requires start + pages <= FRAMES && q < FRAMES
    ensures Latest(IdentityPages(start, pages, low, high), Path4(q))
      == if start <= q < start + pages then Some(Descriptor(q, low, high)) else None
  {
    hide Path4, Descriptor;
    if pages > 0 {
      var rs := IdentityPages(start, pages, low, high);
      assert rs[..pages - 1] == IdentityPages(start, pages - 1, low, high);
      LatestIdentity(start, pages - 1, low, high, q);
      if Path4(start + pages - 1) == Path4(q) {
        PathsEqual(start + pages - 1, q);
      }
    }
  }

  lemma {:induction false} IdentityPrefix(start: nat, pages: nat, low: nat, high: nat, k: nat)
    requires k <= pages
    ensures IdentityPages(start, pages, low, high)[..k] == IdentityPages(start, k, low, high)
  {
    if k < pages {
      IdentityPrefix(start, pages - 1, low, high, k);
    }
  }

  /** After `setup_identity_mapping`, every address of the pages served translates to
      itself for what the flags grant, every other one as before; and when the call
      succeeds the pages served are exactly those the region overlaps. */
  lemma RegionTranslates(m: Memory, out: nat, root: nat, base: nat, used: nat, own: Owners,
                         baseAddr: nat, lengthBytes: nat, perms: MapPermissions, va: U64, acc: Access, el: Regime)
    returns (n: nat)
    requires |m| <= out <= FRAMES && lengthBytes > 0 && Sound(m, root, base, used, own)
    requires baseAddr + lengthBytes <= out * 4096
    ensures n <= RegionPages(baseAddr, lengthBytes)
    ensures var s := MapPages(Words(), m, used, Pool(base, TABLE_POOL_SIZE), root, RegionRequests(baseAddr, lengthBytes, perms));
      && (s.status.Table? <==> n == RegionPages(baseAddr, lengthBytes))
      && Translate(s.mem, out, root, va, acc, el) ==
         if Overlaps(baseAddr, lengthBytes, va / 4096) && va / 4096 < baseAddr / 4096 + n
         then (if Grants(perms, acc, el)
               then Physical(va, if perms.deviceUncached then DeviceNGnRnE else WriteBack(3)) else PermissionFault)
         else Translate(m, out, root, va, acc, el)
  {
    hide Words, Owned, Fresh, MapPages, Served, Translate, Grants, IdentityPages, Find, WordEnds, Path4, Descriptor,
      NoneCovered, Needed, Lawful, Wanted, Latest, Overlaps;
    var pool, rs := Pool(base, TABLE_POOL_SIZE), RegionRequests(baseAddr, lengthBytes, perms);
    var s, q, start := MapPages(Words(), m, used, pool, root, rs), va / 4096, baseAddr / 4096;
    n := Served(Words(), m, used, pool, root, rs);
    WordsAreLawful(|m|);
    RegionWanted(baseAddr, lengthBytes, perms);
    var own' := MapPagesKeeps(Words(), m, used, pool, root, 4, own, rs);
    ServedAll(Words(), m, used, pool, root, rs);
    IdentityPrefix(start, RegionPages(baseAddr, lengthBytes), PageLow(perms), PageHigh(perms), n);
    TranslateFinds(m, out, root, own, va, acc, el);
    TranslateFinds(s.mem, out, root, own', va, acc, el);
    PagesOverlap(baseAddr, lengthBytes, q);
    if va < 0x1_0000_0000_0000 {
      LatestIdentity(start, n, PageLow(perms), PageHigh(perms), q);
      assert |Path4(q)| == 4;
      if Overlaps(baseAddr, lengthBytes, q) && q < start + n {
        PageMeaning(q, perms, out, va, acc, el);
      }
    }
  }
}
