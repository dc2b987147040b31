/** The AArch64 39-bit mapper of hal/hal-arm64/src/cpu.rs (module aarch64_paging)
    and what the hardware, walking from level 1 with 40-bit output addresses,
    makes of its tables. */
module Aarch64Paging {
  import opened Bits
  import opened Options
  import opened PageTree
  import opened Va39
  import opened Vmsa

  const ATTR_NORMAL: U64 := 0

  /** Frames below the 40-bit output limit of TCR_EL1.IPS. */
  const OUTPUT_FRAMES: nat := 0x1000_0000

  /** The words of a table, blocks included. */
  function Words(): Codec {
    DescriptorWords(true)
  }

  lemma WordsAreLawful(frames: nat)
    requires frames <= FRAMES
    ensures Lawful(Words(), frames)
  {
    DescriptorsAreLawful(true, frames);
  }

  // ---------------------------------------------------------------------------
  // The bit operations of the mapper
  // ---------------------------------------------------------------------------

  lemma EntryTests(e: U64)
    ensures And(e, VALID) == 0 <==> !Words().valid(e)
    ensures And(e, TABLE_OR_PAGE) == 0 <==> Words().block(e)
  {
    AndBit(e, 0);
    AndBit(e, 1);
    assert Pow2(0) == 1 && Pow2(1) == 2;
    ShrBy(e, 1, 2);
  }

  /** Bits 11..0 of a page: VALID, page, inner shareable, AF; AP_USER for USER,
      AP_RO without WRITE. */
  function LeafLow(permBits: nat): (r: nat)
    ensures r < 4096
  {
    0x703 + (if permBits / 8 % 2 == 1 then 64 else 0) + (if permBits / 2 % 2 == 1 then 0 else 128)
  }

  /** UXN and PXN of a page, as bits 54..53: both without EXECUTE, else PXN for a
      user page and UXN for a kernel page. */
  function LeafHigh(permBits: nat): (r: nat)
    ensures r < 4
  {
    if permBits / 4 % 2 == 0 then 3 else if permBits / 8 % 2 == 1 then 1 else 2
  }

  function Leaf(permBits: U64): nat -> U64 {
    frame => Descriptor(frame, LeafLow(permBits), LeafHigh(permBits))
  }

  lemma LeavesAreValid()
    ensures Leaves(Words(), Leaf)
  {
    forall permBits: U64, frame: nat | frame < 0x10_0000_0000_0000
      ensures Words().valid(Leaf(permBits)(frame))
    {
      LowFields(frame, LeafLow(permBits), LeafHigh(permBits));
    }
  }

  lemma LowBitsAdded(user: bool, write: bool)
    ensures var base := Or(Or(Or(Or(VALID, TABLE_OR_PAGE), ATTR_NORMAL), SH_INNER), AF);
      var a := if user then Or(base, AP_USER) else base;
      (if write then a else Or(a, AP_RO)) == 0x703 + (if user then 64 else 0) + (if write then 0 else 128)
  {
    hide And, Or;
    PageBits();
    UserBits();
  }

  lemma PageBits()
    ensures Or(Or(Or(Or(VALID, TABLE_OR_PAGE), ATTR_NORMAL), SH_INNER), AF) == 0x703
  {
    assert Or(VALID, TABLE_OR_PAGE) == 3 && Or(3, ATTR_NORMAL) == 3;
    Shareable(3);
    AccessedBit(0x303);
  }

  lemma UserBits()
    ensures Or(0x703, AP_USER) == 0x743 && Or(0x703, AP_RO) == 0x783 && Or(0x743, AP_RO) == 0x7C3
  {
    assert Pow2(6) == 64 && Pow2(7) == 128;
    ShrBy(0x703, 6, 64);
    ShrBy(0x703, 7, 128);
    ShrBy(0x743, 7, 128);
    OrBit(0x703, 6);
    OrBit(0x703, 7);
    OrBit(0x743, 7);
  }

  // ---------------------------------------------------------------------------
  // map_range
  // ---------------------------------------------------------------------------

  /** The frame address `slot` of table `table` leads to, linking the next pool
      frame if the slot is empty. Both upper levels of `map_range` run this. */
  method NextTableAt(mem: array<Frame>, table: U64, slot: Index, poolBase: U64, poolLen: U64, used: nat,
                     ghost root: nat, ghost own: Owners, ghost path: Path)
    returns (ok: bool, next: U64, used': nat, ghost own': Owners)
    requires mem.Length <= FRAMES && table % 4096 == 0 && poolBase % 4096 == 0
    requires Owned(Words(), mem[..], root, 3, own) && Fresh(mem[..], own, Pool(poolBase / 4096, poolLen), used)
    requires table / 4096 in own && |own[table / 4096]| + 1 < 3 && table / 4096 < mem.Length
    requires path != [] && path[0] == slot
    modifies mem
    ensures ok ==> next % 4096 == 0
    ensures ok ==> Entered(Words(), old(mem[..]), used, Pool(poolBase / 4096, poolLen), root, 3, own, table / 4096, path,
                           mem[..], used', own', next / 4096)
    ensures !ok ==> mem[..] == old(mem[..]) && own' == own
    ensures !ok ==> var d := Descend(Words(), mem[..], used, Pool(poolBase / 4096, poolLen), table / 4096, path);
      !d.status.Table? && d.mem == mem[..]
  {
    hide Words, Owned, Fresh, Descend, And, Or, Entered, Lawful;
    ghost var m, pool, f := mem[..], Pool(poolBase / 4096, poolLen), table / 4096;
    ok, next, used', own' := false, 0, used, own;
    var frame := mem[table / 4096];
    var e := frame[slot];
    assert e == Get(m, f, path[0]);
    EntryTests(e);
    if And(e, VALID) == 0 {
      if used >= poolLen {
        StopsHere(Words(), m, used, pool, f, path);
        return;
      }
      PoolAddress(m, own, poolBase, poolLen, used);
      next := poolBase + used * 4096;
      var word := Or(Or(And(next, ADDR_MASK), VALID), TABLE_OR_PAGE);
      mem[table / 4096] := frame[slot := word];
      ok, used' := true, used + 1;
      WordsAreLawful(|m|);
      own' := LinkedAt(Words(), m, used, pool, root, own, f, path, word);
      assert mem[..] == m[f := m[f][path[0] := word]];
    } else if And(e, TABLE_OR_PAGE) == 0 {
      StopsHere(Words(), m, used, pool, f, path);
    } else {
      NextTable(e);
      StepOver(Words(), m, used, pool, root, 3, own, f, path);
      ok, next := true, And(e, ADDR_MASK);
    }
  }

  lemma NextTable(e: U64)
    ensures And(e, ADDR_MASK) % 4096 == 0 && And(e, ADDR_MASK) / 4096 == Words().next(e)
  {
    AddressField(e);
  }

  /** The address of the next pool frame, and the word that points at it. */
  lemma PoolAddress(m: Memory, own: Owners, poolBase: U64, poolLen: U64, used: nat)
    requires |m| <= FRAMES && poolBase % 4096 == 0 && used < poolLen
    requires Fresh(m, own, Pool(poolBase / 4096, poolLen), used)
    ensures var t := poolBase + used * 4096;
      && t < TWO64 && t % 4096 == 0 && t / 4096 == poolBase / 4096 + used
      && Or(Or(And(t, ADDR_MASK), VALID), TABLE_OR_PAGE) == Words().table(t / 4096)
  {
    hide And, Or, Descriptor;
    assert Free(m, own, poolBase / 4096 + used);
    TableWord(poolBase + used * 4096);
  }

  /** One round of the loop of `map_range`: descend to the last table, write the leaf. */
  method MapOnePage(mem: array<Frame>, rootFrame: U64, va: U64, pa: U64, leaf: U64, poolBase: U64, poolLen: U64,
                    used: nat, ghost own: Owners, ghost word: U64)
    returns (ok: bool, used': nat, ghost own': Owners)
    requires mem.Length <= FRAMES && rootFrame % 4096 == 0 && poolBase % 4096 == 0
    requires word == Or(And(pa, ADDR_MASK), leaf)
    requires Owned(Words(), mem[..], rootFrame / 4096, 3, own)
    requires Fresh(mem[..], own, Pool(poolBase / 4096, poolLen), used)
    modifies mem
    ensures var s := MapPage(Words(), old(mem[..]), used, Pool(poolBase / 4096, poolLen), rootFrame / 4096,
                             PageAt(va / 4096, word));
      && mem[..] == s.mem && ok == s.status.Table?
      && (ok ==> used' == s.used)
    ensures ok ==> Owned(Words(), mem[..], rootFrame / 4096, 3, own')
    ensures ok ==> Fresh(mem[..], own', Pool(poolBase / 4096, poolLen), used')
  {
    hide Words, Owned, Fresh, Descend, And, Or, Shr;
    PageIndices(va);
    ghost var m, pool, root, path := mem[..], Pool(poolBase / 4096, poolLen), rootFrame / 4096, PathOf(va / 4096);
    var l1i, l2i, l3i := And(Shr(va, 30), 0x1FF), And(Shr(va, 21), 0x1FF), And(Shr(va, 12), 0x1FF);
    OwnedRoot(Words(), m, root, own);
    var l2, l3;
    ok, l2, used', own' := NextTableAt(mem, rootFrame, l1i, poolBase, poolLen, used, root, own, [l1i, l2i]);
    assert path[..2] == [l1i, l2i] && [l1i, l2i][1..] == [l2i] && [l2i][1..] == [];
    if !ok {
      return;
    }
    ok, l3, used', own' := NextTableAt(mem, l2, l2i, poolBase, poolLen, used', root, own', [l2i]);
    if !ok {
      return;
    }
    ghost var m2 := mem[..];
    DescendEnds(Words(), m2, used', pool, l3 / 4096);
    var frame := mem[l3 / 4096];
    mem[l3 / 4096] := frame[l3i := Or(And(pa, ADDR_MASK), leaf)];
    assert mem[..] == Put(m2, l3 / 4096, l3i, word);
    LeafOwned(Words(), m2, root, 3, own', l3 / 4096, l3i, word);
    LeafFresh(m2, own', pool, used', l3 / 4096, l3i, word);
  }

  /** The loop of `map_range`: `leaf` on every page of an accepted range, in order. */
  method MapLoop(mem: array<Frame>, rootFrame: U64, vaddr: U64, paddr: U64, len: U64, leaf: U64,
                 poolBase: U64, poolLen: U64, ghost permBits: U64, ghost own: Owners)
    returns (r: nat, ghost own': Owners)
    requires mem.Length <= FRAMES && rootFrame % 4096 == 0 && poolBase % 4096 == 0
    requires vaddr + len <= TWO64 && paddr + len <= TWO64 && leaf == LeafHigh(permBits) * PXN + LeafLow(permBits)
    requires vaddr % 4096 == 0 && paddr % 4096 == 0 && len % 4096 == 0
    requires Owned(Words(), mem[..], rootFrame / 4096, 3, own)
    requires Fresh(mem[..], own, Pool(poolBase / 4096, poolLen), 0)
    modifies mem
    ensures var rs := CallRequests(Leaf, Call(vaddr, paddr, len, permBits, poolBase, poolLen));
      var s := MapPages(Words(), old(mem[..]), 0, Pool(poolBase / 4096, poolLen), rootFrame / 4096, rs);
      && mem[..] == s.mem && r == (if s.status.Table? then s.used else 0xFFFF_FFFF)
      && Mapped(Words(), old(mem[..]), 0, Pool(poolBase / 4096, poolLen), rootFrame / 4096, 3, own, rs, s, own')
  {
    hide Words, Owned, Fresh, MapPages, MapPage, Mapped, NoneCovered, Needed, CallRequests, And, Or, PathOf, Descriptor, LeafLow, LeafHigh,
      Lawful, Leaves;
    ghost var m, pool, root := mem[..], Pool(poolBase / 4096, poolLen), rootFrame / 4096;
    ghost var c := Call(vaddr, paddr, len, permBits, poolBase, poolLen);
    ghost var rs := CallRequests(Leaf, c);
    var used, pages := 0, len / 4096;
    CallLength(Words(), Leaf, m, root, pool, c);
    WordsAreLawful(mem.Length);
    LeavesAreValid();
    own' := own;
    for p := 0 to pages
      invariant Owned(Words(), mem[..], root, 3, own') && Fresh(mem[..], own', pool, used)
      invariant var s := MapPages(Words(), m, 0, pool, root, rs[..p]);
        s.status.Table? && mem[..] == s.mem && used == s.used
    {
      NextPage(Words(), m, 0, pool, root, rs, p);
      CallPage(Leaf, c, p);
      AddressWord(paddr + p * 4096, LeafLow(permBits), LeafHigh(permBits));
      ghost var word := Leaf(permBits)((paddr + p * 4096) / 4096);
      var ok;
      ok, used, own' := MapOnePage(mem, rootFrame, vaddr + p * 4096, paddr + p * 4096, leaf, poolBase, poolLen, used, own', word);
      if !ok {
        FailureIsFinal(Words(), m, 0, pool, root, rs, p + 1);
        own' := CallKeeps(Words(), Leaf, m, root, pool, own, c);
        return U32_MAX, own';
      }
    }
    own' := CallKeeps(Words(), Leaf, m, root, pool, own, c);
    CountIsSmall(Words(), m, root, pool, own, rs, own');
    r := used % 0x1_0000_0000;
  }

  /** `map_range`: maps `len` bytes page by page. `own` is the tree it starts from,
      `own'` the one it leaves. */
  method MapRange(mem: array<Frame>, rootFrame: U64, vaddr: U64, paddr: U64, len: U64, permBits: U64,
                  poolBase: U64, poolLen: U64, ghost own: Owners)
    returns (r: nat, ghost own': Owners)
    requires mem.Length <= FRAMES && rootFrame % 4096 == 0 && poolBase % 4096 == 0
    requires vaddr + len <= TWO64 && paddr + len <= TWO64
    requires rootFrame != 0 ==> Owned(Words(), mem[..], rootFrame / 4096, 3, own)
    requires Fresh(mem[..], own, Pool(poolBase / 4096, poolLen), 0)
    modifies mem
    ensures rootFrame == 0 || len == 0 || vaddr % 4096 != 0 || paddr % 4096 != 0 || len % 4096 != 0 ==>
      r == 0xFFFF_FFFF && mem[..] == old(mem[..]) && own' == own
    ensures rootFrame != 0 && len != 0 && vaddr % 4096 == 0 && paddr % 4096 == 0 && len % 4096 == 0 ==>
      var rs := CallRequests(Leaf, Call(vaddr, paddr, len, permBits, poolBase, poolLen));
      var pool, root := Pool(poolBase / 4096, poolLen), rootFrame / 4096;
      var s := MapPages(Words(), old(mem[..]), 0, pool, root, rs);
      && mem[..] == s.mem
      && (r != 0xFFFF_FFFF <==> NoneCovered(Words(), old(mem[..]), root, rs) && |Needed(rs) - own.Values| <= poolLen)
      && (r != 0xFFFF_FFFF ==>
            && r == |Needed(rs) - own.Values|
            && (forall t :: t in own' <==> t in own || pool.base <= t < pool.base + r))
      && Mapped(Words(), old(mem[..]), 0, pool, root, 3, own, rs, s, own')
  {
    hide Words, Owned, Fresh, MapPages, Mapped, NoneCovered, Needed, CallRequests, And, Or, LeafLow, LeafHigh;
    AlignmentTest(vaddr, paddr, len);
    if rootFrame == 0 || len == 0 || And(Or(Or(vaddr, paddr), len), 0xFFF) != 0 {
      return U32_MAX, own;
    }
    var leaf := ComputeLeaf(permBits);
    ghost var m, pool, c := mem[..], Pool(poolBase / 4096, poolLen), Call(vaddr, paddr, len, permBits, poolBase, poolLen);
    r, own' := MapLoop(mem, rootFrame, vaddr, paddr, len, leaf, poolBase, poolLen, permBits, own);
    CallLength(Words(), Leaf, m, rootFrame / 4096, pool, c);
    CountsTables(Words(), m, rootFrame / 4096, pool, own, CallRequests(Leaf, c), own');
  }

  /** The leaf attributes of `map_range`. */
  method ComputeLeaf(permBits: U64) returns (leaf: U64)
    ensures leaf == LeafHigh(permBits) * PXN + LeafLow(permBits)
  {
    hide And, Or;
    PermissionTests(permBits);
    LowBitsAdded(permBits / 8 % 2 == 1, permBits / 2 % 2 == 1);
    leaf := Or(Or(Or(Or(VALID, TABLE_OR_PAGE), ATTR_NORMAL), SH_INNER), AF);
    if And(permBits, 8) != 0 {
      leaf := Or(leaf, AP_USER);
    }
    if And(permBits, 2) == 0 {
      leaf := Or(leaf, AP_RO);
    }
    assert leaf == LeafLow(permBits);
    HighBitsAdded(leaf);
    if And(permBits, 4) == 0 {
      leaf := Or(leaf, Or(UXN, PXN));
    } else if And(permBits, 8) != 0 {
      leaf := Or(leaf, PXN);
    } else {
      leaf := Or(leaf, UXN);
    }
  }

  // ---------------------------------------------------------------------------
  // What the hardware makes of a call
  // ---------------------------------------------------------------------------

  /** TTBR0 covers 39 bits and TTBR1 walks are disabled. */
  function Translate(m: Memory, root: nat, va: U64, acc: Access, el: Regime): Translated {
    if va < 0x80_0000_0000 then WalkAt(m, OUTPUT_FRAMES, root, 2, va, acc, el, UNLIMITED) else TranslationFault
  }

  lemma TranslateFinds(m: Memory, root: nat, own: Owners, va: U64, acc: Access, el: Regime)
    requires |m| <= OUTPUT_FRAMES && Owned(Words(), m, root, 3, own)
    ensures Translate(m, root, va, acc, el)
      == if va < 0x80_0000_0000 then WordEnds(OUTPUT_FRAMES, Find(Words(), m, root, PathOf(va / 4096)), va, acc, el)
         else TranslationFault
  {
    WalkFinds(true, m, OUTPUT_FRAMES, root, 3, own, root, 2, va, acc, el);
    BelowIsPath(va);
  }

  /** What `perm_bits` allow; READ changes nothing. */
  predicate Grants(permBits: nat, acc: Access, el: Regime) {
    var w, x, u := permBits / 2 % 2 == 1, permBits / 4 % 2 == 1, permBits / 8 % 2 == 1;
    match el
    case El0 => u && (match acc case Load => true case Store => w case Fetch => x)
    case El1(pan) => (match acc
                      case Load => !(pan && u)
                      case Store => w && !(pan && u)
                      case Fetch => x && !u)
  }

  lemma LeafFields(permBits: U64)
    ensures LeafBits(LeafLow(permBits), LeafHigh(permBits), true, 0, permBits / 8 % 2 == 1, permBits / 2 % 2 == 0,
                     permBits / 4 % 2 == 0 || permBits / 8 % 2 == 1, permBits / 4 % 2 == 0 || permBits / 8 % 2 == 0)
  {
  }

  lemma LeafMeaning(f: nat, permBits: U64, va: U64, acc: Access, el: Regime)
    requires f < OUTPUT_FRAMES
    ensures WordEnds(OUTPUT_FRAMES, Stop(0, Leaf(permBits)(f)), va, acc, el)
      == if Grants(permBits, acc, el) then Physical(f * 4096 + va % 4096, WriteBack(3)) else PermissionFault
  {
    hide Descriptor, LeafLow, LeafHigh, LeafBits, WordEnds;
    LeafFields(permBits);
    var w, x, u := permBits / 2 % 2 == 1, permBits / 4 % 2 == 1, permBits / 8 % 2 == 1;
    DescriptorMeaning(f, LeafLow(permBits), LeafHigh(permBits), 0, u, !w, !x || u, !x || !u, OUTPUT_FRAMES, 0, va, acc, el);
    assert Grants(permBits, acc, el) <==> Permits(u, w, !x || !u, !x || u, acc, el);
  }

  /** What `served` pages mapped from `vaddr` make of an address: the page it is the last
      alias of, for exactly the accesses `perm_bits` allow; or what it was before. */
  function Remapped(vaddr: U64, paddr: nat, served: nat, permBits: U64, va: U64, acc: Access, el: Regime, before: Translated): Translated {
    match LastAlias(vaddr / 4096, served, va / 4096)
    case None => before
    case Some(k) => if Grants(permBits, acc, el) then Physical(paddr + k * 4096 + va % 4096, WriteBack(3)) else PermissionFault
  }

  /** After `map_range` mapped `served` pages, the hardware translates every address whose
      indices a page of the range shares to that page, the last one where several do,
      exactly for the accesses `perm_bits` allow, and every other address as it did
      before; addresses outside the window fault as before. */
  lemma MappedPagesTranslate(m: Memory, m': Memory, root: nat, own: Owners, own': Owners, vaddr: U64, paddr: U64,
                             served: nat, permBits: U64, va: U64, acc: Access, el: Regime)
    requires |m| == |m'| <= OUTPUT_FRAMES && vaddr % 4096 == 0 && paddr % 4096 == 0
    requires paddr + served * 4096 <= 0x100_0000_0000
    requires Owned(Words(), m, root, 3, own) && Owned(Words(), m', root, 3, own')
    requires Overlaid(Words(), m, root, 3,
                      Requests(vaddr / 4096, paddr / 4096, served, Leaf(permBits)), m')
    ensures Translate(m', root, va, acc, el) ==
      if va < 0x80_0000_0000 then Remapped(vaddr, paddr, served, permBits, va, acc, el, Translate(m, root, va, acc, el))
      else TranslationFault
  {
    hide Words, Owned, Find, Requests, Descriptor, WordEnds, PathOf, Latest, Translate, Grants, Leaf, LastAlias;
    TranslateFinds(m, root, own, va, acc, el);
    TranslateFinds(m', root, own', va, acc, el);
    if va < 0x80_0000_0000 {
      var q := va / 4096;
      LatestOfRun(vaddr / 4096, paddr / 4096, served, Leaf(permBits), q);
      assert |PathOf(q)| == 3;
      match LastAlias(vaddr / 4096, served, q)
      case None =>
      case Some(k) =>
        LeafMeaning(paddr / 4096 + k, permBits, va, acc, el);
        assert (paddr / 4096 + k) * 4096 == paddr + k * 4096;
    }
  }

  /** What one accepted call does to every address: with `n` pages served (all of
      them exactly when the call succeeds), the addresses of those pages and their
      aliases translate to their targets for the accesses granted, all others as before. */
  lemma CallTranslates(m: Memory, root: nat, own: Owners, c: Call, va: U64, acc: Access, el: Regime)
    returns (n: nat)
    requires |m| <= OUTPUT_FRAMES && Owned(Words(), m, root, 3, own)
    requires Fresh(m, own, Pool(c.poolBase / 4096, c.poolLen), 0)
    requires !BadRange(c.vaddr, c.paddr, c.len) && Fits(c)
    requires c.paddr + c.len <= 0x100_0000_0000
    ensures n <= c.len / 4096
    ensures var s := MapPages(Words(), m, 0, Pool(c.poolBase / 4096, c.poolLen), root, CallRequests(Leaf, c));
      && (s.status.Table? <==> n == c.len / 4096)
      && Translate(s.mem, root, va, acc, el) ==
         if va < 0x80_0000_0000 then Remapped(c.vaddr, c.paddr, n, c.permBits, va, acc, el, Translate(m, root, va, acc, el))
         else TranslationFault
  {
    hide Words, Owned, Fresh, MapPages, Served, Translate, Grants, Leaf, LastAlias;
    var pool, rs := Pool(c.poolBase / 4096, c.poolLen), CallRequests(Leaf, c);
    n := Served(Words(), m, 0, pool, root, rs);
    WordsAreLawful(|m|);
    LeavesAreValid();
    var own' := CallKeeps(Words(), Leaf, m, root, pool, own, c);
    ServedAll(Words(), m, 0, pool, root, rs);
    RequestsPrefix(c.vaddr / 4096, c.paddr / 4096, c.len / 4096, Leaf(c.permBits), n);
    MappedPagesTranslate(m, MapPages(Words(), m, 0, pool, root, rs).mem, root, own, own', c.vaddr, c.paddr, n,
                         c.permBits, va, acc, el);
  }

  /** Where an address lies in a range that does not leave the window. */
  lemma AliasInRange(vaddr: U64, served: nat, va: U64)
    requires va < 0x80_0000_0000 && vaddr % 4096 == 0 && vaddr + served * 4096 <= 0x80_0000_0000
    ensures LastAlias(vaddr / 4096, served, va / 4096)
      == if vaddr <= va < vaddr + served * 4096 then Some((va - vaddr) / 4096) else None
  {
    var q, page := va / 4096, vaddr / 4096;
    assert vaddr <= va < vaddr + served * 4096 <==> page <= q < page + served;
    if page <= q < page + served {
      OnlyItself(page, served, q);
    } else {
      forall k: nat | k < served ensures !Alias(page, k, q) {
        NoOtherAlias(page, k, q);
      }
    }
  }

  /** For a range inside the window there are no other aliases: its addresses translate to
      their targets, and all others as before. */
  lemma RangeTranslates(m: Memory, root: nat, own: Owners, c: Call, va: U64, acc: Access, el: Regime)
    returns (n: nat)
    requires |m| <= OUTPUT_FRAMES && Owned(Words(), m, root, 3, own)
    requires Fresh(m, own, Pool(c.poolBase / 4096, c.poolLen), 0)
    requires !BadRange(c.vaddr, c.paddr, c.len)
    requires c.vaddr + c.len <= 0x80_0000_0000 && c.paddr + c.len <= 0x100_0000_0000
    ensures n <= c.len / 4096
    ensures var s := MapPages(Words(), m, 0, Pool(c.poolBase / 4096, c.poolLen), root, CallRequests(Leaf, c));
      && (s.status.Table? <==> n == c.len / 4096)
      && Translate(s.mem, root, va, acc, el) ==
         if c.vaddr <= va < c.vaddr + n * 4096
         then (if Grants(c.permBits, acc, el) then Physical(c.paddr + (va - c.vaddr), WriteBack(3)) else PermissionFault)
         else Translate(m, root, va, acc, el)
  {
    hide Words, Owned, Fresh, MapPages, Translate, Grants, Leaf, LastAlias, WordEnds, Find, PathOf, CallRequests;
    n := CallTranslates(m, root, own, c, va, acc, el);
    TranslateFinds(m, root, own, va, acc, el);
    if va < 0x80_0000_0000 {
      AliasInRange(c.vaddr, n, va);
    }
  }

  // ---------------------------------------------------------------------------
  // map_ram_identity, and runs of calls on the table it leaves
  // ---------------------------------------------------------------------------

  function BlockLow(user: bool): nat {
    if user then 0x741 else 0x701
  }

  /** A root of `gibs` identity blocks of 1 GiB and nothing else. */
  ghost predicate IdentityRoot(frame: Frame, gibs: nat, user: bool) {
    forall i: Index :: frame[i] == if i < gibs then Descriptor((i as int) * 0x4_0000, BlockLow(user), 0) else 0
  }

  lemma BlockBits()
    ensures Or(Or(Or(VALID, ATTR_NORMAL), SH_INNER), AF) == 0x701 && Or(0x701, AP_USER) == 0x741
  {
    assert Or(VALID, ATTR_NORMAL) == 1;
    Shareable(1);
    AccessedBit(0x301);
    assert Pow2(6) == 64;
    ShrBy(0x701, 6, 64);
    OrBit(0x701, 6);
  }

  lemma BlockWord(gib: nat, user: bool)
    requires gib < 512
    ensures var leaf := Or(Or(Or(VALID, ATTR_NORMAL), SH_INNER), AF);
      Or(And(Shl(gib, 30), ADDR_MASK), if user then Or(leaf, AP_USER) else leaf)
        == Descriptor(gib * 0x4_0000, BlockLow(user), 0)
  {
    hide And, Or, Shl;
    BlockBits();
    Powers();
    ShlBy(gib, 30, 0x4000_0000);
    assert gib * 0x4000_0000 / 4096 == gib * 0x4_0000;
    AddressWord(gib * 0x4000_0000, BlockLow(user), 0);
  }

  method MapRamIdentity(mem: array<Frame>, rootFrame: U64, bytesGib: nat, userAccessible: bool)
    requires rootFrame / 4096 < mem.Length
    modifies mem
    ensures IdentityRoot(mem[rootFrame / 4096], bytesGib, userAccessible)
    ensures forall f | 0 <= f < mem.Length && f != rootFrame / 4096 :: mem[f] == old(mem[f])
  {
    hide And, Or, Shl, Descriptor;
    var root := rootFrame / 4096;
    for i := 0 to 512
      invariant forall j: Index | j < i :: mem[root][j] == 0
      invariant forall f | 0 <= f < mem.Length && f != root :: mem[f] == old(mem[f])
    {
      var frame := mem[root];
      mem[root] := frame[i := 0];
    }
    var leaf := Or(Or(Or(VALID, ATTR_NORMAL), SH_INNER), AF);
    BlockBits();
    if userAccessible {
      leaf := Or(leaf, AP_USER);
    }
    for gib := 0 to (if bytesGib < 512 then bytesGib else 512)
      invariant forall j: Index ::
        mem[root][j] == if j < gib then Descriptor((j as int) * 0x4_0000, BlockLow(userAccessible), 0) else 0
      invariant forall f | 0 <= f < mem.Length && f != root :: mem[f] == old(mem[f])
    {
      BlockWord(gib, userAccessible);
      var frame := mem[root];
      mem[root] := frame[gib := Or(And(Shl(gib, 30), ADDR_MASK), leaf)];
    }
  }

  lemma IdentityOwned(m: Memory, root: nat, gibs: nat, user: bool)
    requires root < |m| && IdentityRoot(m[root], gibs, user)
    ensures Owned(Words(), m, root, 3, Bare(root))
  {
    hide Descriptor;
    forall i: Index ensures !Points(Words(), Get(m, root, i)) {
      LowFields((i as int) * 0x4_0000, BlockLow(user), 0);
    }
  }

  /** Where a walk through identity entry `gib` ends. */
  function Block(gib: nat, user: bool): (e: End)
    ensures Covered(e)
  {
    Stop(2, Descriptor(gib * 0x4_0000, BlockLow(user), 0))
  }

  lemma IdentityFind(m: Memory, root: nat, gibs: nat, user: bool, p: Path)
    requires root < |m| && IdentityRoot(m[root], gibs, user) && |p| == 3
    ensures Find(Words(), m, root, p) == if p[0] < gibs then Block(p[0], user) else Fault
  {
    hide Descriptor;
    LowFields((p[0] as int) * 0x4_0000, BlockLow(user), 0);
  }

  /** The blocks clear UXN and PXN: EL0 may fetch from them whether or not they are
      user accessible, EL1 only if they are not. */
  predicate BlockPermits(user: bool, acc: Access, el: Regime) {
    match el
    case El0 => acc.Fetch? || user
    case El1(pan) => if acc.Fetch? then !user else !(pan && user)
  }

  lemma BlockMeaning(gib: nat, va: U64, user: bool, acc: Access, el: Regime)
    requires gib < 512
    ensures WordEnds(OUTPUT_FRAMES, Block(gib, user), va, acc, el) ==
      if BlockPermits(user, acc, el) then Physical(gib * 0x4000_0000 + va % 0x4000_0000, WriteBack(3)) else PermissionFault
  {
    hide Descriptor, WordEnds, LeafBits, BlockLow;
    BlockFields(user);
    BlockAddress(gib, va);
    DescriptorMeaning(gib * 0x4_0000, BlockLow(user), 0, 0, user, false, false, false, OUTPUT_FRAMES, 2, va, acc, el);
    assert BlockPermits(user, acc, el) <==> Permits(user, true, false, false, acc, el);
  }

  lemma BlockFields(user: bool)
    ensures LeafBits(BlockLow(user), 0, false, 0, user, false, false, false)
  {
  }

  lemma BlockAddress(gib: nat, va: U64)
    requires gib < 512
    ensures var f := gib * 0x4_0000;
      && f % FRAMES / 0x4_0000 * 0x4_0000 == f < OUTPUT_FRAMES
      && (f + va / 4096 % 0x4_0000) * 4096 + va % 4096 == gib * 0x4000_0000 + va % 0x4000_0000
  {
  }

  /** After `map_ram_identity` of `gibs` GiB and any calls of `map_range`, every
      address below `gibs` GiB still translates to itself. */
  lemma {:induction false} IdentityIsPermanent(m: Memory, root: nat, gibs: nat, user: bool, calls: seq<Call>,
                                               va: U64, acc: Access, el: Regime)
    requires root < |m| <= OUTPUT_FRAMES && IdentityRoot(m[root], gibs, user)
    requires SeparatePools(m, Bare(root), Batches(Leaf, calls)) && AllFit(calls)
    requires va < 0x80_0000_0000 && va < gibs * 0x4000_0000
    ensures Translate(Run(Words(), m, root, Batches(Leaf, calls)), root, va, acc, el)
      == if BlockPermits(user, acc, el) then Physical(va, WriteBack(3)) else PermissionFault
  {
    hide Words, Owned, WordEnds, Run, SeparatePools, PathOf, Descriptor, IdentityRoot, Translate, Find, Bare,
      Block, Batches, AllFit, Lawful, Leaves, Leaf, FromPools, SuperpagesKept, BlockPermits;
    IdentityOwned(m, root, gibs, user);
    IdentityFind(m, root, gibs, user, PathOf(va / 4096));
    FirstIndex(va);
    assert |PathOf(va / 4096)| == 3;
    WordsAreLawful(|m|);
    LeavesAreValid();
    var own' := GigapageStays(Words(), Leaf, m, root, calls, PathOf(va / 4096));
    TranslateFinds(Run(Words(), m, root, Batches(Leaf, calls)), root, own', va, acc, el);
    BlockMeaning(va / 0x4000_0000, va, user, acc, el);
  }

  /** And a call that starts there is refused, leaving memory as it was. */
  lemma {:induction false} IdentityRefuses(m: Memory, root: nat, gibs: nat, user: bool, calls: seq<Call>, c: Call)
    requires root < |m| <= FRAMES && IdentityRoot(m[root], gibs, user)
    requires SeparatePools(m, Bare(root), Batches(Leaf, calls + [c])) && AllFit(calls) && Fits(c)
    requires c.vaddr < 0x80_0000_0000 && c.vaddr < gibs * 0x4000_0000 && !BadRange(c.vaddr, c.paddr, c.len)
    ensures var m' := Run(Words(), m, root, Batches(Leaf, calls));
      MapPages(Words(), m', 0, BatchOf(Leaf, c).pool, root, BatchOf(Leaf, c).requests) == Step(m', 0, Blocked)
  {
    hide Words, Owned, Run, SeparatePools, PathOf, Descriptor, IdentityRoot, MapPages, Find, Bare, Batches, BatchOf,
      Block, Fits, AllFit, BadRange, Lawful, Leaves, Leaf;
    IdentityOwned(m, root, gibs, user);
    IdentityFind(m, root, gibs, user, PathOf(c.vaddr / 4096));
    FirstIndex(c.vaddr);
    assert |PathOf(c.vaddr / 4096)| == 3;
    WordsAreLawful(|m|);
    LeavesAreValid();
    GigapageRefuses(Words(), Leaf, m, root, calls, c);
  }
}
