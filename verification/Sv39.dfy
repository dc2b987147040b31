/** The RISC-V Sv39 mapper of hal/hal-riscv64/src/cpu.rs, and the translation
    process of the RISC-V Privileged Architecture (sections 4.3.2 and 4.4) that
    reads the tables it builds. */
module Sv39 {
  import opened Bits
  import opened Options
  import opened PageTree
  import opened Va39

  const V: U64 := 1
  const R: U64 := 2
  const W: U64 := 4
  const X: U64 := 8
  const U: U64 := 16
  const A: U64 := 64
  const D: U64 := 128

  const FRAMES: nat := 0x1000_0000_0000

  /** The format of a page-table entry: bit 0 is V, a non-zero R, W or X makes a
      leaf, bits 10..53 are the physical page number. */
  function Words(): Codec {
    Codec(e => e % 2 == 1, e => e / 2 % 8 != 0, e => e / 1024 % FRAMES, t => EntryWord(t, V))
  }

  lemma WordsAreLawful(frames: nat)
    requires frames <= FRAMES
    ensures Lawful(Words(), frames)
  {
    forall t: nat | t < frames ensures Points(Words(), Words().table(t)) && Words().next(Words().table(t)) == t {
      PointerFields(t);
    }
  }

  lemma PointerFields(t: nat)
    ensures (t * 1024 + 1) % 2 == 1 && (t * 1024 + 1) / 1024 == t
    ensures (t * 1024 + 1) / 2 % 8 == 0
  {
    assert (t * 1024 + 1) / 2 == 8 * (t * 64);
  }

  /** The word for page number `frame` with the given low bits. */
  function EntryWord(frame: nat, flags: nat): U64 {
    if frame < 0x10_0000_0000_0000 && flags < 1024 then frame * 1024 + flags else 0
  }

  // ---------------------------------------------------------------------------
  // The bit operations of the mapper
  // ---------------------------------------------------------------------------

  lemma EntryTests(e: U64)
    ensures And(e, V) == 0 <==> !Words().valid(e)
    ensures And(e, Or(Or(R, W), X)) != 0 <==> Words().block(e)
  {
    assert Pow2(0) == 1 && Pow2(1) == 2 && Pow2(3) == 8 && Pow2(4) == 16 && Or(Or(R, W), X) == 14;
    AndField(e, 0, 1);
    AndField(e, 1, 4);
    HalfMod(e, 3);
  }

  lemma NextTable(e: U64)
    ensures var t := Shl(And(Shr(e, 10), 0xFFF_FFFF_FFFF), 12);
      t % 4096 == 0 && t / 4096 == Words().next(e)
  {
    Powers();
    ShrBy(e, 10, 1024);
    AndBy(e / 1024, 44, FRAMES);
    ShlBy(e / 1024 % FRAMES, 12, 4096);
  }

  lemma AddressWord(a: U64, flags: U64)
    requires a % 4096 == 0 && flags < 1024
    ensures Or(Shl(Shr(a, 12), 10), flags) == EntryWord(a / 4096, flags)
  {
    Powers();
    ShrBy(a, 12, 4096);
    ShlBy(a / 4096, 10, 1024);
    JoinLow(a / 4096, flags);
  }

  lemma JoinLow(f: nat, flags: nat)
    requires flags < 1024
    ensures Or(f * 1024, flags) == f * 1024 + flags
  {
    Powers();
    assert f * 1024 % 1024 == 0;
    OrDisjoint(f * 1024, flags, 10);
  }

  /** The low bits of a leaf for `perm_bits` (READ 1, WRITE 2, EXECUTE 4, USER 8):
      V, A and D always, and the four permissions asked for. */
  function LeafFlags(permBits: nat): (r: nat)
    ensures r < 1024
  {
    193 + permBits % 2 * 2 + permBits / 2 % 2 * 4 + permBits / 4 % 2 * 8 + permBits / 8 % 2 * 16
  }

  lemma LeafBits(r: bool, w: bool, x: bool, u: bool)
    ensures Or(Or(Or(Or(Or(Or(V, A), D), if r then R else 0), if w then W else 0), if x then X else 0), if u then U else 0)
      == 193 + (if r then 2 else 0) + (if w then 4 else 0) + (if x then 8 else 0) + (if u then 16 else 0)
  {
    hide And, Or, Pow2, Shr;
    BaseBits();
    AddBit(193, 1, R, r);
    var a := if r then 195 else 193;
    AddBit(a, 2, W, w);
    UpperBits(if w then a + 4 else a, x, u);
  }

  lemma UpperBits(a: nat, x: bool, u: bool)
    requires 192 <= a < 200
    ensures Or(Or(a, if x then X else 0), if u then U else 0) == a + (if x then 8 else 0) + (if u then 16 else 0)
  {
    hide And, Or, Pow2, Shr;
    AddBit(a, 3, X, x);
    AddBit(if x then a + 8 else a, 4, U, u);
  }

  lemma BaseBits()
    ensures Or(Or(V, A), D) == 193
  {
    hide Or, Shr;
    assert Pow2(6) == 64;
    assert Pow2(7) == 2 * Pow2(6);
    ShrBy(V, 6, A);
    OrBit(V, 6);
    ShrBy(65, 7, D);
    OrBit(65, 7);
  }

  lemma AddBit(a: nat, k: nat, p: nat, set_: bool)
    requires 1 <= k <= 4 && (k == 1 ==> p == 2) && (k == 2 ==> p == 4) && (k == 3 ==> p == 8) && (k == 4 ==> p == 16)
    requires a / p % 2 == 0
    ensures Or(a, if set_ then p else 0) == a + (if set_ then p else 0)
  {
    assert Pow2(1) == 2 && Pow2(2) == 4 && Pow2(3) == 8 && Pow2(4) == 16;
    ShrBy(a, k, p);
    OrBit(a, k);
  }

  // ---------------------------------------------------------------------------
  // map_range
  // ---------------------------------------------------------------------------

  /** The leaf words of a call, by frame. */
  function Leaf(permBits: U64): nat -> U64 {
    frame => EntryWord(frame, LeafFlags(permBits))
  }

  lemma LeavesAreValid()
    ensures Leaves(Words(), Leaf)
  {
    forall permBits: U64, frame: nat | frame < 0x10_0000_0000_0000
      ensures Words().valid(Leaf(permBits)(frame))
    {
      FlagFields(permBits);
      OddWord(frame, LeafFlags(permBits));
    }
  }

  lemma OddWord(frame: nat, leaf: nat)
    requires leaf % 2 == 1
    ensures (frame * 1024 + leaf) % 2 == 1
  {
  }

  /** The frame address `slot` of table `table` leads to, linking the next pool
      frame if the slot is empty. Both upper levels of `map_range` run this. */
  method NextTableAt(mem: array<Frame>, table: U64, slot: Index, poolBase: U64, poolLen: U64, used: nat,
                     ghost root: nat, ghost own: Owners, ghost path: Path)
    returns (ok: bool, next: U64, used': nat, ghost own': Owners)
    requires mem.Length <= FRAMES && table % 4096 == 0 && poolBase % 4096 == 0
    requires Owned(Words(), mem[..], root, 3, own) && Fresh(mem[..], own, Pool(poolBase / 4096, poolLen), used)
    requires table / 4096 in own && |own[table / 4096]| + 1 < 3 && table / 4096 < mem.Length
    requires path != [] && path[0] == slot
    modifies mem
    ensures ok ==> next % 4096 == 0
    ensures ok ==> Entered(Words(), old(mem[..]), used, Pool(poolBase / 4096, poolLen), root, 3, own, table / 4096, path,
                           mem[..], used', own', next / 4096)
    ensures !ok ==> mem[..] == old(mem[..]) && own' == own
    ensures !ok ==> var d := Descend(Words(), mem[..], used, Pool(poolBase / 4096, poolLen), table / 4096, path);
      !d.status.Table? && d.mem == mem[..]
  {
    hide Words, Owned, Fresh, Descend, And, Or, Shl, Shr, Entered;
    ghost var m, pool, f := mem[..], Pool(poolBase / 4096, poolLen), table / 4096;
    ok, next, used', own' := false, 0, used, own;
    var frame := mem[table / 4096];
    var e := frame[slot];
    assert e == Get(m, f, path[0]);
    EntryTests(e);
    if And(e, V) == 0 {
      if used >= poolLen {
        StopsHere(Words(), m, used, pool, f, path);
        return;
      }
      PoolAddress(m, own, poolBase, poolLen, used);
      next := poolBase + used * 4096;
      var word := Or(Shl(Shr(next, 12), 10), V);
      mem[table / 4096] := frame[slot := word];
      ok, used' := true, used + 1;
      WordsAreLawful(|m|);
      own' := LinkedAt(Words(), m, used, pool, root, own, f, path, word);
      assert mem[..] == m[f := m[f][path[0] := word]];
    } else if And(e, Or(Or(R, W), X)) != 0 {
      StopsHere(Words(), m, used, pool, f, path);
    } else {
      NextTable(e);
      StepOver(Words(), m, used, pool, root, 3, own, f, path);
      ok, next := true, Shl(And(Shr(e, 10), 0xFFF_FFFF_FFFF), 12);
    }
  }

  /** The address of the next pool frame, and the word that points at it. */
  lemma PoolAddress(m: Memory, own: Owners, poolBase: U64, poolLen: U64, used: nat)
    requires |m| <= FRAMES && poolBase % 4096 == 0 && used < poolLen
    requires Fresh(m, own, Pool(poolBase / 4096, poolLen), used)
    ensures var t := poolBase + used * 4096;
      && t < TWO64 && t % 4096 == 0 && t / 4096 == poolBase / 4096 + used
      && Or(Shl(Shr(t, 12), 10), V) == Words().table(t / 4096)
  {
    assert Free(m, own, poolBase / 4096 + used);
    AddressWord(poolBase + used * 4096, V);
  }

  /** One round of the loop of `map_range`: descend to the last table, write the leaf. */
  method MapOnePage(mem: array<Frame>, rootFrame: U64, va: U64, pa: U64, leaf: U64, poolBase: U64, poolLen: U64,
                    used: nat, ghost own: Owners)
    returns (ok: bool, used': nat, ghost own': Owners)
    requires mem.Length <= FRAMES && rootFrame % 4096 == 0 && poolBase % 4096 == 0
    requires pa % 4096 == 0 && leaf < 1024
    requires Owned(Words(), mem[..], rootFrame / 4096, 3, own)
    requires Fresh(mem[..], own, Pool(poolBase / 4096, poolLen), used)
    modifies mem
    ensures var s := MapPage(Words(), old(mem[..]), used, Pool(poolBase / 4096, poolLen), rootFrame / 4096,
                             Request(PathOf(va / 4096), EntryWord(pa / 4096, leaf)));
      && mem[..] == s.mem && ok == s.status.Table?
      && (ok ==> used' == s.used)
    ensures ok ==> Owned(Words(), mem[..], rootFrame / 4096, 3, own')
    ensures ok ==> Fresh(mem[..], own', Pool(poolBase / 4096, poolLen), used')
  {
    hide Words, Owned, Fresh, Descend, And, Or, Shl, Shr, EntryWord;
    PageIndices(va);
    ghost var m, pool, root, path := mem[..], Pool(poolBase / 4096, poolLen), rootFrame / 4096, PathOf(va / 4096);
    var vpn2, vpn1, vpn0 := And(Shr(va, 30), 0x1FF), And(Shr(va, 21), 0x1FF), And(Shr(va, 12), 0x1FF);
    OwnedRoot(Words(), m, root, own);
    var l1, l0;
    ok, l1, used', own' := NextTableAt(mem, rootFrame, vpn2, poolBase, poolLen, used, root, own, [vpn2, vpn1]);
    assert path[..2] == [vpn2, vpn1] && [vpn2, vpn1][1..] == [vpn1] && [vpn1][1..] == [];
    if !ok {
      return;
    }
    ghost var used1 := used';
    ok, l0, used', own' := NextTableAt(mem, l1, vpn1, poolBase, poolLen, used', root, own', [vpn1]);
    if !ok {
      return;
    }
    ghost var m2 := mem[..];
    DescendEnds(Words(), m2, used', pool, l0 / 4096);
    var frame := mem[l0 / 4096];
    AddressWord(pa, leaf);
    mem[l0 / 4096] := frame[vpn0 := Or(Shl(Shr(pa, 12), 10), leaf)];
    assert mem[..] == Put(m2, l0 / 4096, vpn0, EntryWord(pa / 4096, leaf));
    LeafOwned(Words(), m2, root, 3, own', l0 / 4096, vpn0, EntryWord(pa / 4096, leaf));
    LeafFresh(m2, own', pool, used', l0 / 4096, vpn0, EntryWord(pa / 4096, leaf));
  }

  /** The loop of `map_range`: `leaf` on every page of an accepted range, in order. */
  method MapLoop(mem: array<Frame>, rootFrame: U64, vaddr: U64, paddr: U64, len: U64, leaf: U64,
                 poolBase: U64, poolLen: U64, ghost permBits: U64, ghost own: Owners)
    returns (r: nat, ghost own': Owners)
    requires mem.Length <= FRAMES && rootFrame % 4096 == 0 && poolBase % 4096 == 0
    requires vaddr + len <= TWO64 && paddr + len <= TWO64 && leaf == LeafFlags(permBits)
    requires vaddr % 4096 == 0 && paddr % 4096 == 0 && len % 4096 == 0
    requires Owned(Words(), mem[..], rootFrame / 4096, 3, own)
    requires Fresh(mem[..], own, Pool(poolBase / 4096, poolLen), 0)
    modifies mem
    ensures var rs := CallRequests(Leaf, Call(vaddr, paddr, len, permBits, poolBase, poolLen));
      var s := MapPages(Words(), old(mem[..]), 0, Pool(poolBase / 4096, poolLen), rootFrame / 4096, rs);
      && mem[..] == s.mem && r == (if s.status.Table? then s.used else 0xFFFF_FFFF)
      && Mapped(Words(), old(mem[..]), 0, Pool(poolBase / 4096, poolLen), rootFrame / 4096, 3, own, rs, s, own')
  {
    hide Words, Owned, Fresh, MapPages, MapPage, Mapped, NoneCovered, Needed, CallRequests, And, Or, PathOf, EntryWord, LeafFlags,
      Lawful, Leaves;
    ghost var m, pool, root := mem[..], Pool(poolBase / 4096, poolLen), rootFrame / 4096;
    ghost var c := Call(vaddr, paddr, len, permBits, poolBase, poolLen);
    ghost var rs := CallRequests(Leaf, c);
    var used, pages := 0, len / 4096;
    CallLength(Words(), Leaf, m, root, pool, c);
    WordsAreLawful(mem.Length);
    LeavesAreValid();
    own' := own;
    for p := 0 to pages
      invariant Owned(Words(), mem[..], root, 3, own') && Fresh(mem[..], own', pool, used)
      invariant var s := MapPages(Words(), m, 0, pool, root, rs[..p]);
        s.status.Table? && mem[..] == s.mem && used == s.used
    {
      NextPage(Words(), m, 0, pool, root, rs, p);
      CallPage(Leaf, c, p);
      assert Leaf(permBits)((paddr + p * 4096) / 4096) == EntryWord((paddr + p * 4096) / 4096, leaf);
      var ok;
      ok, used, own' := MapOnePage(mem, rootFrame, vaddr + p * 4096, paddr + p * 4096, leaf, poolBase, poolLen, used, own');
      if !ok {
        FailureIsFinal(Words(), m, 0, pool, root, rs, p + 1);
        own' := CallKeeps(Words(), Leaf, m, root, pool, own, c);
        return U32_MAX, own';
      }
    }
    own' := CallKeeps(Words(), Leaf, m, root, pool, own, c);
    CountIsSmall(Words(), m, root, pool, own, rs, own');
    r := used % 0x1_0000_0000;
  }

  /** `map_range`: maps `len` bytes page by page. `own` is the tree it starts from,
      `own'` the one it leaves. */
  method MapRange(mem: array<Frame>, rootFrame: U64, vaddr: U64, paddr: U64, len: U64, permBits: U64,
                  poolBase: U64, poolLen: U64, ghost own: Owners)
    returns (r: nat, ghost own': Owners)
    requires mem.Length <= FRAMES && rootFrame % 4096 == 0 && poolBase % 4096 == 0
    requires vaddr + len <= TWO64 && paddr + len <= TWO64
    requires rootFrame != 0 ==> Owned(Words(), mem[..], rootFrame / 4096, 3, own)
    requires Fresh(mem[..], own, Pool(poolBase / 4096, poolLen), 0)
    modifies mem
    ensures rootFrame == 0 || len == 0 || vaddr % 4096 != 0 || paddr % 4096 != 0 || len % 4096 != 0 ==>
      r == 0xFFFF_FFFF && mem[..] == old(mem[..]) && own' == own
    ensures rootFrame != 0 && len != 0 && vaddr % 4096 == 0 && paddr % 4096 == 0 && len % 4096 == 0 ==>
      var rs := CallRequests(Leaf, Call(vaddr, paddr, len, permBits, poolBase, poolLen));
      var pool, root := Pool(poolBase / 4096, poolLen), rootFrame / 4096;
      var s := MapPages(Words(), old(mem[..]), 0, pool, root, rs);
      && mem[..] == s.mem
      && (r != 0xFFFF_FFFF <==> NoneCovered(Words(), old(mem[..]), root, rs) && |Needed(rs) - own.Values| <= poolLen)
      && (r != 0xFFFF_FFFF ==>
            && r == |Needed(rs) - own.Values|
            && (forall t :: t in own' <==> t in own || pool.base <= t < pool.base + r))
      && Mapped(Words(), old(mem[..]), 0, pool, root, 3, own, rs, s, own')
  {
    hide Words, Owned, Fresh, MapPages, Mapped, NoneCovered, Needed, CallRequests, And, Or, LeafFlags;
    AlignmentTest(vaddr, paddr, len);
    if rootFrame == 0 || len == 0 || And(Or(Or(vaddr, paddr), len), 0xFFF) != 0 {
      return U32_MAX, own;
    }
    var leaf := Or(Or(Or(Or(Or(Or(V, A), D),
                if And(permBits, 1) != 0 then R else 0),
                if And(permBits, 2) != 0 then W else 0),
                if And(permBits, 4) != 0 then X else 0),
                if And(permBits, 8) != 0 then U else 0);
    LeafComputed(permBits);
    ghost var m, pool, c := mem[..], Pool(poolBase / 4096, poolLen), Call(vaddr, paddr, len, permBits, poolBase, poolLen);
    r, own' := MapLoop(mem, rootFrame, vaddr, paddr, len, leaf, poolBase, poolLen, permBits, own);
    CallLength(Words(), Leaf, m, rootFrame / 4096, pool, c);
    CountsTables(Words(), m, rootFrame / 4096, pool, own, CallRequests(Leaf, c), own');
  }

  lemma LeafComputed(permBits: U64)
    ensures Or(Or(Or(Or(Or(Or(V, A), D),
              if And(permBits, 1) != 0 then R else 0),
              if And(permBits, 2) != 0 then W else 0),
              if And(permBits, 4) != 0 then X else 0),
              if And(permBits, 8) != 0 then U else 0) == LeafFlags(permBits)
  {
    PermissionTests(permBits);
    LeafBits(permBits % 2 == 1, permBits / 2 % 2 == 1, permBits / 4 % 2 == 1, permBits / 8 % 2 == 1);
  }

  // ---------------------------------------------------------------------------
  // The translation process of the hardware
  // ---------------------------------------------------------------------------

  /** U-mode, or S-mode with or without sstatus.SUM. */
  datatype Mode = UserMode | SupervisorMode(sum: bool)

  datatype Translated = PageFault | AccessFault | Physical(addr: nat)

  predicate Has(e: nat, bit: nat)
    requires bit > 0
  {
    e / bit % 2 == 1
  }

  /** Bits 63..39 of a virtual address repeat bit 38. */
  predicate Canonical(va: U64) {
    va < 0x40_0000_0000 || va >= TWO64 - 0x40_0000_0000
  }

  function Translate(m: Memory, root: nat, va: U64, acc: Access, mode: Mode): Translated {
    if Canonical(va) then WalkAt(m, root, 2, va, acc, mode) else PageFault
  }

  /** Bits of an entry: V 1, R 2, W 4, X 8, U 16, A 64, D 128. Steps 2 to 4: read the entry of level `i` in table `a`. */
  function WalkAt(m: Memory, a: nat, i: nat, va: U64, acc: Access, mode: Mode): Translated
    decreases i
  {
    if a >= |m| then AccessFault
    else
      var pte := m[a][Vpn(va, i)];
      if !Has(pte, 1) then PageFault
      else if IllFormed(pte) then PageFault
      else if Has(pte, 2) || Has(pte, 8) then LeafAt(pte, i, va, acc, mode)
      else if i == 0 then PageFault
      else WalkAt(m, pte / 1024 % 0x1000_0000_0000, i - 1, va, acc, mode)
  }

  /** Reserved encodings: writable but not readable, or one of bits 54..63 set. */
  predicate IllFormed(pte: U64) {
    (!Has(pte, 2) && Has(pte, 4)) || pte >= 0x40_0000_0000_0000
  }

  /** Steps 5 to 8: permissions, alignment of superpages, A and D, and the address. */
  function LeafAt(pte: U64, i: nat, va: U64, acc: Access, mode: Mode): Translated {
    var span := if i == 0 then 1 else if i == 1 then 512 else 0x4_0000;
    var ppn := pte / 1024 % 0x1000_0000_0000;
    if !Permits(Has(pte, 2), Has(pte, 4), Has(pte, 8), Has(pte, 16), acc, mode) then PageFault
    else if ppn % span != 0 then PageFault
    else if !Has(pte, 64) || (acc.Store? && !Has(pte, 128)) then PageFault
    else Physical((ppn + va / 4096 % span) * 4096 + va % 4096)
  }

  predicate Permits(r: bool, w: bool, x: bool, u: bool, acc: Access, mode: Mode) {
    && (match acc case Load => r case Store => w case Fetch => x)
    && (match mode
        case UserMode => u
        case SupervisorMode(sum) => u ==> sum && !acc.Fetch?)
  }

  /** What the hardware makes of the word a walk ends on. */
  function WordEnds(e: End, va: U64, acc: Access, mode: Mode): Translated {
    match e
    case Fault => PageFault
    case Stop(i, w) =>
      if IllFormed(w) || !(Has(w, 2) || Has(w, 8)) then PageFault
      else LeafAt(w, i, va, acc, mode)
  }

  lemma PermissionField(e: nat)
    ensures e / 2 % 8 != 0 <==> Has(e, R) || Has(e, W) || Has(e, X)
  {
    var t := e / 2;
    assert e / 4 == t / 2 && e / 8 == t / 2 / 2;
    assert Pow2(3) == 8 && Pow2(2) == 4 && Pow2(1) == 2;
    HalfMod(t, 2);
    HalfMod(t / 2, 1);
  }

  lemma PlainPointer(t: nat)
    requires t < FRAMES
    ensures var e := Words().table(t);
      && Has(e, V) && !Has(e, R) && !Has(e, W) && !Has(e, X) && !IllFormed(e)
      && e / 1024 % FRAMES == t
  {
    PointerFields(t);
    PermissionField(t * 1024 + 1);
  }

  lemma WalkEndsHere(m: Memory, a: nat, i: nat, va: U64, acc: Access, mode: Mode)
    requires a < |m| && i <= 2
    requires i > 0 ==> !Points(Words(), Get(m, a, Vpn(va, i)))
    ensures WalkAt(m, a, i, va, acc, mode) == WordEnds(Find(Words(), m, a, Below(va, i)), va, acc, mode)
  {
    hide LeafAt, Vpn;
    PermissionField(Get(m, a, Vpn(va, i)));
  }

  lemma WalkGoesOn(m: Memory, a: nat, i: nat, va: U64, acc: Access, mode: Mode)
    requires a < |m| && 0 < i <= 2 && Points(Words(), Get(m, a, Vpn(va, i)))
    requires var e := Get(m, a, Vpn(va, i));
      e == Words().table(Words().next(e))
    ensures var t := Words().next(Get(m, a, Vpn(va, i)));
      && WalkAt(m, a, i, va, acc, mode) == WalkAt(m, t, i - 1, va, acc, mode)
      && Find(Words(), m, a, Below(va, i)) == Find(Words(), m, t, Below(va, i - 1))
  {
    hide LeafAt, Vpn, Below, EntryWord;
    PlainPointer(Words().next(Get(m, a, Vpn(va, i))));
  }

  /** The hardware reads an owned tree exactly as `Find` does. */
  lemma {:induction false} WalkFinds(m: Memory, root: nat, own: Owners, a: nat, i: nat, va: U64, acc: Access, mode: Mode)
    requires |m| <= FRAMES && Owned(Words(), m, root, 3, own) && a in own && i <= 2 && |own[a]| == 2 - i
    ensures WalkAt(m, a, i, va, acc, mode) == WordEnds(Find(Words(), m, a, Below(va, i)), va, acc, mode)
    decreases i
  {
    hide Words, Find, WalkAt, WordEnds, Reach, Below, Vpn;
    if i > 0 && Points(Words(), Get(m, a, Vpn(va, i))) {
      WalkGoesOn(m, a, i, va, acc, mode);
      WalkFinds(m, root, own, Words().next(Get(m, a, Vpn(va, i))), i - 1, va, acc, mode);
    } else {
      WalkEndsHere(m, a, i, va, acc, mode);
    }
  }

  lemma TranslateFinds(m: Memory, root: nat, own: Owners, va: U64, acc: Access, mode: Mode)
    requires |m| <= FRAMES && Owned(Words(), m, root, 3, own)
    ensures Translate(m, root, va, acc, mode)
      == if Canonical(va) then WordEnds(Find(Words(), m, root, PathOf(va / 4096)), va, acc, mode) else PageFault
  {
    WalkFinds(m, root, own, root, 2, va, acc, mode);
    BelowIsPath(va);
  }

  // ---------------------------------------------------------------------------
  // What the hardware makes of a call
  // ---------------------------------------------------------------------------

  /** What `perm_bits` allow. WRITE without READ is a reserved encoding and allows
      nothing; no READ, WRITE or EXECUTE at all is no leaf and allows nothing. */
  predicate Grants(permBits: nat, acc: Access, mode: Mode) {
    var r, w, x, u := permBits % 2 == 1, permBits / 2 % 2 == 1, permBits / 4 % 2 == 1, permBits / 8 % 2 == 1;
    (w ==> r) && Permits(r, w, x, u, acc, mode)
  }

  lemma LowField(f: nat, leaf: nat)
    requires leaf < 1024
    ensures var e := f * 1024 + leaf;
      && e % 2 == leaf % 2 && e / 2 % 2 == leaf / 2 % 2 && e / 4 % 2 == leaf / 4 % 2 && e / 8 % 2 == leaf / 8 % 2
      && e / 16 % 2 == leaf / 16 % 2 && e / 64 % 2 == leaf / 64 % 2 && e / 128 % 2 == leaf / 128 % 2
      && e / 1024 == f
  {
    FieldIgnoresHigh(f, leaf, 1, 2, 512);
    FieldIgnoresHigh(f, leaf, 2, 2, 256);
    FieldIgnoresHigh(f, leaf, 4, 2, 128);
    FieldIgnoresHigh(f, leaf, 8, 2, 64);
    FieldIgnoresHigh(f, leaf, 16, 2, 32);
    FieldIgnoresHigh(f, leaf, 64, 2, 8);
    FieldIgnoresHigh(f, leaf, 128, 2, 4);
  }

  lemma FlagFields(permBits: nat)
    ensures var l := LeafFlags(permBits);
      && l < 256 && l % 2 == 1 && l / 64 % 2 == 1 && l / 128 % 2 == 1
      && l / 2 % 2 == permBits % 2 && l / 4 % 2 == permBits / 2 % 2
      && l / 8 % 2 == permBits / 4 % 2 && l / 16 % 2 == permBits / 8 % 2
  {
  }

  lemma LeafMeaning(f: nat, permBits: U64, va: U64, acc: Access, mode: Mode)
    requires f < FRAMES
    ensures WordEnds(Stop(0, Leaf(permBits)(f)), va, acc, mode)
      == if Grants(permBits, acc, mode) then Physical(f * 4096 + va % 4096) else PageFault
  {
    FlagFields(permBits);
    LowField(f, LeafFlags(permBits));
  }

  /** What `served` pages mapped from `vaddr` make of an address: the page it is the last
      alias of, for exactly the accesses `perm_bits` allow; or what it was before. */
  function Remapped(vaddr: U64, paddr: nat, served: nat, permBits: U64, va: U64, acc: Access, mode: Mode, before: Translated): Translated {
    match LastAlias(vaddr / 4096, served, va / 4096)
    case None => before
    case Some(k) => if Grants(permBits, acc, mode) then Physical(paddr + k * 4096 + va % 4096) else PageFault
  }

  /** After `map_range` mapped `served` pages, the hardware translates every address whose
      indices a page of the range shares to that page, the last one where several do,
      exactly for the accesses `perm_bits` allow, and every other address as it did
      before; addresses that are not canonical fault as before. */
  lemma MappedPagesTranslate(m: Memory, m': Memory, root: nat, own: Owners, own': Owners, vaddr: U64, paddr: U64,
                             served: nat, permBits: U64, va: U64, acc: Access, mode: Mode)
    requires |m| == |m'| <= FRAMES && vaddr % 4096 == 0 && paddr % 4096 == 0
    requires paddr + served * 4096 <= 0x100_0000_0000_0000
    requires Owned(Words(), m, root, 3, own) && Owned(Words(), m', root, 3, own')
    requires Overlaid(Words(), m, root, 3,
                      Requests(vaddr / 4096, paddr / 4096, served, Leaf(permBits)), m')
    ensures Translate(m', root, va, acc, mode) ==
      if Canonical(va) then Remapped(vaddr, paddr, served, permBits, va, acc, mode, Translate(m, root, va, acc, mode))
      else PageFault
  {
    hide Words, Owned, Find, Requests, EntryWord, LeafFlags, WordEnds, PathOf, Latest, Translate, Canonical, Grants, Leaf, LastAlias;
    TranslateFinds(m, root, own, va, acc, mode);
    TranslateFinds(m', root, own', va, acc, mode);
    if Canonical(va) {
      var q := va / 4096;
      LatestOfRun(vaddr / 4096, paddr / 4096, served, Leaf(permBits), q);
      assert |PathOf(q)| == 3;
      match LastAlias(vaddr / 4096, served, q)
      case None =>
      case Some(k) =>
        LeafMeaning(paddr / 4096 + k, permBits, va, acc, mode);
        assert (paddr / 4096 + k) * 4096 == paddr + k * 4096;
    }
  }

  /** What one accepted call does to every address: with `n` pages served (all of
      them exactly when the call succeeds), the addresses of those pages and their
      aliases translate to their targets for the accesses granted, all others as before. */
  lemma CallTranslates(m: Memory, root: nat, own: Owners, c: Call, va: U64, acc: Access, mode: Mode)
    returns (n: nat)
    requires |m| <= FRAMES && Owned(Words(), m, root, 3, own)
    requires Fresh(m, own, Pool(c.poolBase / 4096, c.poolLen), 0)
    requires !BadRange(c.vaddr, c.paddr, c.len) && Fits(c)
    requires c.paddr + c.len <= 0x100_0000_0000_0000
    ensures n <= c.len / 4096
    ensures var s := MapPages(Words(), m, 0, Pool(c.poolBase / 4096, c.poolLen), root, CallRequests(Leaf, c));
      && (s.status.Table? <==> n == c.len / 4096)
      && Translate(s.mem, root, va, acc, mode) ==
         if Canonical(va) then Remapped(c.vaddr, c.paddr, n, c.permBits, va, acc, mode, Translate(m, root, va, acc, mode))
         else PageFault
  {
    hide Words, Owned, Fresh, MapPages, Served, Translate, Grants, Leaf, LastAlias, Canonical;
    var pool, rs := Pool(c.poolBase / 4096, c.poolLen), CallRequests(Leaf, c);
    n := Served(Words(), m, 0, pool, root, rs);
    WordsAreLawful(|m|);
    LeavesAreValid();
    var own' := CallKeeps(Words(), Leaf, m, root, pool, own, c);
    ServedAll(Words(), m, 0, pool, root, rs);
    RequestsPrefix(c.vaddr / 4096, c.paddr / 4096, c.len / 4096, Leaf(c.permBits), n);
    MappedPagesTranslate(m, MapPages(Words(), m, 0, pool, root, rs).mem, root, own, own', c.vaddr, c.paddr, n,
                         c.permBits, va, acc, mode);
  }

  /** A range within one of the two canonical halves. */
  predicate CanonicalRange(vaddr: nat, len: nat) {
    vaddr + len <= 0x40_0000_0000 || (0xFFFF_FFC0_0000_0000 <= vaddr && vaddr + len <= TWO64)
  }

  /** Where a canonical address lies in a range that does not leave its half. */
  lemma AliasInRange(vaddr: U64, served: nat, va: U64)
    requires Canonical(va) && vaddr % 4096 == 0 && CanonicalRange(vaddr, served * 4096)
    ensures LastAlias(vaddr / 4096, served, va / 4096)
      == if vaddr <= va < vaddr + served * 4096 then Some((va - vaddr) / 4096) else None
  {
    var q, page := va / 4096, vaddr / 4096;
    assert vaddr <= va < vaddr + served * 4096 <==> page <= q < page + served;
    if page <= q < page + served {
      OnlyItself(page, served, q);
    } else {
      forall k: nat | k < served ensures !Alias(page, k, q) {
        HalvesDiffer(page + k, q);
      }
    }
  }

  /** Two pages of the canonical halves are aliases only if they are one. */
  lemma HalvesDiffer(a: nat, b: nat)
    requires a < 0x400_0000 || 0xF_FFFF_FC00_0000 <= a < 0x10_0000_0000_0000
    requires b < 0x400_0000 || 0xF_FFFF_FC00_0000 <= b < 0x10_0000_0000_0000
    ensures a % 0x800_0000 == b % 0x800_0000 <==> a == b
  {
    PageOfHalf(a);
    PageOfHalf(b);
  }

  lemma PageOfHalf(a: nat)
    requires a < 0x400_0000 || 0xF_FFFF_FC00_0000 <= a < 0x10_0000_0000_0000
    ensures a % 0x800_0000 == if a < 0x400_0000 then a else a - 0xF_FFFF_F800_0000
  {
    if a >= 0x400_0000 {
      ModUnique(a, 0x800_0000, 0x1FF_FFFF, a - 0x1FF_FFFF * 0x800_0000);
    }
  }

  lemma NotInRange(vaddr: U64, served: nat, va: U64)
    requires !Canonical(va) && CanonicalRange(vaddr, served * 4096)
    ensures !(vaddr <= va < vaddr + served * 4096)
  {
  }

  /** For a range inside a canonical half there are no other aliases: its addresses translate to
      their targets, and all others as before. */
  lemma RangeTranslates(m: Memory, root: nat, own: Owners, c: Call, va: U64, acc: Access, mode: Mode)
    returns (n: nat)
    requires |m| <= FRAMES && Owned(Words(), m, root, 3, own)
    requires Fresh(m, own, Pool(c.poolBase / 4096, c.poolLen), 0)
    requires !BadRange(c.vaddr, c.paddr, c.len)
    requires CanonicalRange(c.vaddr, c.len) && c.paddr + c.len <= 0x100_0000_0000_0000
    ensures n <= c.len / 4096
    ensures var s := MapPages(Words(), m, 0, Pool(c.poolBase / 4096, c.poolLen), root, CallRequests(Leaf, c));
      && (s.status.Table? <==> n == c.len / 4096)
      && Translate(s.mem, root, va, acc, mode) ==
         if c.vaddr <= va < c.vaddr + n * 4096
         then (if Grants(c.permBits, acc, mode) then Physical(c.paddr + (va - c.vaddr)) else PageFault)
         else Translate(m, root, va, acc, mode)
  {
    hide Words, Owned, Fresh, MapPages, Translate, Grants, Leaf, LastAlias, WordEnds, Find, PathOf, CallRequests, Canonical;
    n := CallTranslates(m, root, own, c, va, acc, mode);
    TranslateFinds(m, root, own, va, acc, mode);
    if Canonical(va) {
      AliasInRange(c.vaddr, n, va);
    } else {
      NotInRange(c.vaddr, n, va);
    }
  }

  // ---------------------------------------------------------------------------
  // map_ram_identity, and runs of calls on the table it leaves
  // ---------------------------------------------------------------------------

  function GigapageFlags(user: bool): nat {
    if user then 223 else 207
  }

  /** A root of `gibs` identity gigapages and nothing else. */
  ghost predicate IdentityRoot(frame: Frame, gibs: nat, user: bool) {
    forall i: Index :: frame[i] == if i < gibs then EntryWord((i as int) * 0x4_0000, GigapageFlags(user)) else 0
  }

  lemma IdentityBits()
    ensures Or(Or(Or(Or(Or(V, R), W), X), A), D) == 207
  {
    assert Or(Or(Or(V, R), W), X) == 15;
    assert Or(15, A) == 79;
    assert Or(79, D) == 207;
  }

  lemma GigapageWord(gib: nat, user: bool)
    requires gib < 512
    ensures var flags := Or(Or(Or(Or(Or(V, R), W), X), A), D);
      Or(Shl(gib, 28), if user then Or(flags, U) else flags) == EntryWord(gib * 0x4_0000, GigapageFlags(user))
  {
    hide And, Or, Shl;
    IdentityBits();
    AddBit(207, 4, U, true);
    GigapageAddress(gib);
    JoinLow(gib * 0x4_0000, GigapageFlags(user));
  }

  lemma GigapageAddress(gib: nat)
    requires gib < 512
    ensures Shl(gib, 28) == gib * 0x4_0000 * 1024
  {
    Powers();
    Pow2Add(18, 10);
    assert Pow2(18) == 0x4_0000;
    ShlBy(gib, 28, 0x1000_0000);
  }

  method MapRamIdentity(mem: array<Frame>, rootFrame: U64, bytesGib: nat, userAccessible: bool)
    requires rootFrame / 4096 < mem.Length
    modifies mem
    ensures IdentityRoot(mem[rootFrame / 4096], bytesGib, userAccessible)
    ensures forall f | 0 <= f < mem.Length && f != rootFrame / 4096 :: mem[f] == old(mem[f])
  {
    hide And, Or, Shl, EntryWord;
    var root := rootFrame / 4096;
    for i := 0 to 512
      invariant forall j: Index | j < i :: mem[root][j] == 0
      invariant forall f | 0 <= f < mem.Length && f != root :: mem[f] == old(mem[f])
    {
      var frame := mem[root];
      mem[root] := frame[i := 0];
    }
    var flags := Or(Or(Or(Or(Or(V, R), W), X), A), D);
    GigapageWord(0, userAccessible);
    if userAccessible {
      flags := Or(flags, U);
    }
    for gib := 0 to (if bytesGib < 512 then bytesGib else 512)
      invariant forall j: Index ::
        mem[root][j] == if j < gib then EntryWord((j as int) * 0x4_0000, GigapageFlags(userAccessible)) else 0
      invariant forall f | 0 <= f < mem.Length && f != root :: mem[f] == old(mem[f])
    {
      GigapageWord(gib, userAccessible);
      var frame := mem[root];
      mem[root] := frame[gib := Or(Shl(gib, 28), flags)];
    }
  }

  lemma GigapageFields(gib: nat, user: bool)
    ensures var e := gib * 0x4_0000 * 1024 + GigapageFlags(user);
      && e % 2 == 1 && e / 2 % 8 == 7 && e / 1024 == gib * 0x4_0000
  {
    FieldIgnoresHigh(gib * 0x4_0000, GigapageFlags(user), 2, 8, 64);
    FieldIgnoresHigh(gib * 0x4_0000, GigapageFlags(user), 1, 2, 512);
    LowField(gib * 0x4_0000, GigapageFlags(user));
  }

  lemma IdentityOwned(m: Memory, root: nat, gibs: nat, user: bool)
    requires root < |m| && IdentityRoot(m[root], gibs, user)
    ensures Owned(Words(), m, root, 3, Bare(root))
  {
    forall i: Index ensures !Points(Words(), Get(m, root, i)) {
      GigapageFields(i, user);
    }
  }

  /** Where a walk through identity entry `gib` ends. */
  function Gigapage(gib: nat, user: bool): (e: End)
    ensures Covered(e)
  {
    Stop(2, EntryWord(gib * 0x4_0000, GigapageFlags(user)))
  }

  lemma IdentityFind(m: Memory, root: nat, gibs: nat, user: bool, p: Path)
    requires root < |m| && IdentityRoot(m[root], gibs, user) && |p| == 3
    ensures Find(Words(), m, root, p) == if p[0] < gibs then Gigapage(p[0], user) else Fault
  {
    GigapageFields(p[0], user);
  }

  lemma GigapageMeaning(gib: nat, va: U64, user: bool, acc: Access, mode: Mode)
    requires gib < 512
    ensures WordEnds(Gigapage(gib, user), va, acc, mode) ==
      if Permits(true, true, true, user, acc, mode) then Physical(gib * 0x4000_0000 + va % 0x4000_0000) else PageFault
  {
    LowField(gib * 0x4_0000, GigapageFlags(user));
    GigapageAddressing(gib, va);
    GigapageFlagFields(user);
  }

  lemma GigapageAddressing(gib: nat, va: nat)
    requires gib < 512
    ensures gib * 0x4_0000 % FRAMES == gib * 0x4_0000 && gib * 0x4_0000 % 0x4_0000 == 0
    ensures (gib * 0x4_0000 + va / 4096 % 0x4_0000) * 4096 + va % 4096 == gib * 0x4000_0000 + va % 0x4000_0000
  {
  }

  lemma GigapageFlagFields(user: bool)
    ensures var l := GigapageFlags(user);
      && l / 2 % 2 == 1 && l / 4 % 2 == 1 && l / 8 % 2 == 1 && l / 64 % 2 == 1 && l / 128 % 2 == 1
      && (l / 16 % 2 == 1 <==> user)
  {
  }

  /** After `map_ram_identity` of `gibs` GiB and any calls of `map_range`, every
      canonical address below `gibs` GiB still translates to itself. */
  lemma {:induction false} IdentityIsPermanent(m: Memory, root: nat, gibs: nat, user: bool, calls: seq<Call>,
                                               va: U64, acc: Access, mode: Mode)
    requires root < |m| <= FRAMES && IdentityRoot(m[root], gibs, user)
    requires SeparatePools(m, Bare(root), Batches(Leaf, calls)) && AllFit(calls)
    requires va < 0x80_0000_0000 && va < gibs * 0x4000_0000
    ensures Translate(Run(Words(), m, root, Batches(Leaf, calls)), root, va, acc, mode)
      == if Canonical(va) && Permits(true, true, true, user, acc, mode) then Physical(va) else PageFault
  {
    hide Words, Owned, WordEnds, Run, SeparatePools, PathOf, EntryWord, IdentityRoot, Translate, Find, Bare,
      Gigapage, Canonical, Batches, AllFit, Lawful, Leaves, Leaf, FromPools, SuperpagesKept;
    IdentityOwned(m, root, gibs, user);
    IdentityFind(m, root, gibs, user, PathOf(va / 4096));
    FirstIndex(va);
    assert |PathOf(va / 4096)| == 3;
    WordsAreLawful(|m|);
    LeavesAreValid();
    var own' := GigapageStays(Words(), Leaf, m, root, calls, PathOf(va / 4096));
    TranslateFinds(Run(Words(), m, root, Batches(Leaf, calls)), root, own', va, acc, mode);
    GigapageMeaning(va / 0x4000_0000, va, user, acc, mode);
  }

  /** And a call that starts there is refused, leaving memory as it was. */
  lemma {:induction false} IdentityRefuses(m: Memory, root: nat, gibs: nat, user: bool, calls: seq<Call>, c: Call)
    requires root < |m| <= FRAMES && IdentityRoot(m[root], gibs, user)
    requires SeparatePools(m, Bare(root), Batches(Leaf, calls + [c])) && AllFit(calls) && Fits(c)
    requires c.vaddr < 0x80_0000_0000 && c.vaddr < gibs * 0x4000_0000 && !BadRange(c.vaddr, c.paddr, c.len)
    ensures var m' := Run(Words(), m, root, Batches(Leaf, calls));
      MapPages(Words(), m', 0, BatchOf(Leaf, c).pool, root, BatchOf(Leaf, c).requests) == Step(m', 0, Blocked)
  {
    hide Words, Owned, Run, SeparatePools, PathOf, EntryWord, IdentityRoot, MapPages, Find, Bare, Batches, BatchOf,
      Gigapage, Fits, AllFit, BadRange, Lawful, Leaves, Leaf;
    IdentityOwned(m, root, gibs, user);
    IdentityFind(m, root, gibs, user, PathOf(c.vaddr / 4096));
    FirstIndex(c.vaddr);
    assert |PathOf(c.vaddr / 4096)| == 3;
    WordsAreLawful(|m|);
    LeavesAreValid();
    GigapageRefuses(Words(), Leaf, m, root, calls, c);
  }
}
