/** Virtual addresses of 39 bits over 4 KiB pages: three 9-bit table indices and a
    12-bit offset, at the same places for RISC-V Sv39 and for AArch64 with
    TCR_EL1.T0SZ = 25. */
module Va39 {
  import opened Bits
  import opened Options
  import opened PageTree

  const U32_MAX: nat := 0xFFFF_FFFF

  /** The three 9-bit indices of a page number. */
  function PathOf(page: nat): (p: Path)
    ensures |p| == 3
  {
    [page / 0x4_0000 % 512, page / 512 % 512, page % 512]
  }

  /** A page to map and the word for it. */
  function PageAt(page: nat, word: U64): Request {
    Request(PathOf(page), word)
  }

  /** A run of consecutive pages onto consecutive frames; `word` makes the leaf for a frame. */
  function Requests(page: nat, frame: nat, pages: nat, word: nat -> U64): (rs: seq<Request>)
    ensures |rs| == pages
    ensures forall k | 0 <= k < pages :: rs[k] == PageAt(page + k, word(frame + k))
  {
    if pages == 0 then []
    else Requests(page, frame, pages - 1, word) + [PageAt(page + pages - 1, word(frame + pages - 1))]
  }

  lemma {:induction false} RequestsPrefix(page: nat, frame: nat, pages: nat, word: nat -> U64, k: nat)
    requires k <= pages
    ensures Requests(page, frame, pages, word)[..k] == Requests(page, frame, k, word)
  {
    if k < pages {
      RequestsPrefix(page, frame, pages - 1, word, k);
    }
  }

  lemma PageIndices(va: U64)
    ensures And(Shr(va, 30), 0x1FF) == PathOf(va / 4096)[0]
    ensures And(Shr(va, 21), 0x1FF) == PathOf(va / 4096)[1]
    ensures And(Shr(va, 12), 0x1FF) == PathOf(va / 4096)[2]
  {
    Powers();
    ShrBy(va, 30, 0x4000_0000);
    ShrBy(va, 21, 0x20_0000);
    ShrBy(va, 12, 4096);
    AndBy(va / 0x4000_0000, 9, 512);
    AndBy(va / 0x20_0000, 9, 512);
    AndBy(va / 4096, 9, 512);
    NestedIndices(va);
  }

  lemma NestedIndices(va: nat)
    ensures va / 0x4000_0000 == va / 4096 / 0x4_0000
    ensures va / 0x20_0000 == va / 4096 / 512
  {
  }

  lemma FirstIndex(va: U64)
    requires va < 0x80_0000_0000
    ensures PathOf(va / 4096)[0] == va / 0x4000_0000
  {
  }

  lemma AlignmentTest(a: U64, b: U64, c: U64)
    ensures And(Or(Or(a, b), c), 0xFFF) != 0 <==> a % 4096 != 0 || b % 4096 != 0 || c % 4096 != 0
  {
    AndField(Or(Or(a, b), c), 0, 12);
    OrLowBits(a, b, 12);
    OrLowBits(Or(a, b), c, 12);
    Powers();
  }

  lemma PermissionTests(permBits: U64)
    ensures And(permBits, 1) != 0 <==> permBits % 2 == 1
    ensures And(permBits, 2) != 0 <==> permBits / 2 % 2 == 1
    ensures And(permBits, 4) != 0 <==> permBits / 4 % 2 == 1
    ensures And(permBits, 8) != 0 <==> permBits / 8 % 2 == 1
  {
    AndBit(permBits, 0);
    AndBit(permBits, 1);
    AndBit(permBits, 2);
    AndBit(permBits, 3);
    assert Pow2(0) == 1 && Pow2(1) == 2 && Pow2(2) == 4 && Pow2(3) == 8;
    ShrBy(permBits, 1, 2);
    ShrBy(permBits, 2, 4);
    ShrBy(permBits, 3, 8);
  }

  predicate BadRange(vaddr: U64, paddr: U64, len: U64) {
    len == 0 || vaddr % 4096 != 0 || paddr % 4096 != 0 || len % 4096 != 0
  }

  lemma OwnedRoot(c: Codec, m: Memory, root: nat, own: Owners)
    requires Owned(c, m, root, 3, own)
    ensures root in own && own[root] == [] && root < |m|
  {
  }

  lemma DescendEnds(c: Codec, m: Memory, used: nat, pool: Pool, f: nat)
    ensures Descend(c, m, used, pool, f, []) == Step(m, used, Table(f))
  {
  }

  /** The count always fits the 32-bit result and never reads as the error. */
  lemma CountIsSmall(c: Codec, m: Memory, root: nat, pool: Pool, own: Owners, rs: seq<Request>, own': Owners)
    requires forall k | 0 <= k < |rs| :: |rs[k].path| == 3
    requires var s := MapPages(c, m, 0, pool, root, rs);
      s.status.Table? && Mapped(c, m, 0, pool, root, 3, own, rs, s, own')
    ensures MapPages(c, m, 0, pool, root, rs).used <= 0x4_0200 < 0xFFFF_FFFF
  {
    forall p | p in Needed(rs) ensures 0 < |p| < 3 {
      NeededLengths(rs, 3, p);
    }
    TablesAreFew(Needed(rs) - own.Values);
  }

  /** What a batch counts: it succeeds exactly when no superpage is in the way and the
      pool holds the missing tables; it then uses as many frames, and they are the first
      of the pool. */
  lemma CountsTables(c: Codec, m: Memory, root: nat, pool: Pool, own: Owners, rs: seq<Request>, own': Owners)
    requires forall k | 0 <= k < |rs| :: |rs[k].path| == 3
    requires Mapped(c, m, 0, pool, root, 3, own, rs, MapPages(c, m, 0, pool, root, rs), own')
    ensures var s := MapPages(c, m, 0, pool, root, rs);
      && (s.status.Table? <==> NoneCovered(c, m, root, rs) && |Needed(rs) - own.Values| <= pool.len)
      && (s.status.Table? ==>
            && s.used == |Needed(rs) - own.Values| < 0xFFFF_FFFF
            && (forall t :: t in own' <==> t in own || pool.base <= t < pool.base + s.used))
  {
    hide MapPages, NoneCovered, Needed, Overlaid, Served, Owned, Fresh, OnlyTables;
    if MapPages(c, m, 0, pool, root, rs).status.Table? {
      CountIsSmall(c, m, root, pool, own, rs, own');
    }
  }

  datatype Access = Load | Store | Fetch

  /** The index the hardware takes from an address with `i` levels below: bits 20..12,
      29..21, 38..30, and 47..39 in four-level tables. */
  function Vpn(va: U64, i: nat): Index {
    if i == 0 then va / 4096 % 512
    else if i == 1 then va / 0x20_0000 % 512
    else if i == 2 then va / 0x4000_0000 % 512
    else va / 0x80_0000_0000 % 512
  }

  /** The indices still to be read with `i` levels below. */
  function Below(va: U64, i: nat): (p: Path)
    requires i <= 3
    ensures |p| == i + 1 && p[0] == Vpn(va, i)
    ensures i > 0 ==> p[1..] == Below(va, i - 1)
  {
    if i == 0 then [Vpn(va, 0)] else [Vpn(va, i)] + Below(va, i - 1)
  }

  lemma BelowIsPath(va: U64)
    ensures Below(va, 2) == PathOf(va / 4096)
  {
    NestedIndices(va);
  }

  lemma PathsDiffer(a: nat, b: nat)
    requires PathOf(a) == PathOf(b)
    ensures a % 0x800_0000 == b % 0x800_0000
  {
    assert PathOf(a)[0] == PathOf(b)[0] && PathOf(a)[1] == PathOf(b)[1] && PathOf(a)[2] == PathOf(b)[2];
    PathValue(a);
    PathValue(b);
  }

  lemma PathValue(a: nat)
    ensures a % 0x800_0000 == a / 0x4_0000 % 512 * 0x4_0000 + a / 512 % 512 * 512 + a % 512
  {
    var t := a / 512;
    assert a / 0x4_0000 == t / 512;
  }

  lemma SamePath(q: nat)
    ensures PathOf(q % 0x800_0000) == PathOf(q)
  {
    var h, r := q / 0x800_0000, q % 0x800_0000;
    FieldIgnoresHigh(h, r, 1, 512, 0x4_0000);
    FieldIgnoresHigh(h, r, 512, 512, 512);
    FieldIgnoresHigh(h, r, 0x4_0000, 512, 1);
  }

  lemma PathsAgree(a: nat, b: nat)
    ensures PathOf(a) == PathOf(b) <==> a % 0x800_0000 == b % 0x800_0000
  {
    if PathOf(a) == PathOf(b) {
      PathsDiffer(a, b);
    }
    SamePath(a);
    SamePath(b);
  }

  /** The page `k` after `page` shares its three indices with page `q`. */
  predicate Alias(page: nat, k: nat, q: nat) {
    (page + k) % 0x800_0000 == q % 0x800_0000
  }

  /** The last of `pages` pages from `page` on that is an alias of `q`. */
  function LastAlias(page: nat, pages: nat, q: nat): (r: Option<nat>)
    ensures r.None? ==> forall k: nat | k < pages :: !Alias(page, k, q)
    ensures r.Some? ==> r.value < pages && Alias(page, r.value, q) && forall k | r.value < k < pages :: !Alias(page, k, q)
  {
    if pages == 0 then None
    else if Alias(page, pages - 1, q) then Some(pages - 1)
    else LastAlias(page, pages - 1, q)
  }

  function AliasWord(a: Option<nat>, frame: nat, word: nat -> U64): Option<U64> {
    match a
    case None => None
    case Some(k) => Some(word(frame + k))
  }

  /** What a run of pages asks for at page `q`: the leaf of its last alias. A run longer
      than the window maps over itself. */
  lemma {:induction false} LatestOfRun(page: nat, frame: nat, pages: nat, word: nat -> U64, q: nat)
    ensures Latest(Requests(page, frame, pages, word), PathOf(q)) == AliasWord(LastAlias(page, pages, q), frame, word)
  {
    hide PathOf, Alias, Requests;
    if pages > 0 {
      var rs := Requests(page, frame, pages, word);
      assert rs[..pages - 1] == Requests(page, frame, pages - 1, word);
      LatestOfRun(page, frame, pages - 1, word, q);
      AliasPaths(page, pages - 1, q);
    }
  }

  lemma AliasPaths(page: nat, k: nat, q: nat)
    ensures PathOf(page + k) == PathOf(q) <==> Alias(page, k, q)
  {
    PathsAgree(page + k, q);
  }

  /** In a run no longer than the window a page is its own only alias. */
  lemma OnlyItself(page: nat, pages: nat, q: nat)
    requires pages <= 0x800_0000 && page <= q < page + pages
    ensures LastAlias(page, pages, q) == Some(q - page)
  {
    hide Alias;
    forall k: nat | k < pages ensures Alias(page, k, q) <==> k == q - page {
      NoOtherAlias(page, k, q);
    }
    assert Alias(page, q - page, q);
  }

  lemma NoOtherAlias(page: nat, k: nat, q: nat)
    requires page + k < q + 0x800_0000 && q < page + k + 0x800_0000
    ensures Alias(page, k, q) <==> page + k == q
  {
  }

  /** The tree of a root without tables below it. */
  function Bare(root: nat): Owners {
    map[root := []]
  }

  datatype Call = Call(vaddr: U64, paddr: U64, len: U64, permBits: U64, poolBase: U64, poolLen: U64)

  predicate Fits(c: Call) {
    c.vaddr + c.len <= TWO64 && c.paddr + c.len <= TWO64
  }

  /** The batch of a call, given the leaf words `perm_bits` stands for on this
      architecture. A rejected call maps nothing. */
  function BatchOf(words: U64 -> nat -> U64, c: Call): Batch {
    Batch(Pool(c.poolBase / 4096, c.poolLen),
          if BadRange(c.vaddr, c.paddr, c.len) then [] else CallRequests(words, c))
  }

  function CallRequests(words: U64 -> nat -> U64, c: Call): seq<Request> {
    Requests(c.vaddr / 4096, c.paddr / 4096, c.len / 4096, words(c.permBits))
  }

  function Batches(words: U64 -> nat -> U64, calls: seq<Call>): (bs: seq<Batch>)
    ensures |bs| == |calls|
    ensures forall k | 0 <= k < |calls| :: bs[k] == BatchOf(words, calls[k])
  {
    seq(|calls|, k requires 0 <= k < |calls| => BatchOf(words, calls[k]))
  }

  lemma {:induction false} BatchesInit(words: U64 -> nat -> U64, calls: seq<Call>, c: Call)
    ensures var all := Batches(words, calls + [c]);
      && all != [] && all[..|all| - 1] == Batches(words, calls) && all[|all| - 1] == BatchOf(words, c)
  {
    hide BatchOf;
    var all := Batches(words, calls + [c]);
    assert all[..|all| - 1] == Batches(words, calls);
  }

  ghost predicate AllFit(calls: seq<Call>) {
    forall k | 0 <= k < |calls| :: Fits(calls[k])
  }

  /** An architecture's leaf words are valid words wherever a call can point. */
  ghost predicate Leaves(c: Codec, words: U64 -> nat -> U64) {
    forall permBits: U64, frame: nat | frame < 0x10_0000_0000_0000 :: c.valid(words(permBits)(frame))
  }

  lemma CallWanted(codec: Codec, words: U64 -> nat -> U64, c: Call)
    requires Leaves(codec, words) && Fits(c)
    ensures Wanted(codec, 3, CallRequests(words, c)) && Wanted(codec, 3, BatchOf(words, c).requests)
    ensures !BadRange(c.vaddr, c.paddr, c.len) ==>
      var rs := CallRequests(words, c);
      rs != [] && rs[0].path == PathOf(c.vaddr / 4096)
  {
  }

  lemma {:induction false} BatchesWanted(codec: Codec, words: U64 -> nat -> U64, calls: seq<Call>)
    requires Leaves(codec, words) && AllFit(calls)
    ensures forall k | 0 <= k < |calls| :: Wanted(codec, 3, Batches(words, calls)[k].requests)
  {
    forall k | 0 <= k < |calls| ensures Wanted(codec, 3, Batches(words, calls)[k].requests) {
      CallWanted(codec, words, calls[k]);
    }
  }

  lemma CallLength(codec: Codec, words: U64 -> nat -> U64, m: Memory, root: nat, pool: Pool, c: Call)
    ensures var rs := CallRequests(words, c);
      && |rs| == c.len / 4096 && rs[..|rs|] == rs
      && (forall k | 0 <= k < |rs| :: |rs[k].path| == 3)
      && MapPages(codec, m, 0, pool, root, rs[..0]) == Step(m, 0, Table(root))
  {
  }

  lemma CallPage(words: U64 -> nat -> U64, c: Call, p: nat)
    requires c.vaddr % 4096 == 0 && c.paddr % 4096 == 0 && Fits(c) && p < c.len / 4096
    ensures c.vaddr + p * 4096 < TWO64 && c.paddr + p * 4096 < TWO64 && (c.paddr + p * 4096) % 4096 == 0
    ensures p < |CallRequests(words, c)|
    ensures CallRequests(words, c)[p]
      == Request(PathOf((c.vaddr + p * 4096) / 4096), words(c.permBits)((c.paddr + p * 4096) / 4096))
  {
    assert (c.vaddr + p * 4096) / 4096 == c.vaddr / 4096 + p && (c.paddr + p * 4096) / 4096 == c.paddr / 4096 + p;
  }

  lemma CallKeeps(codec: Codec, words: U64 -> nat -> U64, m: Memory, root: nat, pool: Pool, own: Owners, c: Call)
    returns (own': Owners)
    requires Lawful(codec, |m|) && Leaves(codec, words) && Fits(c)
    requires Owned(codec, m, root, 3, own) && Fresh(m, own, pool, 0)
    ensures var rs := CallRequests(words, c);
      Mapped(codec, m, 0, pool, root, 3, own, rs, MapPages(codec, m, 0, pool, root, rs), own')
  {
    hide Owned, Fresh, MapPages, Mapped, Lawful, Wanted, Leaves, CallRequests, BatchOf;
    CallWanted(codec, words, c);
    own' := MapPagesKeeps(codec, m, 0, pool, root, 3, own, CallRequests(words, c));
  }

  lemma LinkedAt(codec: Codec, m: Memory, used: nat, pool: Pool, root: nat, own: Owners, f: nat, path: Path, word: U64)
    returns (own1: Owners)
    requires Lawful(codec, |m|) && Owned(codec, m, root, 3, own) && Fresh(m, own, pool, used)
    requires f in own && path != [] && |own[f]| + 1 < 3 && !codec.valid(Get(m, f, path[0])) && used < pool.len
    requires word == codec.table(pool.base + used)
    ensures Entered(codec, m, used, pool, root, 3, own, f, path,
                    m[f := m[f][path[0] := word]], used + 1, own1, pool.base + used)
  {
    own1 := StepDown(codec, m, used, pool, root, 3, own, f, path);
  }

  /** A gigapage of a root without tables outlives any calls. */
  lemma {:induction false} GigapageStays(codec: Codec, words: U64 -> nat -> U64, m: Memory, root: nat,
                                         calls: seq<Call>, p: Path)
    returns (own': Owners)
    requires Lawful(codec, |m|) && Leaves(codec, words) && AllFit(calls)
    requires Owned(codec, m, root, 3, Bare(root)) && SeparatePools(m, Bare(root), Batches(words, calls))
    requires |p| == 3 && Covered(Find(codec, m, root, p))
    ensures var m' := Run(codec, m, root, Batches(words, calls));
      && TreeKept(codec, m, root, 3, Bare(root), Batches(words, calls), m', own')
      && Find(codec, m', root, p) == Find(codec, m, root, p)
  {
    hide Lawful, Leaves, Owned, SeparatePools, FromPools, Run, Find, Bare, Batches, Wanted, AllFit, Covered;
    BatchesWanted(codec, words, calls);
    own' := RunKeepsTree(codec, m, root, 3, Bare(root), Batches(words, calls));
    assert KeptThere(codec, m, root, p, Run(codec, m, root, Batches(words, calls)));
  }

  /** A call that starts under a gigapage is refused, whatever was called before,
      and leaves memory as it was. */
  lemma {:induction false} GigapageRefuses(codec: Codec, words: U64 -> nat -> U64, m: Memory, root: nat,
                                           calls: seq<Call>, c: Call)
    requires Lawful(codec, |m|) && Leaves(codec, words) && AllFit(calls) && Fits(c)
    requires Owned(codec, m, root, 3, Bare(root)) && SeparatePools(m, Bare(root), Batches(words, calls + [c]))
    requires !BadRange(c.vaddr, c.paddr, c.len) && Covered(Find(codec, m, root, PathOf(c.vaddr / 4096)))
    ensures var m' := Run(codec, m, root, Batches(words, calls));
      MapPages(codec, m', 0, BatchOf(words, c).pool, root, BatchOf(words, c).requests) == Step(m', 0, Blocked)
  {
    hide Lawful, Leaves, Owned, SeparatePools, Run, Find, Bare, Batches, Wanted, AllFit, MapPages, Fresh, PathOf,
      CallRequests, BadRange, Fits, Covered, FromPools;
    var all, m' := Batches(words, calls + [c]), Run(codec, m, root, Batches(words, calls));
    BatchesInit(words, calls, c);
    SeparateFewer(m, Bare(root), all);
    var own' := GigapageStays(codec, words, m, root, calls, PathOf(c.vaddr / 4096));
    PoolUntouched(m, Bare(root), all, m', own');
    CallWanted(codec, words, c);
    assert Covered(Find(codec, m', root, PathOf(c.vaddr / 4096)));
    RefusedAtOnce(codec, m', 0, BatchOf(words, c).pool, root, 3, own', BatchOf(words, c).requests);
  }
}
