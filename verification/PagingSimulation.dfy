/** The Sv39 and AArch64 mappers run in step: from corresponding tables and equal
    arguments they return the same number and leave corresponding tables.

    The first half compares any two codecs under any relation between the ends of
    walks; the second instantiates it with the two architectures. */
module PagingSimulation {
  import opened Bits
  import opened PageTree
  import opened Va39
  import Sv39
  import Aarch64Paging
  import Vmsa

  type Relation = (End, End) -> bool

  /** Related ends agree on whether a superpage is in the way. */
  ghost predicate RespectsCover(e: Relation) {
    forall a: End, b: End | e(a, b) :: Covered(a) <==> Covered(b)
  }

  /** A codec, its memory and the root of its tree. */
  datatype Side = Side(codec: Codec, mem: Memory, root: nat)

  /** The same tables exist on both sides and all walks end in related ends. */
  ghost predicate Alike(e: Relation, x: Side, y: Side) {
    && (forall p: Path | |p| < 3 :: Reach(x.codec, x.mem, x.root, p).Some? <==> Reach(y.codec, y.mem, y.root, p).Some?)
    && (forall p: Path | |p| == 3 :: e(Find(x.codec, x.mem, x.root, p), Find(y.codec, y.mem, y.root, p)))
  }

  ghost predicate Tree(x: Side, own: Owners) {
    Lawful(x.codec, |x.mem|) && Owned(x.codec, x.mem, x.root, 3, own)
  }

  lemma SameTables(e: Relation, x: Side, y: Side, ownX: Owners, ownY: Owners)
    requires Tree(x, ownX) && Tree(y, ownY) && Alike(e, x, y)
    ensures ownX.Values == ownY.Values
  {
    forall p | p in ownX.Values || p in ownY.Values ensures p in ownX.Values && p in ownY.Values {
      TablesAreOwned(x.codec, x.mem, x.root, 3, ownX, p);
      TablesAreOwned(y.codec, y.mem, y.root, 3, ownY, p);
    }
  }

  lemma TablesReached(x: Side, y: Side, ownX: Owners, ownY: Owners)
    requires Tree(x, ownX) && Tree(y, ownY) && ownX.Values == ownY.Values
    ensures forall p: Path | |p| < 3 ::
      Reach(x.codec, x.mem, x.root, p).Some? <==> Reach(y.codec, y.mem, y.root, p).Some?
  {
    forall p: Path | |p| < 3
      ensures Reach(x.codec, x.mem, x.root, p).Some? <==> Reach(y.codec, y.mem, y.root, p).Some?
    {
      TablesAreOwned(x.codec, x.mem, x.root, 3, ownX, p);
      TablesAreOwned(y.codec, y.mem, y.root, 3, ownY, p);
    }
  }

  /** Two descents that ran dry after the same number of links linked the same tables. */
  lemma PartlySame(ownX: Owners, ownY: Owners, path: Path, n: int, ownX': Owners, ownY': Owners)
    requires ownX.Values == ownY.Values
    requires Partly(ownX, [], path, n, ownX') && Partly(ownY, [], path, n, ownY')
    ensures ownX'.Values == ownY'.Values
  {
    var j :| 0 <= j <= |path| && LinkedTo(ownX, [], path[..j], n, ownX');
    var k :| 0 <= k <= |path| && LinkedTo(ownY, [], path[..k], n, ownY');
    if j <= k {
      NestedPrefixes(path, j, k, ownX.Values);
    } else {
      NestedPrefixes(path, k, j, ownX.Values);
    }
  }

  lemma NestedPrefixes(path: Path, j: nat, k: nat, v: set<Path>)
    requires j <= k <= |path|
    requires |Passed([], path[..j]) - v| == |Passed([], path[..k]) - v|
    ensures v + Passed([], path[..j]) == v + Passed([], path[..k])
  {
    hide Passed;
    PrefixPassed(path, j, k);
    SameSize(Passed([], path[..j]) - v, Passed([], path[..k]) - v);
    AddBack(Passed([], path[..j]), Passed([], path[..k]), v);
  }

  lemma AddBack<T>(a: set<T>, b: set<T>, v: set<T>)
    requires a - v == b - v
    ensures v + a == v + b
  {
    assert v + a == v + (a - v);
    assert v + b == v + (b - v);
  }

  lemma PrefixPassed(path: Path, j: nat, k: nat)
    requires j <= k <= |path|
    ensures Passed([], path[..j]) <= Passed([], path[..k])
  {
    forall p | p in Passed([], path[..j]) ensures p in Passed([], path[..k]) {
      var i :| 0 < i <= |path[..j]| && p == [] + path[..j][..i];
      assert path[..j][..i] == path[..k][..i];
    }
  }

  lemma SameSize<T>(a: set<T>, b: set<T>)
    requires a <= b && |a| == |b|
    ensures a == b
  {
    assert b == a + (b - a);
  }

  // ---------------------------------------------------------------------------
  // One page, one batch
  // ---------------------------------------------------------------------------

  ghost predicate SameOutcome(s: Step, t: Step) {
    && (s.status.Table? <==> t.status.Table?) && (s.status.Blocked? <==> t.status.Blocked?)
    && s.used == t.used
  }

  lemma SamePageOutcome(e: Relation, x: Side, y: Side, used: nat, poolX: Pool, poolY: Pool, ownX: Owners, ownY: Owners,
                        r: Request, q: Request, s: Step, t: Step, ownX': Owners, ownY': Owners)
    requires RespectsCover(e) && Alike(e, x, y) && ownX.Values == ownY.Values
    requires poolX.len == poolY.len && r.path == q.path && |r.path| == 3
    requires PageMapped(x.codec, x.mem, used, poolX, x.root, 3, ownX, r, s, ownX')
    requires PageMapped(y.codec, y.mem, used, poolY, y.root, 3, ownY, q, t, ownY')
    ensures SameOutcome(s, t)
  {
    hide Grown, Find, Partly, Reach, Tops;
    assert Covered(Find(x.codec, x.mem, x.root, r.path)) <==> Covered(Find(y.codec, y.mem, y.root, r.path));
  }

  lemma TablesOfPage(x: Side, used: nat, pool: Pool, own: Owners, r: Request, s: Step, own': Owners)
    requires PageMapped(x.codec, x.mem, used, pool, x.root, 3, own, r, s, own')
    ensures s.status.Table? ==> own'.Values == own.Values + Tops(r.path)
    ensures s.status.Exhausted? ==> Partly(own, [], r.path[..|r.path| - 1], s.used - used, own')
  {
    hide Grown, Find, Partly, Reach, Tops;
  }

  lemma SamePageTables(used: nat, poolX: Pool, poolY: Pool, x: Side, y: Side, ownX: Owners, ownY: Owners,
                       r: Request, q: Request, s: Step, t: Step, ownX': Owners, ownY': Owners)
    requires ownX.Values == ownY.Values && r.path == q.path && SameOutcome(s, t)
    requires PageMapped(x.codec, x.mem, used, poolX, x.root, 3, ownX, r, s, ownX')
    requires PageMapped(y.codec, y.mem, used, poolY, y.root, 3, ownY, q, t, ownY')
    ensures s.status.Blocked? || ownX'.Values == ownY'.Values
  {
    hide PageMapped, Partly, Tops;
    TablesOfPage(x, used, poolX, ownX, r, s, ownX');
    TablesOfPage(y, used, poolY, ownY, q, t, ownY');
    if s.status.Exhausted? {
      PartlySame(ownX, ownY, r.path[..|r.path| - 1], s.used - used, ownX', ownY');
    }
  }

  lemma SamePage(e: Relation, x: Side, y: Side, used: nat, poolX: Pool, poolY: Pool, ownX: Owners, ownY: Owners,
                 r: Request, q: Request)
    requires RespectsCover(e) && Alike(e, x, y) && Tree(x, ownX) && Tree(y, ownY)
    requires Fresh(x.mem, ownX, poolX, used) && Fresh(y.mem, ownY, poolY, used)
    requires poolX.len == poolY.len && used <= poolX.len
    requires r.path == q.path && |r.path| == 3 && e(Stop(0, r.word), Stop(0, q.word))
    requires x.codec.valid(r.word) && y.codec.valid(q.word)
    ensures var s, t := MapPage(x.codec, x.mem, used, poolX, x.root, r), MapPage(y.codec, y.mem, used, poolY, y.root, q);
      SameOutcome(s, t) && Alike(e, x.(mem := s.mem), y.(mem := t.mem))
  {
    hide Fresh, MapPage, RespectsCover, Partly, Reach, Tops, Owned, Lawful, Find;
    SameTables(e, x, y, ownX, ownY);
    var ownX' := MapPageKeeps(x.codec, x.mem, used, poolX, x.root, 3, ownX, r);
    var ownY' := MapPageKeeps(y.codec, y.mem, used, poolY, y.root, 3, ownY, q);
    var s, t := MapPage(x.codec, x.mem, used, poolX, x.root, r), MapPage(y.codec, y.mem, used, poolY, y.root, q);
    SamePageOutcome(e, x, y, used, poolX, poolY, ownX, ownY, r, q, s, t, ownX', ownY');
    if !s.status.Blocked? {
      SamePageTables(used, poolX, poolY, x, y, ownX, ownY, r, q, s, t, ownX', ownY');
      TablesReached(x.(mem := s.mem), y.(mem := t.mem), ownX', ownY');
    }
  }

  /** Two batches for the same pages, with related words. */
  ghost predicate Matching(e: Relation, rs: seq<Request>, qs: seq<Request>) {
    && |rs| == |qs|
    && forall k | 0 <= k < |rs| :: rs[k].path == qs[k].path && e(Stop(0, rs[k].word), Stop(0, qs[k].word))
  }

  lemma {:induction false} SamePages(e: Relation, x: Side, y: Side, poolX: Pool, poolY: Pool,
                                     ownX: Owners, ownY: Owners, rs: seq<Request>, qs: seq<Request>)
    requires RespectsCover(e) && Alike(e, x, y) && Tree(x, ownX) && Tree(y, ownY)
    requires Fresh(x.mem, ownX, poolX, 0) && Fresh(y.mem, ownY, poolY, 0) && poolX.len == poolY.len
    requires Wanted(x.codec, 3, rs) && Wanted(y.codec, 3, qs) && Matching(e, rs, qs)
    ensures var s, t := MapPages(x.codec, x.mem, 0, poolX, x.root, rs), MapPages(y.codec, y.mem, 0, poolY, y.root, qs);
      SameOutcome(s, t) && Alike(e, x.(mem := s.mem), y.(mem := t.mem))
    decreases |rs|
  {
    hide Fresh, RespectsCover, Owned, Lawful, Find, Reach, MapPage, Alike, Overlaid, Served, NoneCovered, Needed;
    if rs != [] {
      var n := |rs| - 1;
      SamePages(e, x, y, poolX, poolY, ownX, ownY, rs[..n], qs[..n]);
      var s, t := MapPages(x.codec, x.mem, 0, poolX, x.root, rs[..n]), MapPages(y.codec, y.mem, 0, poolY, y.root, qs[..n]);
      if s.status.Table? {
        var ownX' := MapPagesKeeps(x.codec, x.mem, 0, poolX, x.root, 3, ownX, rs[..n]);
        var ownY' := MapPagesKeeps(y.codec, y.mem, 0, poolY, y.root, 3, ownY, qs[..n]);
        SamePage(e, x.(mem := s.mem), y.(mem := t.mem), s.used, poolX, poolY, ownX', ownY', rs[n], qs[n]);
      }
    }
  }

  // ---------------------------------------------------------------------------
  // The two architectures
  // ---------------------------------------------------------------------------

  /** Sv39 with sstatus.SUM = 1, AArch64 with PSTATE.PAN = 0. */
  datatype Privilege = User | Kernel

  function RiscvMode(p: Privilege): Sv39.Mode {
    if p.User? then Sv39.UserMode else Sv39.SupervisorMode(true)
  }

  function ArmRegime(p: Privilege): Vmsa.Regime {
    if p.User? then Vmsa.El0 else Vmsa.El1(false)
  }

  /** The same address, or a fault on both sides. */
  predicate SameAccess(s: Sv39.Translated, t: Vmsa.Translated) {
    if s.Physical? then t.Physical? && t.addr == s.addr else !t.Physical?
  }

  ghost predicate SameReading(a: End, b: End, va: U64, acc: Access, p: Privilege) {
    SameAccess(Sv39.WordEnds(a, va, acc, RiscvMode(p)), Vmsa.WordEnds(Aarch64Paging.OUTPUT_FRAMES, b, va, acc, ArmRegime(p)))
  }

  ghost predicate Agree(a: End, b: End) {
    && (Covered(a) <==> Covered(b))
    && forall va: U64, acc: Access, p: Privilege :: SameReading(a, b, va, acc, p)
  }

  /** Both ends are the identity gigapage `gib`. */
  ghost predicate BothIdentity(a: End, b: End, gib: nat, user: bool) {
    gib < 512 && a == Sv39.Gigapage(gib, user) && b == Aarch64Paging.Block(gib, user)
  }

  /** Agreeing ends, or the same kernel-only identity gigapage. */
  ghost predicate Related(a: End, b: End) {
    Agree(a, b) || exists gib :: BothIdentity(a, b, gib, false)
  }

  lemma RelatedRespectsCover()
    ensures RespectsCover(Related)
  {
    hide Sv39.WordEnds, Vmsa.WordEnds, SameReading;
  }

  /** A leaf reads alike exactly when READ is among its permissions. */
  lemma LeavesAgree(permBits: U64, f: nat)
    requires f < Aarch64Paging.OUTPUT_FRAMES
    ensures Agree(Stop(0, Sv39.Leaf(permBits)(f)), Stop(0, Aarch64Paging.Leaf(permBits)(f))) <==> permBits % 2 == 1
  {
    hide Sv39.WordEnds, Vmsa.WordEnds, Sv39.Leaf, Aarch64Paging.Leaf;
    var a, b := Stop(0, Sv39.Leaf(permBits)(f)), Stop(0, Aarch64Paging.Leaf(permBits)(f));
    forall va: U64, acc: Access, p: Privilege
      ensures permBits % 2 == 1 ==> SameReading(a, b, va, acc, p)
      ensures permBits % 2 == 0 && acc.Load? && p.Kernel? ==> !SameReading(a, b, va, acc, p)
    {
      Sv39.LeafMeaning(f, permBits, va, acc, RiscvMode(p));
      Aarch64Paging.LeafMeaning(f, permBits, va, acc, ArmRegime(p));
    }
    var zero: U64 := 0;
    assert permBits % 2 == 0 ==> !SameReading(a, b, zero, Load, Kernel);
  }

  /** Identity gigapages read alike except to a user fetch from a kernel-only one. */
  lemma GigapagesAgree(gib: nat, user: bool, va: U64, acc: Access, p: Privilege)
    requires gib < 512
    ensures SameReading(Sv39.Gigapage(gib, user), Aarch64Paging.Block(gib, user), va, acc, p)
      <==> user || !(p.User? && acc.Fetch?)
  {
    hide Sv39.WordEnds, Vmsa.WordEnds, Sv39.Gigapage, Aarch64Paging.Block;
    Sv39.GigapageMeaning(gib, va, user, acc, RiscvMode(p));
    Aarch64Paging.BlockMeaning(gib, va, user, acc, ArmRegime(p));
  }

  /** Arguments on which both mappers mean the same: readable, below 2^40. */
  predicate Portable(c: Call) {
    Fits(c) && c.permBits % 2 == 1 && c.paddr + c.len <= 0x100_0000_0000
  }

  lemma CallsMatch(c: Call)
    requires Portable(c)
    ensures Matching(Related, BatchOf(Sv39.Leaf, c).requests, BatchOf(Aarch64Paging.Leaf, c).requests)
    ensures Matching(Related, CallRequests(Sv39.Leaf, c), CallRequests(Aarch64Paging.Leaf, c))
  {
    hide Agree, Sv39.Leaf, Aarch64Paging.Leaf, PathOf;
    var rs, qs := CallRequests(Sv39.Leaf, c), CallRequests(Aarch64Paging.Leaf, c);
    forall k | 0 <= k < |rs| ensures rs[k].path == qs[k].path && Related(Stop(0, rs[k].word), Stop(0, qs[k].word)) {
      LeavesAgree(c.permBits, c.paddr / 4096 + k);
    }
  }

  /** Ends that agree on whether a superpage is in the way, and no more. */
  ghost predicate Standing(a: End, b: End) {
    Covered(a) <==> Covered(b)
  }

  /** Both mappers ask for the same pages of a call, with related leaves. */
  ghost predicate Matched(e: Relation, c: Call) {
    Fits(c) && Matching(e, BatchOf(Sv39.Leaf, c).requests, BatchOf(Aarch64Paging.Leaf, c).requests)
  }

  ghost predicate AllMatched(e: Relation, calls: seq<Call>) {
    RespectsCover(e) && forall k | 0 <= k < |calls| :: Matched(e, calls[k])
  }

  lemma {:induction false} PortableMatched(calls: seq<Call>)
    requires AllPortable(calls)
    ensures AllMatched(Related, calls)
  {
    hide Related, Matching;
    RelatedRespectsCover();
    forall k | 0 <= k < |calls| ensures Matched(Related, calls[k]) {
      CallsMatch(calls[k]);
    }
  }

  /** Any permissions and addresses at all leave both mappers the same pages to map. */
  lemma {:induction false} FittingMatched(calls: seq<Call>)
    requires AllFit(calls)
    ensures AllMatched(Standing, calls)
  {
    hide Sv39.Leaf, Aarch64Paging.Leaf, PathOf;
  }

  /** One call in step: the same outcome and count, and corresponding tables. */
  lemma CallInStep(e: Relation, x: Side, y: Side, ownX: Owners, ownY: Owners, c: Call)
    requires x.codec == Sv39.Words() && y.codec == Aarch64Paging.Words() && RespectsCover(e) && Alike(e, x, y)
    requires Tree(x, ownX) && Tree(y, ownY) && Matched(e, c)
    requires Fresh(x.mem, ownX, Pool(c.poolBase / 4096, c.poolLen), 0)
    requires Fresh(y.mem, ownY, Pool(c.poolBase / 4096, c.poolLen), 0)
    ensures var b, d := BatchOf(Sv39.Leaf, c), BatchOf(Aarch64Paging.Leaf, c);
      var s, t := MapPages(x.codec, x.mem, 0, b.pool, x.root, b.requests), MapPages(y.codec, y.mem, 0, d.pool, y.root, d.requests);
      SameOutcome(s, t) && Alike(e, x.(mem := s.mem), y.(mem := t.mem))
  {
    hide Sv39.Words, Aarch64Paging.Words, Sv39.Leaf, Aarch64Paging.Leaf, Alike, Owned, Fresh, MapPages, Wanted, Leaves,
      RespectsCover, Matching, CallRequests, Lawful;
    Sv39.LeavesAreValid();
    Aarch64Paging.LeavesAreValid();
    CallWanted(x.codec, Sv39.Leaf, c);
    CallWanted(y.codec, Aarch64Paging.Leaf, c);
    SamePages(e, x, y, BatchOf(Sv39.Leaf, c).pool, BatchOf(Aarch64Paging.Leaf, c).pool, ownX, ownY,
              BatchOf(Sv39.Leaf, c).requests, BatchOf(Aarch64Paging.Leaf, c).requests);
  }

  ghost predicate AllPortable(calls: seq<Call>) {
    forall k | 0 <= k < |calls| :: Portable(calls[k])
  }

  /** One side after a run of calls. */
  function After(x: Side, words: U64 -> nat -> U64, calls: seq<Call>): Side {
    x.(mem := Run(x.codec, x.mem, x.root, Batches(words, calls)))
  }

  lemma {:induction false} RunKeeps(x: Side, words: U64 -> nat -> U64, own: Owners, calls: seq<Call>, c: Call)
    returns (own': Owners)
    requires Tree(x, own) && Leaves(x.codec, words) && AllFit(calls)
    requires SeparatePools(x.mem, own, Batches(words, calls + [c]))
    ensures SeparatePools(x.mem, own, Batches(words, calls))
    ensures Tree(After(x, words, calls), own')
    ensures Fresh(After(x, words, calls).mem, own', Pool(c.poolBase / 4096, c.poolLen), 0)
  {
    hide Owned, Lawful, Leaves, SeparatePools, Batches, Run, Wanted, Fresh, FromPools, SuperpagesKept, CallRequests;
    BatchesInit(words, calls, c);
    SeparateFewer(x.mem, own, Batches(words, calls + [c]));
    BatchesWanted(x.codec, words, calls);
    own' := RunKeepsTree(x.codec, x.mem, x.root, 3, own, Batches(words, calls));
    PoolUntouched(x.mem, own, Batches(words, calls + [c]), After(x, words, calls).mem, own');
  }

  lemma {:induction false} RunUnfolds(x: Side, words: U64 -> nat -> U64, calls: seq<Call>, c: Call)
    ensures var b := BatchOf(words, c);
      After(x, words, calls + [c])
        == x.(mem := MapPages(x.codec, After(x, words, calls).mem, 0, b.pool, x.root, b.requests).mem)
  {
    hide Batches, BatchOf, MapPages;
    BatchesInit(words, calls, c);
  }

  /** Any run of calls keeps the two sides corresponding. */
  lemma {:induction false} RunsInStep(e: Relation, x: Side, y: Side, ownX: Owners, ownY: Owners, calls: seq<Call>)
    requires x.codec == Sv39.Words() && y.codec == Aarch64Paging.Words() && Alike(e, x, y)
    requires Tree(x, ownX) && Tree(y, ownY) && AllMatched(e, calls)
    requires SeparatePools(x.mem, ownX, Batches(Sv39.Leaf, calls))
    requires SeparatePools(y.mem, ownY, Batches(Aarch64Paging.Leaf, calls))
    ensures Alike(e, After(x, Sv39.Leaf, calls), After(y, Aarch64Paging.Leaf, calls))
    decreases |calls|, 1
  {
    hide Sv39.Words, Aarch64Paging.Words, Alike, Tree, SeparatePools, Batches, MapPages, Fresh, Matched, Leaves, BatchOf,
      SameOutcome;
    if calls == [] {
      assert After(x, Sv39.Leaf, calls) == x && After(y, Aarch64Paging.Leaf, calls) == y;
    } else {
      var init, c := calls[..|calls| - 1], calls[|calls| - 1];
      assert calls == init + [c];
      StepInRun(e, x, y, ownX, ownY, init, c);
    }
  }

  /** After any run of calls, the next call gives the same answer on both sides and
      again leaves corresponding tables. */
  lemma {:induction false} StepInRun(e: Relation, x: Side, y: Side, ownX: Owners, ownY: Owners, calls: seq<Call>, c: Call)
    requires x.codec == Sv39.Words() && y.codec == Aarch64Paging.Words() && Alike(e, x, y)
    requires Tree(x, ownX) && Tree(y, ownY) && AllMatched(e, calls) && Matched(e, c)
    requires SeparatePools(x.mem, ownX, Batches(Sv39.Leaf, calls + [c]))
    requires SeparatePools(y.mem, ownY, Batches(Aarch64Paging.Leaf, calls + [c]))
    ensures var b, d := BatchOf(Sv39.Leaf, c), BatchOf(Aarch64Paging.Leaf, c);
      var x1, y1 := After(x, Sv39.Leaf, calls), After(y, Aarch64Paging.Leaf, calls);
      SameOutcome(MapPages(x.codec, x1.mem, 0, b.pool, x.root, b.requests),
                  MapPages(y.codec, y1.mem, 0, d.pool, y.root, d.requests))
    ensures Alike(e, After(x, Sv39.Leaf, calls + [c]), After(y, Aarch64Paging.Leaf, calls + [c]))
    decreases |calls|, 2
  {
    hide Sv39.Words, Aarch64Paging.Words, Alike, Tree, SeparatePools, Batches, MapPages, Fresh, Leaves,
      SameOutcome, Run, CallRequests, Matching, RespectsCover;
    Sv39.LeavesAreValid();
    Aarch64Paging.LeavesAreValid();
    var ownX' := RunKeeps(x, Sv39.Leaf, ownX, calls, c);
    var ownY' := RunKeeps(y, Aarch64Paging.Leaf, ownY, calls, c);
    RunsInStep(e, x, y, ownX, ownY, calls);
    CallInStep(e, After(x, Sv39.Leaf, calls), After(y, Aarch64Paging.Leaf, calls), ownX', ownY', c);
    RunUnfolds(x, Sv39.Leaf, calls, c);
    RunUnfolds(y, Aarch64Paging.Leaf, calls, c);
  }

  /** The identity tables of both architectures for the same arguments. */
  ghost predicate IdentityTables(x: Side, y: Side, gibs: nat, user: bool) {
    && x.codec == Sv39.Words() && y.codec == Aarch64Paging.Words()
    && x.root < |x.mem| <= Sv39.FRAMES && y.root < |y.mem| <= Aarch64Paging.OUTPUT_FRAMES
    && Sv39.IdentityRoot(x.mem[x.root], gibs, user) && Aarch64Paging.IdentityRoot(y.mem[y.root], gibs, user)
  }

  lemma IdentityTrees(x: Side, y: Side, gibs: nat, user: bool)
    requires IdentityTables(x, y, gibs, user)
    ensures Tree(x, Bare(x.root)) && Tree(y, Bare(y.root))
  {
    hide Bare, Sv39.IdentityRoot, Aarch64Paging.IdentityRoot, Sv39.Words, Aarch64Paging.Words;
    Sv39.WordsAreLawful(|x.mem|);
    Aarch64Paging.WordsAreLawful(|y.mem|);
    Sv39.IdentityOwned(x.mem, x.root, gibs, user);
    Aarch64Paging.IdentityOwned(y.mem, y.root, gibs, user);
  }

  lemma GigapagesRelated(gib: nat, user: bool)
    requires gib < 512
    ensures Related(Sv39.Gigapage(gib, user), Aarch64Paging.Block(gib, user))
  {
    hide Sv39.Gigapage, Aarch64Paging.Block, SameReading, Covered;
    if user {
      forall va: U64, acc: Access, p: Privilege
        ensures SameReading(Sv39.Gigapage(gib, user), Aarch64Paging.Block(gib, user), va, acc, p)
      {
        GigapagesAgree(gib, user, va, acc, p);
      }
    } else {
      assert BothIdentity(Sv39.Gigapage(gib, user), Aarch64Paging.Block(gib, user), gib, false);
    }
  }

  lemma FaultsRelated()
    ensures Related(Fault, Fault)
  {
  }

  lemma IdentityFindRelated(x: Side, y: Side, gibs: nat, user: bool, p: Path)
    requires IdentityTables(x, y, gibs, user) && |p| == 3
    ensures Related(Find(x.codec, x.mem, x.root, p), Find(y.codec, y.mem, y.root, p))
  {
    hide Related, Sv39.Words, Aarch64Paging.Words, Find, Sv39.IdentityRoot, Aarch64Paging.IdentityRoot,
      Sv39.Gigapage, Aarch64Paging.Block;
    Sv39.IdentityFind(x.mem, x.root, gibs, user, p);
    Aarch64Paging.IdentityFind(y.mem, y.root, gibs, user, p);
    FaultsRelated();
    GigapagesRelated(p[0], user);
  }

  lemma OneTable(root: nat)
    ensures Bare(root).Values == {[]}
  {
    assert Bare(root)[root] == [];
  }

  lemma IdentityReach(x: Side, y: Side, gibs: nat, user: bool, p: Path)
    requires IdentityTables(x, y, gibs, user) && |p| < 3
    ensures Reach(x.codec, x.mem, x.root, p).Some? <==> Reach(y.codec, y.mem, y.root, p).Some?
  {
    hide Sv39.Words, Aarch64Paging.Words, Sv39.IdentityRoot, Aarch64Paging.IdentityRoot, Owned, Reach;
    IdentityTrees(x, y, gibs, user);
    TablesAreOwned(x.codec, x.mem, x.root, 3, Bare(x.root), p);
    TablesAreOwned(y.codec, y.mem, y.root, 3, Bare(y.root), p);
    OneTable(x.root);
    OneTable(y.root);
  }

  lemma IdentityAlike(x: Side, y: Side, gibs: nat, user: bool)
    requires IdentityTables(x, y, gibs, user)
    ensures Alike(Related, x, y)
  {
    hide Related, IdentityTables, Find, Reach;
    forall p: Path | |p| < 3 ensures Reach(x.codec, x.mem, x.root, p).Some? <==> Reach(y.codec, y.mem, y.root, p).Some? {
      IdentityReach(x, y, gibs, user, p);
    }
    forall p: Path | |p| == 3 ensures Related(Find(x.codec, x.mem, x.root, p), Find(y.codec, y.mem, y.root, p)) {
      IdentityFindRelated(x, y, gibs, user, p);
    }
  }

  lemma RelatedStands(x: Side, y: Side)
    requires Alike(Related, x, y)
    ensures Alike(Standing, x, y)
  {
    hide Related, Find, Reach;
    RelatedRespectsCover();
  }

  /** From the identity tables of both architectures, after any run of calls: the
      next call returns the same number on both, whatever permissions and addresses any
      of them has. */
  lemma {:induction false} MappersAnswerAlike(x: Side, y: Side, gibs: nat, user: bool, calls: seq<Call>, c: Call)
    requires IdentityTables(x, y, gibs, user) && AllFit(calls) && Fits(c)
    requires SeparatePools(x.mem, Bare(x.root), Batches(Sv39.Leaf, calls + [c]))
    requires SeparatePools(y.mem, Bare(y.root), Batches(Aarch64Paging.Leaf, calls + [c]))
    ensures var x1, y1 := After(x, Sv39.Leaf, calls), After(y, Aarch64Paging.Leaf, calls);
      var pool := Pool(c.poolBase / 4096, c.poolLen);
      var s := MapPages(x.codec, x1.mem, 0, pool, x.root, BatchOf(Sv39.Leaf, c).requests);
      var t := MapPages(y.codec, y1.mem, 0, pool, y.root, BatchOf(Aarch64Paging.Leaf, c).requests);
      (s.status.Table? <==> t.status.Table?) && s.used == t.used
  {
    hide Alike, Tree, SeparatePools, Batches, MapPages, Run, Sv39.Words, Aarch64Paging.Words, Sv39.IdentityRoot,
      Aarch64Paging.IdentityRoot, Bare, CallRequests, Fits;
    IdentityTrees(x, y, gibs, user);
    IdentityAlike(x, y, gibs, user);
    RelatedStands(x, y);
    FittingMatched(calls);
    FittingMatched([c]);
    assert Matched(Standing, [c][0]);
    StepInRun(Standing, x, y, Bare(x.root), Bare(y.root), calls, c);
  }

  /** And every access below 2^38 is answered alike on both, after any run of calls,
      except a user fetch from the identity region when it is kernel-only. */
  lemma {:induction false} MappersTranslateAlike(x: Side, y: Side, gibs: nat, user: bool, calls: seq<Call>,
                                                 va: U64, acc: Access, p: Privilege)
    requires IdentityTables(x, y, gibs, user) && AllPortable(calls)
    requires SeparatePools(x.mem, Bare(x.root), Batches(Sv39.Leaf, calls))
    requires SeparatePools(y.mem, Bare(y.root), Batches(Aarch64Paging.Leaf, calls))
    requires va < 0x40_0000_0000
    ensures SameAccess(Sv39.Translate(After(x, Sv39.Leaf, calls).mem, x.root, va, acc, RiscvMode(p)),
                       Aarch64Paging.Translate(After(y, Aarch64Paging.Leaf, calls).mem, y.root, va, acc, ArmRegime(p)))
      <==> !(p.User? && acc.Fetch? && !user && va < gibs * 0x4000_0000)
  {
    hide Alike, Tree, SeparatePools, Batches, Run, Sv39.Words, Aarch64Paging.Words, Sv39.IdentityRoot, Find, PathOf,
      Aarch64Paging.IdentityRoot, Bare, Portable, Sv39.Translate, Aarch64Paging.Translate, RiscvMode, ArmRegime;
    if va < gibs * 0x4000_0000 {
      PortableFits(calls);
      Sv39.IdentityIsPermanent(x.mem, x.root, gibs, user, calls, va, acc, RiscvMode(p));
      Aarch64Paging.IdentityIsPermanent(y.mem, y.root, gibs, user, calls, va, acc, ArmRegime(p));
      IdentityGrants(user, acc, p);
    } else {
      AboveIdentity(x, y, gibs, user, calls, va, acc, p);
    }
  }

  lemma IdentityGrants(user: bool, acc: Access, p: Privilege)
    ensures (Sv39.Permits(true, true, true, user, acc, RiscvMode(p)) <==>
             Aarch64Paging.BlockPermits(user, acc, ArmRegime(p))) <==> user || !(p.User? && acc.Fetch?)
  {
  }

  lemma {:induction false} AboveIdentity(x: Side, y: Side, gibs: nat, user: bool, calls: seq<Call>,
                                         va: U64, acc: Access, p: Privilege)
    requires IdentityTables(x, y, gibs, user) && AllPortable(calls)
    requires SeparatePools(x.mem, Bare(x.root), Batches(Sv39.Leaf, calls))
    requires SeparatePools(y.mem, Bare(y.root), Batches(Aarch64Paging.Leaf, calls))
    requires gibs * 0x4000_0000 <= va < 0x40_0000_0000
    ensures SameAccess(Sv39.Translate(After(x, Sv39.Leaf, calls).mem, x.root, va, acc, RiscvMode(p)),
                       Aarch64Paging.Translate(After(y, Aarch64Paging.Leaf, calls).mem, y.root, va, acc, ArmRegime(p)))
  {
    hide Lawful, SeparatePools, Batches, Run, Sv39.Words, Aarch64Paging.Words, Sv39.IdentityRoot, Find, PathOf, Reach, Agree,
      Aarch64Paging.IdentityRoot, Bare, Portable, Sv39.Translate, Aarch64Paging.Translate, RiscvMode, ArmRegime, Owned;
    var path := PathOf(va / 4096);
    var x1, y1 := After(x, Sv39.Leaf, calls), After(y, Aarch64Paging.Leaf, calls);
    IdentityTrees(x, y, gibs, user);
    IdentityAlike(x, y, gibs, user);
    PortableMatched(calls);
    RunsInStep(Related, x, y, Bare(x.root), Bare(y.root), calls);
    var ownX := NoGigapage(x, gibs, user, calls, va);
    var ownY := ArmRun(y, calls);
    Sv39.TranslateFinds(x1.mem, x.root, ownX, va, acc, RiscvMode(p));
    Aarch64Paging.TranslateFinds(y1.mem, y.root, ownY, va, acc, ArmRegime(p));
    assert Related(Find(x.codec, x1.mem, x.root, path), Find(y.codec, y1.mem, y.root, path));
    AgreeThere(Find(x.codec, x1.mem, x.root, path), Find(y.codec, y1.mem, y.root, path), va, acc, p);
  }

  lemma AgreeThere(a: End, b: End, va: U64, acc: Access, p: Privilege)
    requires Related(a, b) && !Covered(a)
    ensures SameReading(a, b, va, acc, p)
  {
    hide SameReading;
  }

  /** Above the identity region no gigapage ever stands. */
  lemma {:induction false} NoGigapage(x: Side, gibs: nat, user: bool, calls: seq<Call>, va: U64)
    returns (own': Owners)
    requires x.codec == Sv39.Words() && x.root < |x.mem| <= Sv39.FRAMES
    requires Sv39.IdentityRoot(x.mem[x.root], gibs, user) && Tree(x, Bare(x.root)) && AllPortable(calls)
    requires SeparatePools(x.mem, Bare(x.root), Batches(Sv39.Leaf, calls))
    requires gibs * 0x4000_0000 <= va < 0x40_0000_0000
    ensures |After(x, Sv39.Leaf, calls).mem| == |x.mem| && Tree(After(x, Sv39.Leaf, calls), own')
    ensures !Covered(Find(x.codec, After(x, Sv39.Leaf, calls).mem, x.root, PathOf(va / 4096)))
  {
    hide Lawful, Owned, SeparatePools, Batches, Run, Sv39.Words, Sv39.IdentityRoot, Find, PathOf, Bare, Portable, FromPools,
      Leaves, Wanted;
    var path := PathOf(va / 4096);
    FirstIndex(va);
    Sv39.IdentityFind(x.mem, x.root, gibs, user, path);
    Sv39.LeavesAreValid();
    PortableFits(calls);
    BatchesWanted(x.codec, Sv39.Leaf, calls);
    own' := RunKeepsTree(x.codec, x.mem, x.root, 3, Bare(x.root), Batches(Sv39.Leaf, calls));
    assert |path| == 3;
    assert KeptThere(x.codec, x.mem, x.root, path, After(x, Sv39.Leaf, calls).mem);
  }

  lemma {:induction false} PortableFits(calls: seq<Call>)
    requires AllPortable(calls)
    ensures AllFit(calls)
  {
  }

  lemma {:induction false} ArmRun(y: Side, calls: seq<Call>)
    returns (own': Owners)
    requires y.codec == Aarch64Paging.Words() && Tree(y, Bare(y.root)) && AllPortable(calls)
    requires SeparatePools(y.mem, Bare(y.root), Batches(Aarch64Paging.Leaf, calls))
    ensures |After(y, Aarch64Paging.Leaf, calls).mem| == |y.mem| && Tree(After(y, Aarch64Paging.Leaf, calls), own')
  {
    hide Lawful, Owned, SeparatePools, Batches, Run, Aarch64Paging.Words, Bare, Portable, FromPools, Leaves, Wanted,
      SuperpagesKept;
    Aarch64Paging.LeavesAreValid();
    PortableFits(calls);
    BatchesWanted(y.codec, Aarch64Paging.Leaf, calls);
    own' := RunKeepsTree(y.codec, y.mem, y.root, 3, Bare(y.root), Batches(Aarch64Paging.Leaf, calls));
  }
}
