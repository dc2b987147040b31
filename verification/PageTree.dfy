/** Translation tables as a tree of 512-word frames in physical memory, and the
    one algorithm every mapper of this kernel runs on it: descend through the
    upper levels, link a pool frame wherever a table is missing, write the leaf.

    The module is generic in the word format (`Codec`) and in the number of
    levels (the length of the paths). Memory is read and written totally: a
    frame outside memory reads as zero and ignores writes, so that no function
    here needs the tree to be well formed; `Owned` is the well-formedness, and
    it is what keeps every access in bounds. */
module PageTree {
  import opened Bits
  import opened Options

  type Index = n: nat | n < 512
  type Path = seq<Index>
  type Frame = s: seq<U64> | |s| == 512 witness seq(512, _ => 0)
  type Memory = seq<Frame>

  ghost predicate Zeroed(m: Memory, f: nat) {
    forall i: Index :: Get(m, f, i) == 0
  }

  /** How one architecture reads and writes the words of its tables. `next` and
      `table` speak of frame numbers. */
  datatype Codec = Codec(valid: U64 -> bool, block: U64 -> bool, next: U64 -> nat, table: nat -> U64)

  ghost predicate Lawful(c: Codec, frames: nat) {
    && !c.valid(0)
    && forall t: nat | t < frames :: Points(c, c.table(t)) && c.next(c.table(t)) == t
  }

  predicate Points(c: Codec, e: U64) {
    c.valid(e) && !c.block(e)
  }

  function Get(m: Memory, f: nat, i: Index): U64 {
    if f < |m| then m[f][i] else 0
  }

  function Put(m: Memory, f: nat, i: Index, e: U64): (m': Memory)
    ensures |m'| == |m|
  {
    if f < |m| then m[f := m[f][i := e]] else m
  }

  // ---------------------------------------------------------------------------
  // Reading a tree
  // ---------------------------------------------------------------------------

  /** Where a walk ends: on nothing, or on a word that translates, with the
      number of levels still below it (0 for a 4 KiB page). */
  datatype End = Fault | Stop(below: nat, word: U64)

  function Find(c: Codec, m: Memory, f: nat, path: Path): End
    requires path != []
    decreases |path|
  {
    var e := Get(m, f, path[0]);
    if !c.valid(e) then Fault
    else if |path| == 1 || c.block(e) then Stop(|path| - 1, e)
    else Find(c, m, c.next(e), path[1..])
  }

  /** The table at `path` below `f`, if the pointers to it exist. */
  function Reach(c: Codec, m: Memory, f: nat, path: Path): Option<nat>
    decreases |path|
  {
    if path == [] then Some(f)
    else
      var e := Get(m, f, path[0]);
      if Points(c, e) then Reach(c, m, c.next(e), path[1..]) else None
  }

  // ---------------------------------------------------------------------------
  // Building a tree
  // ---------------------------------------------------------------------------

  /** Frames `base .. base + len`, handed out in order. */
  datatype Pool = Pool(base: nat, len: nat)

  datatype Status = Table(frame: nat) | Blocked | Exhausted

  datatype Step = Step(mem: Memory, used: nat, status: Status)

  function Descend(c: Codec, m: Memory, used: nat, pool: Pool, f: nat, path: Path): Step
    decreases |path|
  {
    if path == [] then Step(m, used, Table(f))
    else
      var e := Get(m, f, path[0]);
      if !c.valid(e) then
        if used >= pool.len then Step(m, used, Exhausted)
        else
          var t := pool.base + used;
          Descend(c, Put(m, f, path[0], c.table(t)), used + 1, pool, t, path[1..])
      else if c.block(e) then Step(m, used, Blocked)
      else Descend(c, m, used, pool, c.next(e), path[1..])
  }

  /** A page to map: its full path and its leaf word. */
  datatype PageRequest = Request(path: Path, word: U64)
  type Request = r: PageRequest | r.path != [] witness Request([0], 0)

  function MapPage(c: Codec, m: Memory, used: nat, pool: Pool, root: nat, r: Request): Step
  {
    var top := |r.path| - 1;
    var d := Descend(c, m, used, pool, root, r.path[..top]);
    if d.status.Table? then d.(mem := Put(d.mem, d.status.frame, r.path[top], r.word)) else d
  }

  /** The requests in order, stopping at the first that fails. */
  function MapPages(c: Codec, m: Memory, used: nat, pool: Pool, root: nat, rs: seq<Request>): Step
  {
    if rs == [] then Step(m, used, Table(root))
    else
      var s := MapPages(c, m, used, pool, root, rs[..|rs| - 1]);
      if s.status.Table? then MapPage(c, s.mem, s.used, pool, root, rs[|rs| - 1]) else s
  }

  // ---------------------------------------------------------------------------
  // Well-formed trees: every frame has one owner path
  // ---------------------------------------------------------------------------

  type Owners = map<nat, Path>

  /** `own` names the table frames and the path each is linked at. Since it is a
      map, no frame is reachable at two paths. */
  ghost predicate Owned(c: Codec, m: Memory, root: nat, depth: nat, own: Owners) {
    && root in own && own[root] == []
    && Closed(c, m, depth, own)
    && forall f | f in own :: f < |m| && |own[f]| < depth && Reach(c, m, root, own[f]) == Some(f)
  }

  /** The pointers of an owned table are plain table words and lead to owned
      tables, one step further on. */
  ghost predicate Closed(c: Codec, m: Memory, depth: nat, own: Owners) {
    forall f, i: Index | f in own && |own[f]| + 1 < depth && Points(c, Get(m, f, i)) ::
      && c.next(Get(m, f, i)) in own
      && own[c.next(Get(m, f, i))] == own[f] + [i]
      && Get(m, f, i) == c.table(c.next(Get(m, f, i)))
  }

  /** The pool frames not yet handed out exist, are zero and are no tables. */
  ghost predicate Fresh(m: Memory, own: Owners, pool: Pool, used: nat) {
    forall t | pool.base + used <= t < pool.base + pool.len :: Free(m, own, t)
  }

  ghost predicate Free(m: Memory, own: Owners, t: nat) {
    t < |m| && t !in own && Zeroed(m, t)
  }

  /** A table stands at `path` exactly when some frame is owned there. */
  lemma {:induction false} ReachIsOwned(c: Codec, m: Memory, depth: nat, own: Owners, f: nat, path: Path)
    requires Closed(c, m, depth, own) && f in own && |own[f]| + |path| < depth
    ensures var r := Reach(c, m, f, path);
      r.Some? ==> r.value in own && own[r.value] == own[f] + path
    decreases |path|
  {
    if path == [] {
      assert own[f] + path == own[f];
    } else if Points(c, Get(m, f, path[0])) {
      var g := c.next(Get(m, f, path[0]));
      ReachIsOwned(c, m, depth, own, g, path[1..]);
      assert own[f] + path == own[g] + path[1..];
    }
  }

  lemma {:induction false} ReachAppend(c: Codec, m: Memory, f: nat, p: Path, q: Path)
    requires Reach(c, m, f, p).Some?
    ensures Reach(c, m, f, p + q) == Reach(c, m, Reach(c, m, f, p).value, q)
    decreases |p|
  {
    if p == [] {
      assert p + q == q;
    } else {
      assert (p + q)[1..] == p[1..] + q;
      ReachAppend(c, m, c.next(Get(m, f, p[0])), p[1..], q);
    }
  }

  lemma {:induction false} FindThrough(c: Codec, m: Memory, f: nat, p: Path, q: Path)
    requires Reach(c, m, f, p).Some? && q != []
    ensures Find(c, m, f, p + q) == Find(c, m, Reach(c, m, f, p).value, q)
    decreases |p|
  {
    if p == [] {
      assert p + q == q;
    } else {
      assert (p + q)[1..] == p[1..] + q;
      FindThrough(c, m, c.next(Get(m, f, p[0])), p[1..], q);
    }
  }

  // ---------------------------------------------------------------------------
  // The two writes the algorithm makes
  // ---------------------------------------------------------------------------

  /** Linking a zero frame into an empty slot above the last level changes no walk. */
  lemma {:induction false} LinkKeepsFind(c: Codec, m: Memory, depth: nat, own: Owners,
                                         f: nat, i: Index, t: nat, g: nat, path: Path)
    requires Lawful(c, |m|) && Closed(c, m, depth, own)
    requires f in own && |own[f]| + 1 < depth && !c.valid(Get(m, f, i))
    requires t < |m| && t !in own && Zeroed(m, t)
    requires g in own && path != [] && |own[g]| + |path| == depth
    ensures Find(c, Put(m, f, i, c.table(t)), g, path) == Find(c, m, g, path)
    decreases |path|
  {
    var m' := Put(m, f, i, c.table(t));
    var e := Get(m, g, path[0]);
    if g == f && path[0] == i {
      assert Get(m, t, path[1..][0]) == 0;
    } else if Points(c, e) && |path| > 1 {
      LinkKeepsFind(c, m, depth, own, f, i, t, c.next(e), path[1..]);
    }
  }

  /** Writing a slot that held no pointer keeps every table where it was. */
  lemma {:induction false} PutKeepsReach(c: Codec, m: Memory, f: nat, i: Index, e: U64, g: nat, path: Path)
    requires !Points(c, Get(m, f, i)) && Reach(c, m, g, path).Some?
    ensures Reach(c, Put(m, f, i, e), g, path) == Reach(c, m, g, path)
    decreases |path|
  {
    if path != [] {
      PutKeepsReach(c, m, f, i, e, c.next(Get(m, g, path[0])), path[1..]);
    }
  }

  lemma LinkOwned(c: Codec, m: Memory, root: nat, depth: nat, own: Owners, f: nat, i: Index, t: nat)
    requires Lawful(c, |m|) && Owned(c, m, root, depth, own)
    requires f in own && |own[f]| + 1 < depth && !c.valid(Get(m, f, i))
    requires t < |m| && t !in own && Zeroed(m, t)
    ensures Owned(c, Put(m, f, i, c.table(t)), root, depth, own[t := own[f] + [i]])
    ensures own[f] + [i] !in own.Values
  {
    var m', own' := Put(m, f, i, c.table(t)), own[t := own[f] + [i]];
    forall g | g in own ensures Reach(c, m', root, own[g]) == Some(g) {
      PutKeepsReach(c, m, f, i, c.table(t), root, own[g]);
    }
    ReachAppend(c, m, root, own[f], [i]);
    ReachAppend(c, m', root, own[f], [i]);
    assert Reach(c, m', f, [i]) == Some(t);
    assert Reach(c, m, root, own[f] + [i]) == None;
    forall j: Index ensures !Points(c, Get(m', t, j)) {
      assert Get(m, t, j) == 0;
    }
    forall g, j: Index | g in own' && |own'[g]| + 1 < depth && Points(c, Get(m', g, j))
      ensures c.next(Get(m', g, j)) in own' && own'[c.next(Get(m', g, j))] == own'[g] + [j]
      ensures Get(m', g, j) == c.table(c.next(Get(m', g, j)))
    {
      if g != f || j != i {
        assert Get(m', g, j) == Get(m, g, j);
      }
    }
  }

  /** Writing a leaf changes the walk of that page and of no other. */
  lemma {:induction false} LeafKeepsFind(c: Codec, m: Memory, depth: nat, own: Owners,
                                         f: nat, i: Index, e: U64, g: nat, path: Path)
    requires Closed(c, m, depth, own)
    requires f in own && |own[f]| + 1 == depth
    requires g in own && path != [] && |own[g]| + |path| == depth
    requires own[g] + path != own[f] + [i]
    ensures Find(c, Put(m, f, i, e), g, path) == Find(c, m, g, path)
    decreases |path|
  {
    var w := Get(m, g, path[0]);
    if |path| == 1 {
      assert path == [path[0]];
      assert g != f || path[0] != i;
      assert Get(Put(m, f, i, e), g, path[0]) == w;
    } else {
      assert g != f;
      assert Get(Put(m, f, i, e), g, path[0]) == w;
      if Points(c, w) {
        assert own[c.next(w)] == own[g] + [path[0]];
        assert own[c.next(w)] + path[1..] == own[g] + path;
        LeafKeepsFind(c, m, depth, own, f, i, e, c.next(w), path[1..]);
      }
    }
  }

  lemma {:induction false} LeafKeepsReach(c: Codec, m: Memory, depth: nat, own: Owners,
                                          f: nat, i: Index, e: U64, g: nat, path: Path)
    requires Closed(c, m, depth, own)
    requires f in own && |own[f]| + 1 == depth && g in own && |own[g]| + |path| < depth
    ensures Reach(c, Put(m, f, i, e), g, path) == Reach(c, m, g, path)
    decreases |path|
  {
    if path != [] && Points(c, Get(m, g, path[0])) {
      LeafKeepsReach(c, m, depth, own, f, i, e, c.next(Get(m, g, path[0])), path[1..]);
    }
  }

  lemma LeafOwned(c: Codec, m: Memory, root: nat, depth: nat, own: Owners, f: nat, i: Index, e: U64)
    requires Owned(c, m, root, depth, own) && f in own && |own[f]| + 1 == depth
    ensures Owned(c, Put(m, f, i, e), root, depth, own)
  {
    forall g | g in own ensures Reach(c, Put(m, f, i, e), root, own[g]) == Some(g) {
      LeafKeepsReach(c, m, depth, own, f, i, e, root, own[g]);
    }
    forall g, j: Index | g in own && |own[g]| + 1 < depth
      ensures Get(Put(m, f, i, e), g, j) == Get(m, g, j)
    {
    }
  }

  // ---------------------------------------------------------------------------
  // Descending
  // ---------------------------------------------------------------------------

  /** The table paths a walk from `base` along `path` passes. */
  ghost function Passed(base: Path, path: Path): set<Path> {
    set k | 0 < k <= |path| :: base + path[..k]
  }

  lemma PassedStep(base: Path, path: Path)
    requires path != []
    ensures Passed(base, path) == {base + [path[0]]} + Passed(base + [path[0]], path[1..])
  {
    var step := base + [path[0]];
    forall p | p in Passed(step, path[1..]) ensures p in Passed(base, path) {
      var k :| 0 < k <= |path| - 1 && p == step + path[1..][..k];
      assert [path[0]] + path[1..][..k] == path[..k + 1];
      assert p == base + path[..k + 1];
    }
    forall p | p in Passed(base, path) ensures p == step || p in Passed(step, path[1..]) {
      var k :| 0 < k <= |path| && p == base + path[..k];
      if k == 1 {
        assert path[..1] == [path[0]];
      } else {
        assert [path[0]] + path[1..][..k - 1] == path[..k];
        assert p == step + path[1..][..k - 1];
      }
    }
    assert step == base + path[..1];
  }

  /** Everything but the frames of `own` is as it was. */
  ghost predicate OnlyTables(m: Memory, m': Memory, own: Owners) {
    && |m'| == |m|
    && forall f | 0 <= f < |m| && f !in own :: m'[f] == m[f]
  }

  /** A superpage word translates the address. */
  predicate Covered(e: End) {
    e.Stop? && e.below > 0
  }

  /** `own` grew by pool frames `used .. used'` only, and nothing but tables was written. */
  ghost predicate Grown(c: Codec, m: Memory, used: nat, pool: Pool, root: nat, depth: nat, own: Owners,
                        m': Memory, used': nat, own': Owners) {
    && Owned(c, m', root, depth, own') && Fresh(m', own', pool, used')
    && OnlyTables(m, m', own')
    && used <= used'
    && (forall g | g in own :: g in own' && own'[g] == own[g])
    && (forall g | g in own' :: g in own || pool.base + used <= g < pool.base + used')
    && (forall g | pool.base + used <= g < pool.base + used' :: g in own')
  }

  /** Every full-length walk from a table of `own` ends as before. */
  ghost predicate SameWalks(c: Codec, m: Memory, depth: nat, own: Owners, m': Memory) {
    forall g, p: Path | g in own && p != [] && |own[g]| + |p| == depth ::
      Find(c, m', g, p) == Find(c, m, g, p)
  }

  /** A descent that ran dry linked the first `n` missing tables of its path. */
  ghost predicate Partly(own: Owners, base: Path, path: Path, n: int, own': Owners) {
    exists j :: 0 <= j <= |path| && LinkedTo(own, base, path[..j], n, own')
  }

  ghost predicate LinkedTo(own: Owners, base: Path, path: Path, n: int, own': Owners) {
    own'.Values == own.Values + Passed(base, path) && |Passed(base, path) - own.Values| == n
  }

  lemma PrefixTail(path: Path, j: nat)
    requires j < |path|
    ensures path[..j + 1] != [] && path[..j + 1][0] == path[0] && path[..j + 1][1..] == path[1..][..j]
  {
  }

  lemma PartlyLinked(own: Owners, own1: Owners, t: nat, base: Path, path: Path, n: int, own': Owners)
    requires path != [] && t !in own && own1 == own[t := base + [path[0]]]
    requires base + [path[0]] !in own.Values
    requires Partly(own1, base + [path[0]], path[1..], n, own')
    ensures Partly(own, base, path, n + 1, own')
  {
    hide Passed;
    var j :| 0 <= j <= |path[1..]| && LinkedTo(own1, base + [path[0]], path[1..][..j], n, own');
    PrefixTail(path, j);
    MissingStep(own, own1, t, base, path[..j + 1]);
    assert LinkedTo(own, base, path[..j + 1], n + 1, own');
  }

  lemma PartlyFollowed(own: Owners, base: Path, path: Path, n: int, own': Owners)
    requires path != [] && base + [path[0]] in own.Values
    requires Partly(own, base + [path[0]], path[1..], n, own')
    ensures Partly(own, base, path, n, own')
  {
    hide Passed;
    var step := base + [path[0]];
    var j :| 0 <= j <= |path[1..]| && LinkedTo(own, step, path[1..][..j], n, own');
    PrefixTail(path, j);
    PassedStep(base, path[..j + 1]);
    AlreadyThere(Passed(base, path[..j + 1]), step, Passed(step, path[1..][..j]), own.Values);
    assert LinkedTo(own, base, path[..j + 1], n, own');
  }

  lemma AlreadyThere<T>(all: set<T>, x: T, rest: set<T>, v: set<T>)
    requires all == {x} + rest && x in v
    ensures all - v == rest - v && v + all == v + rest
  {
  }

  lemma PartlyStopped(own: Owners, base: Path, path: Path)
    ensures Partly(own, base, path, 0, own)
  {
    assert Passed(base, path[..0]) == {};
    assert LinkedTo(own, base, path[..0], 0, own);
  }

  /** The outcome of a descent, decided by the tree it started from: refused iff a
      superpage is in the way, and otherwise as many frames as tables were missing,
      if the pool holds that many. */
  ghost predicate Counted(c: Codec, m: Memory, used: nat, pool: Pool, own: Owners, f: nat, path: Path,
                          s: Step, own': Owners)
    requires f in own
  {
    var missing := Passed(own[f], path) - own.Values;
    && (forall i: Index :: s.status.Blocked? <==> Covered(Find(c, m, f, path + [i])))
    && match s.status
       case Table(t) =>
         && t in own' && own'[t] == own[f] + path
         && own'.Values == own.Values + Passed(own[f], path)
         && s.used - used == |missing|
         && s.used <= pool.len
       case Exhausted =>
         && Partly(own, own[f], path, s.used - used, own')
         && s.used == pool.len
         && s.used - used < |missing|
       case Blocked =>
         s.mem == m && s.used == used && own' == own
  }

  lemma NothingBelowZero(c: Codec, m: Memory, t: nat, path: Path)
    requires Zeroed(m, t) && !c.valid(0)
    ensures forall i: Index :: !Covered(Find(c, m, t, path + [i]))
  {
    forall i: Index ensures !Covered(Find(c, m, t, path + [i])) {
      assert Get(m, t, (path + [i])[0]) == 0;
    }
  }

  lemma NotOwned(c: Codec, m: Memory, root: nat, depth: nat, own: Owners, f: nat, i: Index)
    requires Owned(c, m, root, depth, own) && f in own && !Points(c, Get(m, f, i))
    ensures own[f] + [i] !in own.Values
  {
    ReachAppend(c, m, root, own[f], [i]);
  }

  lemma MissingStep(own: Owners, own1: Owners, t: nat, base: Path, path: Path)
    requires path != [] && t !in own && own1 == own[t := base + [path[0]]]
    requires base + [path[0]] !in own.Values
    ensures |Passed(base, path) - own.Values| == 1 + |Passed(base + [path[0]], path[1..]) - own1.Values|
    ensures own1.Values + Passed(base + [path[0]], path[1..]) == own.Values + Passed(base, path)
  {
    var step := base + [path[0]];
    PassedStep(base, path);
    PassedLonger(step, path[1..]);
    ValuesExtend(own, t, step);
    OneMore(Passed(base, path), step, Passed(step, path[1..]), own.Values);
  }

  lemma PassedLonger(base: Path, path: Path)
    ensures base !in Passed(base, path)
  {
    forall p | p in Passed(base, path) ensures |p| > |base| {
      var k :| 0 < k <= |path| && p == base + path[..k];
    }
  }

  lemma OneMore<T>(all: set<T>, x: T, rest: set<T>, v: set<T>)
    requires all == {x} + rest && x !in rest && x !in v
    ensures |all - v| == 1 + |rest - (v + {x})|
    ensures v + {x} + rest == v + all
  {
    assert all - v == {x} + (rest - (v + {x}));
  }

  lemma ValuesExtend(own: Owners, t: nat, p: Path)
    requires t !in own
    ensures own[t := p].Values == own.Values + {p}
  {
    var own1 := own[t := p];
    assert own1[t] == p;
    forall q | q in own.Values ensures q in own1.Values {
      var g :| g in own && own[g] == q;
      assert own1[g] == q;
    }
  }

  /** A descent that starts by linking the next pool frame `t` at `path[0]`. */
  lemma CountedLinked(c: Codec, m: Memory, used: nat, pool: Pool, own: Owners, f: nat, path: Path,
                      t: nat, m1: Memory, own1: Owners, s: Step, own': Owners)
    requires f in own && path != [] && own[f] + [path[0]] !in own.Values && !c.valid(Get(m, f, path[0]))
    requires t !in own && own1 == own[t := own[f] + [path[0]]] && Zeroed(m1, t) && !c.valid(0)
    requires used < pool.len
    requires Counted(c, m1, used + 1, pool, own1, t, path[1..], s, own')
    ensures Counted(c, m, used, pool, own, f, path, s, own')
  {
    hide Partly;
    MissingStep(own, own1, t, own[f], path);
    if s.status.Exhausted? {
      PartlyLinked(own, own1, t, own[f], path, s.used - used - 1, own');
    }
    assert own[f] + path == own1[t] + path[1..];
    ZeroNeverBlocks(c, m1, used + 1, pool, own1, t, path[1..], s, own');
    assert forall i: Index :: (path + [i])[0] == path[0];
  }

  lemma ZeroNeverBlocks(c: Codec, m: Memory, used: nat, pool: Pool, own: Owners, t: nat, path: Path, s: Step, own': Owners)
    requires t in own && Zeroed(m, t) && !c.valid(0) && Counted(c, m, used, pool, own, t, path, s, own')
    ensures !s.status.Blocked?
  {
    NothingBelowZero(c, m, t, path);
    var zero: Index := 0;
    assert !Covered(Find(c, m, t, path + [zero]));
  }

  /** A descent that starts by following the pointer at `path[0]`. */
  lemma CountedFollowed(c: Codec, m: Memory, used: nat, pool: Pool,
                        own: Owners, f: nat, path: Path, g: nat, s: Step, own': Owners)
    requires f in own && path != [] && Points(c, Get(m, f, path[0]))
    requires g == c.next(Get(m, f, path[0])) && g in own && own[g] == own[f] + [path[0]]
    requires Counted(c, m, used, pool, own, g, path[1..], s, own')
    ensures Counted(c, m, used, pool, own, f, path, s, own')
  {
    hide Partly, Passed, Find, Covered;
    PassedStep(own[f], path);
    if s.status.Exhausted? {
      PartlyFollowed(own, own[f], path, s.used - used, own');
    }
    assert Passed(own[f], path) - own.Values == Passed(own[g], path[1..]) - own.Values;
    assert own.Values + Passed(own[f], path) == own.Values + Passed(own[g], path[1..]);
    assert own[f] + path == own[g] + path[1..];
    FindFollows(c, m, f, path);
  }

  lemma FindFollows(c: Codec, m: Memory, f: nat, path: Path)
    requires path != [] && Points(c, Get(m, f, path[0]))
    ensures forall i: Index :: Find(c, m, f, path + [i]) == Find(c, m, c.next(Get(m, f, path[0])), path[1..] + [i])
  {
    forall i: Index ensures Find(c, m, f, path + [i]) == Find(c, m, c.next(Get(m, f, path[0])), path[1..] + [i]) {
      assert (path + [i])[1..] == path[1..] + [i];
    }
  }

  /** A descent that cannot take its first step. */
  lemma CountedStopped(c: Codec, m: Memory, used: nat, pool: Pool, root: nat, depth: nat,
                       own: Owners, f: nat, path: Path)
    requires Owned(c, m, root, depth, own) && f in own && path != []
    requires used <= pool.len
    requires if c.valid(Get(m, f, path[0])) then c.block(Get(m, f, path[0])) else used == pool.len
    ensures Counted(c, m, used, pool, own, f, path, Descend(c, m, used, pool, f, path), own)
  {
    hide Partly, Passed, Find, Owned, Covered;
    NotOwned(c, m, root, depth, own, f, path[0]);
    PartlyStopped(own, own[f], path);
    PassedStep(own[f], path);
    assert own[f] + [path[0]] in Passed(own[f], path) - own.Values;
    assert |Passed(own[f], path) - own.Values| > 0;
    CoveredAtOnce(c, m, f, path);
  }

  lemma CoveredAtOnce(c: Codec, m: Memory, f: nat, path: Path)
    requires path != [] && !Points(c, Get(m, f, path[0]))
    ensures forall i: Index :: Covered(Find(c, m, f, path + [i])) <==> c.valid(Get(m, f, path[0]))
  {
    assert forall i: Index :: (path + [i])[0] == path[0];
  }

  lemma LinkGrown(c: Codec, m: Memory, used: nat, pool: Pool, root: nat, depth: nat, own: Owners, f: nat, i: Index)
    returns (t: nat, m1: Memory, own1: Owners)
    requires Lawful(c, |m|) && Owned(c, m, root, depth, own) && Fresh(m, own, pool, used)
    requires f in own && |own[f]| + 1 < depth && !c.valid(Get(m, f, i)) && used < pool.len
    ensures t == pool.base + used && m1 == Put(m, f, i, c.table(t)) && own1 == own[t := own[f] + [i]]
    ensures t < |m| && t !in own && own[f] + [i] !in own.Values && Zeroed(m1, t)
    ensures Grown(c, m, used, pool, root, depth, own, m1, used + 1, own1)
    ensures SameWalks(c, m, depth, own, m1)
  {
    t := pool.base + used;
    assert Free(m, own, t);
    m1, own1 := Put(m, f, i, c.table(t)), own[t := own[f] + [i]];
    LinkOwned(c, m, root, depth, own, f, i, t);
    LinkFresh(m, own, pool, used, f, i, c.table(t), own1);
    StaysZero(m, f, i, c.table(t), t);
    LinkWalks(c, m, depth, own, f, i, t);
    hide *;
    OneFrameGrown(c, m, used, pool, root, depth, own, f, i, t);
  }

  lemma LinkWalks(c: Codec, m: Memory, depth: nat, own: Owners, f: nat, i: Index, t: nat)
    requires Lawful(c, |m|) && Closed(c, m, depth, own)
    requires f in own && |own[f]| + 1 < depth && !c.valid(Get(m, f, i))
    requires t < |m| && t !in own && Zeroed(m, t)
    ensures SameWalks(c, m, depth, own, Put(m, f, i, c.table(t)))
  {
    forall g, p: Path | g in own && p != [] && |own[g]| + |p| == depth
      ensures Find(c, Put(m, f, i, c.table(t)), g, p) == Find(c, m, g, p)
    {
      LinkKeepsFind(c, m, depth, own, f, i, t, g, p);
    }
  }

  lemma OneFrameGrown(c: Codec, m: Memory, used: nat, pool: Pool, root: nat, depth: nat, own: Owners,
                      f: nat, i: Index, t: nat)
    requires f in own && t == pool.base + used && t !in own
    requires Owned(c, Put(m, f, i, c.table(t)), root, depth, own[t := own[f] + [i]])
    requires Fresh(Put(m, f, i, c.table(t)), own[t := own[f] + [i]], pool, used + 1)
    ensures Grown(c, m, used, pool, root, depth, own, Put(m, f, i, c.table(t)), used + 1, own[t := own[f] + [i]])
  {
    hide Owned, Fresh;
  }

  lemma GrownThen(c: Codec, m: Memory, used: nat, pool: Pool, root: nat, depth: nat, own: Owners,
                  m1: Memory, used1: nat, own1: Owners, m2: Memory, used2: nat, own2: Owners)
    requires Grown(c, m, used, pool, root, depth, own, m1, used1, own1) && SameWalks(c, m, depth, own, m1)
    requires Grown(c, m1, used1, pool, root, depth, own1, m2, used2, own2) && SameWalks(c, m1, depth, own1, m2)
    ensures Grown(c, m, used, pool, root, depth, own, m2, used2, own2) && SameWalks(c, m, depth, own, m2)
  {
    forall g, p: Path | g in own && p != [] && |own[g]| + |p| == depth
      ensures Find(c, m2, g, p) == Find(c, m, g, p)
    {
      assert g in own1 && own1[g] == own[g];
      assert Find(c, m1, g, p) == Find(c, m, g, p);
    }
  }

  lemma {:induction false} DescendKeeps(c: Codec, m: Memory, used: nat, pool: Pool, root: nat, depth: nat,
                                        own: Owners, f: nat, path: Path)
    returns (own': Owners)
    requires Lawful(c, |m|) && Owned(c, m, root, depth, own) && Fresh(m, own, pool, used)
    requires f in own && |own[f]| + |path| < depth && used <= pool.len
    ensures var s := Descend(c, m, used, pool, f, path);
      && Grown(c, m, used, pool, root, depth, own, s.mem, s.used, own')
      && SameWalks(c, m, depth, own, s.mem)
      && Counted(c, m, used, pool, own, f, path, s, own')
    decreases |path|, 1
  {
    if path == [] {
      own' := own;
      assert Passed(own[f], path) == {};
      assert own[f] + path == own[f];
      assert forall i: Index :: path + [i] == [i];
    } else if Points(c, Get(m, f, path[0])) {
      var e := Get(m, f, path[0]);
      own' := DescendKeeps(c, m, used, pool, root, depth, own, c.next(e), path[1..]);
      var s := Descend(c, m, used, pool, f, path);
      CountedFollowed(c, m, used, pool, own, f, path, c.next(e), s, own');
    } else if !c.valid(Get(m, f, path[0])) && used < pool.len {
      own' := DescendLinks(c, m, used, pool, root, depth, own, f, path);
    } else {
      own' := own;
      CountedStopped(c, m, used, pool, root, depth, own, f, path);
    }
  }

  lemma {:induction false} DescendLinks(c: Codec, m: Memory, used: nat, pool: Pool, root: nat, depth: nat,
                                        own: Owners, f: nat, path: Path)
    returns (own': Owners)
    requires Lawful(c, |m|) && Owned(c, m, root, depth, own) && Fresh(m, own, pool, used)
    requires f in own && |own[f]| + |path| < depth
    requires path != [] && !c.valid(Get(m, f, path[0])) && used < pool.len
    ensures var s := Descend(c, m, used, pool, f, path);
      && Grown(c, m, used, pool, root, depth, own, s.mem, s.used, own')
      && SameWalks(c, m, depth, own, s.mem)
      && Counted(c, m, used, pool, own, f, path, s, own')
    decreases |path|, 0
  {
    var t, m1, own1 := LinkGrown(c, m, used, pool, root, depth, own, f, path[0]);
    own' := DescendKeeps(c, m1, used + 1, pool, root, depth, own1, t, path[1..]);
    var s := Descend(c, m1, used + 1, pool, t, path[1..]);
    LinksFirst(c, m, used, pool, f, path, t, m1);
    GrownThen(c, m, used, pool, root, depth, own, m1, used + 1, own1, s.mem, s.used, own');
    CountedLinked(c, m, used, pool, own, f, path, t, m1, own1, s, own');
  }

  lemma LinksFirst(c: Codec, m: Memory, used: nat, pool: Pool, f: nat, path: Path, t: nat, m1: Memory)
    requires path != [] && !c.valid(Get(m, f, path[0])) && used < pool.len
    requires t == pool.base + used && m1 == Put(m, f, path[0], c.table(t))
    ensures Descend(c, m, used, pool, f, path) == Descend(c, m1, used + 1, pool, t, path[1..])
  {
  }

  lemma LinkFresh(m: Memory, own: Owners, pool: Pool, used: nat, f: nat, i: Index, e: U64, own1: Owners)
    requires Fresh(m, own, pool, used) && used < pool.len && f in own
    requires own1.Keys == own.Keys + {pool.base + used}
    ensures Fresh(Put(m, f, i, e), own1, pool, used + 1)
  {
    forall t | pool.base + used + 1 <= t < pool.base + pool.len ensures Free(Put(m, f, i, e), own1, t) {
      assert Free(m, own, t) && t !in own.Keys;
      StaysZero(m, f, i, e, t);
    }
  }

  lemma StaysZero(m: Memory, f: nat, i: Index, e: U64, t: nat)
    requires Zeroed(m, t) && t != f
    ensures Zeroed(Put(m, f, i, e), t)
  {
    forall j: Index ensures Get(Put(m, f, i, e), t, j) == 0 {
      assert Get(m, t, j) == 0;
    }
  }

  // ---------------------------------------------------------------------------
  // Mapping pages
  // ---------------------------------------------------------------------------

  /** The word the last request for `p` asks for. */
  function Latest(rs: seq<Request>, p: Path): Option<U64> {
    if rs == [] then None
    else if rs[|rs| - 1].path == p then Some(rs[|rs| - 1].word)
    else Latest(rs[..|rs| - 1], p)
  }

  function Overlay(rs: seq<Request>, p: Path, old_: End): End {
    match Latest(rs, p)
    case None => old_
    case Some(w) => Stop(0, w)
  }

  /** The tables the requests pass through. */
  ghost function Needed(rs: seq<Request>): set<Path> {
    if rs == [] then {}
    else Needed(rs[..|rs| - 1]) + Tops(rs[|rs| - 1].path)
  }

  ghost function Tops(p: Path): set<Path>
    requires p != []
  {
    Passed([], p[..|p| - 1])
  }

  /** What mapping one page does. */
  ghost predicate PageMapped(c: Codec, m: Memory, used: nat, pool: Pool, root: nat, depth: nat, own: Owners,
                             r: Request, s: Step, own': Owners) {
    && Grown(c, m, used, pool, root, depth, own, s.mem, s.used, own')
    && (forall p: Path | |p| == depth && depth > 0 ::
          Find(c, s.mem, root, p) ==
          if s.status.Table? && p == r.path then Stop(0, r.word) else Find(c, m, root, p))
    && s.used <= pool.len
    && (s.status.Blocked? <==> Covered(Find(c, m, root, r.path)))
    && (s.status.Blocked? ==> s.mem == m && s.used == used)
    && (s.status.Table? ==>
          own'.Values == own.Values + Tops(r.path) && s.used - used == |Tops(r.path) - own.Values|)
    && (s.status.Exhausted? ==>
          && s.used == pool.len && s.used - used < |Tops(r.path) - own.Values|
          && Partly(own, [], r.path[..|r.path| - 1], s.used - used, own'))
  }

  lemma MapPageKeeps(c: Codec, m: Memory, used: nat, pool: Pool, root: nat, depth: nat, own: Owners, r: Request)
    returns (own': Owners)
    requires Lawful(c, |m|) && Owned(c, m, root, depth, own) && Fresh(m, own, pool, used)
    requires |r.path| == depth && used <= pool.len && c.valid(r.word)
    ensures PageMapped(c, m, used, pool, root, depth, own, r, MapPage(c, m, used, pool, root, r), own')
  {
    var upper := r.path[..depth - 1];
    own' := DescendKeeps(c, m, used, pool, root, depth, own, root, upper);
    var d := Descend(c, m, used, pool, root, upper);
    SameFromRoot(c, m, depth, own, root, d.mem);
    SplitLast(r.path);
    if d.status.Table? {
      LeafPlaced(c, m, used, pool, root, depth, own, d.mem, d.used, own', d.status.frame, r.path[depth - 1], r.word);
      PagePlaced(c, m, used, pool, root, depth, own, r, d, own');
    } else {
      PageRefused(c, m, used, pool, root, depth, own, r, d, own');
    }
  }

  lemma PagePlaced(c: Codec, m: Memory, used: nat, pool: Pool, root: nat, depth: nat, own: Owners, r: Request,
                   d: Step, own': Owners)
    requires |r.path| == depth && root in own && own[root] == [] && d.status.Table?
    requires r.path == r.path[..depth - 1] + [r.path[depth - 1]]
    requires Counted(c, m, used, pool, own, root, r.path[..depth - 1], d, own')
    requires forall p: Path | |p| == depth && depth > 0 :: Find(c, d.mem, root, p) == Find(c, m, root, p)
    requires var m2 := Put(d.mem, d.status.frame, r.path[depth - 1], r.word);
      && Grown(c, m, used, pool, root, depth, own, m2, d.used, own')
      && Find(c, m2, root, r.path) == Stop(0, r.word)
      && forall p: Path | |p| == depth && p != r.path :: Find(c, m2, root, p) == Find(c, d.mem, root, p)
    ensures PageMapped(c, m, used, pool, root, depth, own, r,
                       Step(Put(d.mem, d.status.frame, r.path[depth - 1], r.word), d.used, d.status), own')
  {
  }

  lemma PageRefused(c: Codec, m: Memory, used: nat, pool: Pool, root: nat, depth: nat, own: Owners, r: Request,
                    d: Step, own': Owners)
    requires |r.path| == depth && root in own && own[root] == [] && !d.status.Table?
    requires r.path == r.path[..depth - 1] + [r.path[depth - 1]] && used <= pool.len
    requires Grown(c, m, used, pool, root, depth, own, d.mem, d.used, own')
    requires Counted(c, m, used, pool, own, root, r.path[..depth - 1], d, own')
    requires forall p: Path | |p| == depth && depth > 0 :: Find(c, d.mem, root, p) == Find(c, m, root, p)
    ensures PageMapped(c, m, used, pool, root, depth, own, r, d, own')
  {
  }

  lemma SplitLast(p: Path)
    requires p != []
    ensures p == p[..|p| - 1] + [p[|p| - 1]]
    ensures [] + p[..|p| - 1] == p[..|p| - 1]
  {
  }

  lemma SameFromRoot(c: Codec, m: Memory, depth: nat, own: Owners, root: nat, m': Memory)
    requires SameWalks(c, m, depth, own, m') && root in own && own[root] == [] && depth > 0
    ensures forall p: Path | |p| == depth && depth > 0 :: Find(c, m', root, p) == Find(c, m, root, p)
  {
  }

  lemma LeafPlaced(c: Codec, m: Memory, used: nat, pool: Pool, root: nat, depth: nat, own: Owners,
                   m1: Memory, used1: nat, own1: Owners, f: nat, i: Index, e: U64)
    requires Grown(c, m, used, pool, root, depth, own, m1, used1, own1)
    requires f in own1 && |own1[f]| + 1 == depth && c.valid(e)
    ensures var m2 := Put(m1, f, i, e);
      && Grown(c, m, used, pool, root, depth, own, m2, used1, own1)
      && Find(c, m2, root, own1[f] + [i]) == Stop(0, e)
      && forall p: Path | |p| == depth && p != own1[f] + [i] :: Find(c, m2, root, p) == Find(c, m1, root, p)
  {
    LeafOwned(c, m1, root, depth, own1, f, i, e);
    LeafFresh(m1, own1, pool, used1, f, i, e);
    LeafFound(c, m1, root, depth, own1, f, i, e);
    forall p: Path | |p| == depth && p != own1[f] + [i]
      ensures Find(c, Put(m1, f, i, e), root, p) == Find(c, m1, root, p)
    {
      LeafKeepsFind(c, m1, depth, own1, f, i, e, root, p);
    }
  }

  lemma LeafFound(c: Codec, m: Memory, root: nat, depth: nat, own: Owners, f: nat, i: Index, e: U64)
    requires Owned(c, m, root, depth, own) && f in own && |own[f]| + 1 == depth && c.valid(e)
    ensures Find(c, Put(m, f, i, e), root, own[f] + [i]) == Stop(0, e)
  {
    LeafOwned(c, m, root, depth, own, f, i, e);
    FindThrough(c, Put(m, f, i, e), root, own[f], [i]);
  }

  lemma LeafFresh(m: Memory, own: Owners, pool: Pool, used: nat, f: nat, i: Index, e: U64)
    requires Fresh(m, own, pool, used) && f in own
    ensures Fresh(Put(m, f, i, e), own, pool, used)
  {
    forall t | pool.base + used <= t < pool.base + pool.len ensures Free(Put(m, f, i, e), own, t) {
      assert Free(m, own, t);
      StaysZero(m, f, i, e, t);
    }
  }

  /** How many requests were served before the first failure. */
  function Served(c: Codec, m: Memory, used: nat, pool: Pool, root: nat, rs: seq<Request>): (n: nat)
    ensures n <= |rs|
  {
    if rs == [] then 0
    else if MapPages(c, m, used, pool, root, rs).status.Table? then |rs|
    else Served(c, m, used, pool, root, rs[..|rs| - 1])
  }

  /** What a batch of requests does. The walk of every page is what the served
      requests ask for on top of what it was; the batch succeeds exactly when no
      superpage covers a page and the pool holds the missing tables; and then it
      takes exactly that many frames. */
  ghost predicate Mapped(c: Codec, m: Memory, used: nat, pool: Pool, root: nat, depth: nat,
                         own: Owners, rs: seq<Request>, s: Step, own': Owners) {
    var missing := Needed(rs) - own.Values;
    && Grown(c, m, used, pool, root, depth, own, s.mem, s.used, own')
    && Overlaid(c, m, root, depth, rs[..Served(c, m, used, pool, root, rs)], s.mem)
    && s.used <= pool.len
    && (s.status.Table? <==> NoneCovered(c, m, root, rs) && used + |missing| <= pool.len)
    && (s.status.Table? ==> s.used == used + |missing| && own'.Values == own.Values + Needed(rs))
  }

  ghost predicate NoneCovered(c: Codec, m: Memory, root: nat, rs: seq<Request>) {
    forall k | 0 <= k < |rs| :: !Covered(Find(c, m, root, rs[k].path))
  }

  ghost predicate Wanted(c: Codec, depth: nat, rs: seq<Request>) {
    forall k | 0 <= k < |rs| :: |rs[k].path| == depth && c.valid(rs[k].word)
  }

  lemma {:induction false} LatestAsked(rs: seq<Request>, p: Path)
    ensures Latest(rs, p).Some? <==> exists k :: 0 <= k < |rs| && rs[k].path == p
  {
    if rs != [] {
      var init := rs[..|rs| - 1];
      LatestAsked(init, p);
      assert forall k | 0 <= k < |init| :: init[k] == rs[k];
      if Latest(init, p).Some? {
        var k :| 0 <= k < |init| && init[k].path == p;
        assert rs[k].path == p;
      }
    }
  }

  lemma SubsetSize<T>(a: set<T>, b: set<T>)
    requires a <= b
    ensures |a| <= |b|
  {
    assert b == a + (b - a);
  }

  lemma NoneCoveredSplit(c: Codec, m: Memory, root: nat, rs: seq<Request>)
    requires rs != []
    ensures NoneCovered(c, m, root, rs) <==>
      NoneCovered(c, m, root, rs[..|rs| - 1]) && !Covered(Find(c, m, root, rs[|rs| - 1].path))
  {
    var init := rs[..|rs| - 1];
    assert forall k | 0 <= k < |init| :: init[k] == rs[k];
    if NoneCovered(c, m, root, init) && !Covered(Find(c, m, root, rs[|rs| - 1].path)) {
      forall k | 0 <= k < |rs| ensures !Covered(Find(c, m, root, rs[k].path)) {
        if k < |init| {
          assert !Covered(Find(c, m, root, init[k].path));
        }
      }
    }
    if NoneCovered(c, m, root, rs) {
      forall k | 0 <= k < |init| ensures !Covered(Find(c, m, root, init[k].path)) {
        assert !Covered(Find(c, m, root, rs[k].path));
      }
    }
  }

  /** After a failure the remaining requests change nothing. */
  lemma MappedStays(c: Codec, m: Memory, used: nat, pool: Pool, root: nat, depth: nat,
                    own: Owners, rs: seq<Request>, own': Owners)
    requires rs != []
    requires var init := rs[..|rs| - 1];
      && Mapped(c, m, used, pool, root, depth, own, init, MapPages(c, m, used, pool, root, init), own')
      && !MapPages(c, m, used, pool, root, init).status.Table?
    ensures Mapped(c, m, used, pool, root, depth, own, rs, MapPages(c, m, used, pool, root, rs), own')
  {
    var init := rs[..|rs| - 1];
    var n := Served(c, m, used, pool, root, init);
    assert init[..n] == rs[..n];
    NoneCoveredSplit(c, m, root, rs);
    SubsetSize(Needed(init) - own.Values, Needed(rs) - own.Values);
  }

  /** Every walk from the root ends where `rs` on top of `m` says. */
  ghost predicate Overlaid(c: Codec, m: Memory, root: nat, depth: nat, rs: seq<Request>, m': Memory) {
    forall p: Path | |p| == depth && depth > 0 ::
      Find(c, m', root, p) == Overlay(rs, p, Find(c, m, root, p))
  }

  lemma MoreWalks(c: Codec, m: Memory, root: nat, depth: nat, rs: seq<Request>, m1: Memory, m2: Memory)
    requires rs != [] && Overlaid(c, m, root, depth, rs[..|rs| - 1], m1)
    requires forall p: Path | |p| == depth && depth > 0 ::
      Find(c, m2, root, p) == if p == rs[|rs| - 1].path then Stop(0, rs[|rs| - 1].word) else Find(c, m1, root, p)
    ensures Overlaid(c, m, root, depth, rs, m2)
  {
  }

  lemma Regrown(c: Codec, m: Memory, used: nat, pool: Pool, root: nat, depth: nat, own: Owners,
                m1: Memory, used1: nat, own1: Owners, m2: Memory, used2: nat, own2: Owners)
    requires Grown(c, m, used, pool, root, depth, own, m1, used1, own1)
    requires Grown(c, m1, used1, pool, root, depth, own1, m2, used2, own2)
    ensures Grown(c, m, used, pool, root, depth, own, m2, used2, own2)
  {
  }

  lemma SplitSize<T>(a: set<T>, b: set<T>, v: set<T>)
    ensures |a + b - v| == |a - v| + |b - (v + a)|
  {
    assert a + b - v == (a - v) + (b - (v + a));
  }

  lemma MoreMissing(own: Owners, rs: seq<Request>)
    requires rs != []
    ensures var init, tops := rs[..|rs| - 1], Tops(rs[|rs| - 1].path);
      && |Needed(rs) - own.Values| == |Needed(init) - own.Values| + |tops - (own.Values + Needed(init))|
      && own.Values + Needed(rs) == own.Values + Needed(init) + tops
  {
    SplitSize(Needed(rs[..|rs| - 1]), Tops(rs[|rs| - 1].path), own.Values);
  }

  /** One more request on top of a batch that succeeded: the verdict. */
  lemma MoreVerdict(c: Codec, m: Memory, root: nat, depth: nat, rs: seq<Request>, m1: Memory)
    requires rs != [] && |rs[|rs| - 1].path| == depth
    requires NoneCovered(c, m, root, rs[..|rs| - 1]) && Overlaid(c, m, root, depth, rs[..|rs| - 1], m1)
    ensures NoneCovered(c, m, root, rs) <==> !Covered(Find(c, m1, root, rs[|rs| - 1].path))
  {
    NoneCoveredSplit(c, m, root, rs);
    CoveredBefore(c, m, root, rs[..|rs| - 1], rs[|rs| - 1].path);
  }

  /** A superpage that covers a page did so before the batch. */
  lemma CoveredBefore(c: Codec, m: Memory, root: nat, rs: seq<Request>, p: Path)
    requires p != [] && NoneCovered(c, m, root, rs)
    ensures Covered(Overlay(rs, p, Find(c, m, root, p))) <==> Covered(Find(c, m, root, p))
  {
    LatestAsked(rs, p);
  }

  /** One more request on top of a batch that succeeded. */
  lemma MappedMore(c: Codec, m: Memory, used: nat, pool: Pool, root: nat, depth: nat, own: Owners,
                   rs: seq<Request>, s1: Step, own1: Owners, s: Step, own': Owners)
    requires rs != [] && |rs[|rs| - 1].path| == depth
    requires s1 == MapPages(c, m, used, pool, root, rs[..|rs| - 1]) && s1.status.Table?
    requires s == MapPages(c, m, used, pool, root, rs)
    requires Mapped(c, m, used, pool, root, depth, own, rs[..|rs| - 1], s1, own1)
    requires PageMapped(c, s1.mem, s1.used, pool, root, depth, own1, rs[|rs| - 1], s, own')
    ensures Mapped(c, m, used, pool, root, depth, own, rs, s, own')
  {
    hide Mapped, PageMapped, Grown, Overlaid, Needed, Tops, MapPages, MapPage, Served, NoneCovered;
    var init := rs[..|rs| - 1];
    WholeBatch(c, m, used, pool, root, depth, own, init, s1, own1);
    PageGrown(c, s1.mem, s1.used, pool, root, depth, own1, rs[|rs| - 1], s, own');
    Regrown(c, m, used, pool, root, depth, own, s1.mem, s1.used, own1, s.mem, s.used, own');
    OverlaidMore(c, m, used, pool, root, depth, own1, rs, s1, s, own');
    MoreVerdict(c, m, root, depth, rs, s1.mem);
    CountedMore(c, m, used, pool, root, depth, own, rs, s1, own1, s, own');
  }

  /** What `Mapped` says of a batch served whole. */
  lemma WholeBatch(c: Codec, m: Memory, used: nat, pool: Pool, root: nat, depth: nat, own: Owners,
                   rs: seq<Request>, s: Step, own': Owners)
    requires s == MapPages(c, m, used, pool, root, rs) && s.status.Table?
    requires Mapped(c, m, used, pool, root, depth, own, rs, s, own')
    ensures Grown(c, m, used, pool, root, depth, own, s.mem, s.used, own') && Overlaid(c, m, root, depth, rs, s.mem)
    ensures NoneCovered(c, m, root, rs) && s.used == used + |Needed(rs) - own.Values| <= pool.len
    ensures own'.Values == own.Values + Needed(rs)
  {
    hide Grown, Overlaid, Needed, MapPages, NoneCovered;
    WholePrefix(rs);
  }

  lemma OverlaidMore(c: Codec, m: Memory, used: nat, pool: Pool, root: nat, depth: nat, own1: Owners,
                     rs: seq<Request>, s1: Step, s: Step, own': Owners)
    requires rs != [] && s1 == MapPages(c, m, used, pool, root, rs[..|rs| - 1]) && s1.status.Table?
    requires s == MapPages(c, m, used, pool, root, rs) && Overlaid(c, m, root, depth, rs[..|rs| - 1], s1.mem)
    requires PageMapped(c, s1.mem, s1.used, pool, root, depth, own1, rs[|rs| - 1], s, own')
    ensures Overlaid(c, m, root, depth, rs[..Served(c, m, used, pool, root, rs)], s.mem)
  {
    hide Grown, Overlaid, Tops, MapPages, MapPage, Served, Find, Partly;
    WholePrefix(rs);
    ServedMore(c, m, used, pool, root, rs);
    if s.status.Table? {
      MoreWalks(c, m, root, depth, rs, s1.mem, s.mem);
    } else {
      SameWalksOverlaid(c, m, root, depth, rs[..|rs| - 1], s1.mem, s.mem);
    }
  }

  lemma CountedMore(c: Codec, m: Memory, used: nat, pool: Pool, root: nat, depth: nat, own: Owners,
                    rs: seq<Request>, s1: Step, own1: Owners, s: Step, own': Owners)
    requires rs != [] && s == MapPages(c, m, used, pool, root, rs)
    requires Grown(c, m, used, pool, root, depth, own, s.mem, s.used, own')
    requires Overlaid(c, m, root, depth, rs[..Served(c, m, used, pool, root, rs)], s.mem)
    requires s1.used == used + |Needed(rs[..|rs| - 1]) - own.Values| <= pool.len
    requires own1.Values == own.Values + Needed(rs[..|rs| - 1])
    requires NoneCovered(c, m, root, rs) <==> !Covered(Find(c, s1.mem, root, rs[|rs| - 1].path))
    requires PageMapped(c, s1.mem, s1.used, pool, root, depth, own1, rs[|rs| - 1], s, own')
    ensures Mapped(c, m, used, pool, root, depth, own, rs, s, own')
  {
    hide Grown, Overlaid, Needed, Tops, MapPages, Served, Find, NoneCovered, Partly;
    MoreMissing(own, rs);
  }

  lemma PageGrown(c: Codec, m: Memory, used: nat, pool: Pool, root: nat, depth: nat, own: Owners,
                  r: Request, s: Step, own': Owners)
    requires PageMapped(c, m, used, pool, root, depth, own, r, s, own')
    ensures Grown(c, m, used, pool, root, depth, own, s.mem, s.used, own')
  {
  }

  lemma SameWalksOverlaid(c: Codec, m: Memory, root: nat, depth: nat, rs: seq<Request>, m1: Memory, m2: Memory)
    requires Overlaid(c, m, root, depth, rs, m1)
    requires forall p: Path | |p| == depth && depth > 0 :: Find(c, m2, root, p) == Find(c, m1, root, p)
    ensures Overlaid(c, m, root, depth, rs, m2)
  {
  }

  lemma ServedMore(c: Codec, m: Memory, used: nat, pool: Pool, root: nat, rs: seq<Request>)
    requires rs != [] && MapPages(c, m, used, pool, root, rs[..|rs| - 1]).status.Table?
    ensures Served(c, m, used, pool, root, rs[..|rs| - 1]) == |rs| - 1
    ensures Served(c, m, used, pool, root, rs) ==
      if MapPages(c, m, used, pool, root, rs).status.Table? then |rs| else |rs| - 1
  {
    hide MapPages;
    assert Served(c, m, used, pool, root, rs[..|rs| - 1]) == |rs| - 1;
  }

  lemma WholePrefix<T>(s: seq<T>)
    ensures s[..|s|] == s
  {
  }

  lemma NothingMapped(c: Codec, m: Memory, used: nat, pool: Pool, root: nat, depth: nat, own: Owners)
    requires Owned(c, m, root, depth, own) && Fresh(m, own, pool, used) && used <= pool.len
    ensures Mapped(c, m, used, pool, root, depth, own, [], Step(m, used, Table(root)), own)
  {
  }

  lemma GrownIsSound(c: Codec, m: Memory, used: nat, pool: Pool, root: nat, depth: nat, own: Owners,
                     rs: seq<Request>, s: Step, own': Owners)
    requires Mapped(c, m, used, pool, root, depth, own, rs, s, own')
    ensures |s.mem| == |m| && Owned(c, s.mem, root, depth, own') && Fresh(s.mem, own', pool, s.used) && s.used <= pool.len
  {
    hide Owned, Fresh, Overlaid, NoneCovered, Needed, Served;
  }

  lemma {:induction false} MapPagesKeeps(c: Codec, m: Memory, used: nat, pool: Pool, root: nat, depth: nat,
                                         own: Owners, rs: seq<Request>)
    returns (own': Owners)
    requires Lawful(c, |m|) && Owned(c, m, root, depth, own) && Fresh(m, own, pool, used)
    requires Wanted(c, depth, rs) && used <= pool.len && depth > 0
    ensures Mapped(c, m, used, pool, root, depth, own, rs, MapPages(c, m, used, pool, root, rs), own')
  {
    hide Grown, Owned, Fresh, MapPage, Served, NoneCovered, Lawful, Overlaid, Needed;
    if rs == [] {
      own' := own;
      NothingMapped(c, m, used, pool, root, depth, own);
    } else {
      var init, r := rs[..|rs| - 1], rs[|rs| - 1];
      own' := MapPagesKeeps(c, m, used, pool, root, depth, own, init);
      var s1 := MapPages(c, m, used, pool, root, init);
      if s1.status.Table? {
        var own1 := own';
        GrownIsSound(c, m, used, pool, root, depth, own, init, s1, own1);
        own' := MapPageKeeps(c, s1.mem, s1.used, pool, root, depth, own1, r);
        var s := MapPages(c, m, used, pool, root, rs);
        MappedMore(c, m, used, pool, root, depth, own, rs, s1, own1, s, own');
      } else {
        MappedStays(c, m, used, pool, root, depth, own, rs, own');
      }
    }
  }

  // ---------------------------------------------------------------------------
  // Runs of batches
  // ---------------------------------------------------------------------------

  /** Each batch brings its own pool. */
  datatype Batch = Batch(pool: Pool, requests: seq<Request>)

  function Run(c: Codec, m: Memory, root: nat, batches: seq<Batch>): Memory {
    if batches == [] then m
    else
      var m1 := Run(c, m, root, batches[..|batches| - 1]);
      var b := batches[|batches| - 1];
      MapPages(c, m1, 0, b.pool, root, b.requests).mem
  }

  ghost predicate InPool(pool: Pool, t: nat) {
    pool.base <= t < pool.base + pool.len
  }

  /** Pools of zero frames outside the tree, no frame in two of them. */
  ghost predicate SeparatePools(m: Memory, own: Owners, batches: seq<Batch>) {
    && (forall k | 0 <= k < |batches| :: Fresh(m, own, batches[k].pool, 0))
    && (forall j, k, t | 0 <= j < k < |batches| && InPool(batches[j].pool, t) :: !InPool(batches[k].pool, t))
  }

  ghost predicate FromPools(own: Owners, batches: seq<Batch>, own': Owners) {
    && (forall f | f in own :: f in own' && own'[f] == own[f])
    && (forall f | f in own' :: f in own || exists k :: 0 <= k < |batches| && InPool(batches[k].pool, f))
  }

  lemma ZeroedSame(m: Memory, m': Memory, t: nat)
    requires t < |m| == |m'| && m[t] == m'[t] && Zeroed(m, t)
    ensures Zeroed(m', t)
  {
    forall i: Index ensures Get(m', t, i) == 0 {
      assert Get(m, t, i) == 0;
    }
  }

  lemma PoolUntouched(m: Memory, own: Owners, batches: seq<Batch>, m1: Memory, own1: Owners)
    requires batches != [] && SeparatePools(m, own, batches)
    requires FromPools(own, batches[..|batches| - 1], own1) && OnlyTables(m, m1, own1)
    ensures Fresh(m1, own1, batches[|batches| - 1].pool, 0)
  {
    var init, pool := batches[..|batches| - 1], batches[|batches| - 1].pool;
    forall t | pool.base <= t < pool.base + pool.len ensures Free(m1, own1, t) {
      assert Free(m, own, t) && InPool(pool, t);
      forall k | 0 <= k < |init| ensures !InPool(init[k].pool, t) {
        assert init[k] == batches[k];
      }
      ZeroedSame(m, m1, t);
    }
  }

  lemma PoolsGrow(own: Owners, batches: seq<Batch>, own1: Owners, own': Owners)
    requires batches != [] && FromPools(own, batches[..|batches| - 1], own1)
    requires forall g | g in own1 :: g in own' && own'[g] == own1[g]
    requires forall g | g in own' :: g in own1 || InPool(batches[|batches| - 1].pool, g)
    ensures FromPools(own, batches, own')
  {
    var last := |batches| - 1;
    var init := batches[..last];
    forall f | f in own' ensures f in own || exists k :: 0 <= k < |batches| && InPool(batches[k].pool, f) {
      if f in own1 && f !in own {
        var k :| 0 <= k < |init| && InPool(init[k].pool, f);
        assert InPool(batches[k].pool, f);
      }
    }
  }

  lemma {:induction false} ServedSucceeds(c: Codec, m: Memory, used: nat, pool: Pool, root: nat, rs: seq<Request>)
    ensures MapPages(c, m, used, pool, root, rs[..Served(c, m, used, pool, root, rs)]).status.Table?
  {
    if rs != [] {
      if MapPages(c, m, used, pool, root, rs).status.Table? {
        WholePrefix(rs);
      } else {
        var init := rs[..|rs| - 1];
        var n := Served(c, m, used, pool, root, init);
        ServedSucceeds(c, m, used, pool, root, init);
        assert init[..n] == rs[..n];
      }
    }
  }

  lemma {:induction false} ServedAll(c: Codec, m: Memory, used: nat, pool: Pool, root: nat, rs: seq<Request>)
    ensures Served(c, m, used, pool, root, rs) == |rs| <==> MapPages(c, m, used, pool, root, rs).status.Table?
  {
  }

  /** A superpage on the walk of `p`, before or after, was there all along. */
  ghost predicate KeptThere(c: Codec, m: Memory, root: nat, p: Path, m': Memory)
    requires p != []
  {
    Covered(Find(c, m, root, p)) || Covered(Find(c, m', root, p)) ==> Find(c, m', root, p) == Find(c, m, root, p)
  }

  /** No request is served where a superpage stands, and none puts one in place. */
  lemma CoveredStays(c: Codec, m: Memory, pool: Pool, root: nat, depth: nat, own: Owners, rs: seq<Request>, p: Path)
    requires Lawful(c, |m|) && Owned(c, m, root, depth, own) && Fresh(m, own, pool, 0)
    requires Wanted(c, depth, rs) && depth > 0 && |p| == depth
    ensures KeptThere(c, m, root, p, MapPages(c, m, 0, pool, root, rs).mem)
  {
    hide Grown, Needed, Owned, Fresh, Lawful, MapPages, Served, Latest;
    var own' := MapPagesKeeps(c, m, 0, pool, root, depth, own, rs);
    var served := rs[..Served(c, m, 0, pool, root, rs)];
    ServedSucceeds(c, m, 0, pool, root, rs);
    assert forall k | 0 <= k < |served| :: served[k] == rs[k];
    var own1 := MapPagesKeeps(c, m, 0, pool, root, depth, own, served);
    LatestAsked(served, p);
  }

  ghost predicate SuperpagesKept(c: Codec, m: Memory, root: nat, depth: nat, m': Memory) {
    forall p: Path | |p| == depth && depth > 0 :: KeptThere(c, m, root, p, m')
  }

  /** What a run of batches keeps: its tables are those it had and pool frames,
      and what a superpage translates never changes. */
  ghost predicate TreeKept(c: Codec, m: Memory, root: nat, depth: nat, own: Owners, batches: seq<Batch>,
                           m': Memory, own': Owners) {
    && Owned(c, m', root, depth, own')
    && FromPools(own, batches, own')
    && OnlyTables(m, m', own')
    && SuperpagesKept(c, m, root, depth, m')
  }

  lemma RunMore(c: Codec, m: Memory, root: nat, depth: nat, own: Owners, batches: seq<Batch>, m1: Memory, own1: Owners)
    returns (own': Owners)
    requires Lawful(c, |m|) && depth > 0 && batches != []
    requires TreeKept(c, m, root, depth, own, batches[..|batches| - 1], m1, own1)
    requires SeparatePools(m, own, batches) && Wanted(c, depth, batches[|batches| - 1].requests)
    ensures var b := batches[|batches| - 1];
      TreeKept(c, m, root, depth, own, batches, MapPages(c, m1, 0, b.pool, root, b.requests).mem, own')
  {
    var b := batches[|batches| - 1];
    PoolUntouched(m, own, batches, m1, own1);
    own' := MapPagesKeeps(c, m1, 0, b.pool, root, depth, own1, b.requests);
    PoolsGrow(own, batches, own1, own');
    var m2 := MapPages(c, m1, 0, b.pool, root, b.requests).mem;
    forall p: Path | |p| == depth && depth > 0 ensures KeptThere(c, m, root, p, m2) {
      assert KeptThere(c, m, root, p, m1);
      CoveredStays(c, m1, b.pool, root, depth, own1, b.requests, p);
    }
  }

  lemma {:induction false} RunKeepsTree(c: Codec, m: Memory, root: nat, depth: nat, own: Owners, batches: seq<Batch>)
    returns (own': Owners)
    requires Lawful(c, |m|) && Owned(c, m, root, depth, own) && depth > 0
    requires SeparatePools(m, own, batches)
    requires forall k | 0 <= k < |batches| :: Wanted(c, depth, batches[k].requests)
    ensures TreeKept(c, m, root, depth, own, batches, Run(c, m, root, batches), own')
  {
    if batches == [] {
      own' := own;
    } else {
      var last := |batches| - 1;
      SeparateFewer(m, own, batches);
      var own1 := RunKeepsTree(c, m, root, depth, own, batches[..last]);
      own' := RunMore(c, m, root, depth, own, batches, Run(c, m, root, batches[..last]), own1);
    }
  }

  lemma SeparateFewer(m: Memory, own: Owners, batches: seq<Batch>)
    requires batches != [] && SeparatePools(m, own, batches)
    ensures SeparatePools(m, own, batches[..|batches| - 1])
  {
    var init := batches[..|batches| - 1];
    assert forall k | 0 <= k < |init| :: init[k] == batches[k];
  }

  // ---------------------------------------------------------------------------
  // What a well-formed tree looks like from outside
  // ---------------------------------------------------------------------------

  lemma TablesAreOwned(c: Codec, m: Memory, root: nat, depth: nat, own: Owners, p: Path)
    requires Owned(c, m, root, depth, own) && |p| < depth
    ensures p in own.Values <==> Reach(c, m, root, p).Some?
  {
    ReachIsOwned(c, m, depth, own, root, p);
    assert own[root] + p == p;
    if p in own.Values {
      var f :| f in own && own[f] == p;
    }
  }

  /** No table of the tree is linked from two slots, and the root from none. */
  lemma OneLinkPerTable(c: Codec, m: Memory, root: nat, depth: nat, own: Owners, f: nat, i: Index, g: nat, j: Index)
    requires Owned(c, m, root, depth, own)
    requires f in own && |own[f]| + 1 < depth && Points(c, Get(m, f, i))
    requires g in own && |own[g]| + 1 < depth && Points(c, Get(m, g, j))
    ensures c.next(Get(m, f, i)) != root
    ensures c.next(Get(m, f, i)) == c.next(Get(m, g, j)) ==> f == g && i == j
  {
    var p, q := own[f], own[g];
    if c.next(Get(m, f, i)) == c.next(Get(m, g, j)) {
      assert (p + [i])[..|p|] == p && (q + [j])[..|q|] == q;
      assert (p + [i])[|p|] == i && (q + [j])[|q|] == j;
    }
  }

  /** The tables a batch finds missing. */
  ghost function Missing(c: Codec, m: Memory, root: nat, rs: seq<Request>): set<Path> {
    set p | p in Needed(rs) && Reach(c, m, root, p).None?
  }

  lemma {:induction false} NeededLengths(rs: seq<Request>, depth: nat, p: Path)
    requires forall k | 0 <= k < |rs| :: |rs[k].path| == depth
    requires p in Needed(rs)
    ensures 0 < |p| < depth
  {
    var init := rs[..|rs| - 1];
    assert forall k | 0 <= k < |init| :: init[k] == rs[k];
    if p in Needed(init) {
      NeededLengths(init, depth, p);
    }
  }

  lemma MissingIsUnowned(c: Codec, m: Memory, root: nat, depth: nat, own: Owners, rs: seq<Request>)
    requires Owned(c, m, root, depth, own) && forall k | 0 <= k < |rs| :: |rs[k].path| == depth
    ensures Missing(c, m, root, rs) == Needed(rs) - own.Values
  {
    forall p | p in Needed(rs) ensures p in own.Values <==> Reach(c, m, root, p).Some? {
      NeededLengths(rs, depth, p);
      TablesAreOwned(c, m, root, depth, own, p);
    }
  }

  lemma {:induction false} InjectionSize<T>(s: set<T>, f: T -> nat, n: nat)
    requires forall x | x in s :: f(x) < n
    requires forall x, y | x in s && y in s && f(x) == f(y) :: x == y
    ensures |s| <= n
  {
    if n > 0 {
      if x :| x in s && f(x) == n - 1 {
        InjectionSize(s - {x}, f, n - 1);
      } else {
        InjectionSize(s, f, n - 1);
      }
    }
  }

  function PathCode(p: Path): nat {
    if |p| == 1 then p[0]
    else if |p| == 2 then 512 + (p[0] as int) * 512 + (p[1] as int)
    else 0
  }

  /** A three-level tree has at most 512 + 512 * 512 tables below its root. */
  lemma TablesAreFew(s: set<Path>)
    requires forall p | p in s :: 0 < |p| < 3
    ensures |s| <= 0x4_0200
  {
    forall p, q | p in s && q in s && PathCode(p) == PathCode(q) ensures p == q {
      if |p| == 1 {
        assert p == [p[0]] && q == [q[0]];
      } else {
        assert p == [p[0], p[1]] && q == [q[0], q[1]];
      }
    }
    InjectionSize(s, PathCode, 0x4_0200);
  }

  // ---------------------------------------------------------------------------
  // For the mappers: one level down, and stopping early
  // ---------------------------------------------------------------------------

  /** Where a descent stands one level down, at table `g`. */
  ghost predicate Entered(c: Codec, m: Memory, used: nat, pool: Pool, root: nat, depth: nat, own: Owners, f: nat,
                          path: Path, m1: Memory, used1: nat, own1: Owners, g: nat)
    requires path != [] && f in own
  {
    && |m1| == |m| && g < |m| && g in own1 && own1[g] == own[f] + [path[0]]
    && Owned(c, m1, root, depth, own1) && Fresh(m1, own1, pool, used1)
    && Descend(c, m, used, pool, f, path) == Descend(c, m1, used1, pool, g, path[1..])
  }

  lemma StepOver(c: Codec, m: Memory, used: nat, pool: Pool, root: nat, depth: nat, own: Owners, f: nat, path: Path)
    requires Owned(c, m, root, depth, own) && Fresh(m, own, pool, used)
    requires f in own && path != [] && |own[f]| + 1 < depth && Points(c, Get(m, f, path[0]))
    ensures Entered(c, m, used, pool, root, depth, own, f, path, m, used, own, c.next(Get(m, f, path[0])))
  {
    FollowsFirst(c, m, used, pool, f, path);
  }

  lemma StepDown(c: Codec, m: Memory, used: nat, pool: Pool, root: nat, depth: nat, own: Owners, f: nat, path: Path)
    returns (own1: Owners)
    requires Lawful(c, |m|) && Owned(c, m, root, depth, own) && Fresh(m, own, pool, used)
    requires f in own && path != [] && |own[f]| + 1 < depth && !c.valid(Get(m, f, path[0])) && used < pool.len
    ensures Entered(c, m, used, pool, root, depth, own, f, path,
                    Put(m, f, path[0], c.table(pool.base + used)), used + 1, own1, pool.base + used)
  {
    var g, m1;
    g, m1, own1 := LinkGrown(c, m, used, pool, root, depth, own, f, path[0]);
    LinksFirst(c, m, used, pool, f, path, g, m1);
  }

  lemma FollowsFirst(c: Codec, m: Memory, used: nat, pool: Pool, f: nat, path: Path)
    requires path != [] && Points(c, Get(m, f, path[0]))
    ensures Descend(c, m, used, pool, f, path) == Descend(c, m, used, pool, c.next(Get(m, f, path[0])), path[1..])
  {
  }

  lemma StopsHere(c: Codec, m: Memory, used: nat, pool: Pool, f: nat, path: Path)
    requires path != []
    requires if c.valid(Get(m, f, path[0])) then c.block(Get(m, f, path[0])) else used >= pool.len
    ensures var d := Descend(c, m, used, pool, f, path);
      !d.status.Table? && d.mem == m && d.used == used
  {
  }

  lemma {:induction false} FailureIsFinal(c: Codec, m: Memory, used: nat, pool: Pool, root: nat, rs: seq<Request>, k: nat)
    requires k <= |rs| && !MapPages(c, m, used, pool, root, rs[..k]).status.Table?
    ensures MapPages(c, m, used, pool, root, rs) == MapPages(c, m, used, pool, root, rs[..k])
  {
    if k == |rs| {
      WholePrefix(rs);
    } else {
      var init := rs[..|rs| - 1];
      assert init[..k] == rs[..k];
      FailureIsFinal(c, m, used, pool, root, init, k);
    }
  }

  lemma NextPage(c: Codec, m: Memory, used: nat, pool: Pool, root: nat, rs: seq<Request>, k: nat)
    requires k < |rs| && MapPages(c, m, used, pool, root, rs[..k]).status.Table?
    ensures var s := MapPages(c, m, used, pool, root, rs[..k]);
      MapPages(c, m, used, pool, root, rs[..k + 1]) == MapPage(c, s.mem, s.used, pool, root, rs[k])
  {
    assert rs[..k + 1][..k] == rs[..k] && rs[..k + 1][k] == rs[k];
  }

  /** A batch whose first page lies under a superpage is refused and writes nothing. */
  lemma RefusedAtOnce(c: Codec, m: Memory, used: nat, pool: Pool, root: nat, depth: nat, own: Owners, rs: seq<Request>)
    requires Lawful(c, |m|) && Owned(c, m, root, depth, own) && Fresh(m, own, pool, used) && used <= pool.len
    requires Wanted(c, depth, rs) && rs != [] && Covered(Find(c, m, root, rs[0].path))
    ensures MapPages(c, m, used, pool, root, rs) == Step(m, used, Blocked)
  {
    var own' := MapPageKeeps(c, m, used, pool, root, depth, own, rs[0]);
    assert rs[..0] == [];
    NextPage(c, m, used, pool, root, rs, 0);
    FailureIsFinal(c, m, used, pool, root, rs, 1);
  }
}
