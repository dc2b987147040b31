/** Every run of traps, switches and user code on one hart is a run of independent
    threads, each with its own registers, pc and address space. */
module RiscvThreads {
  import opened Bits
  import opened Options
  import opened RiscvTrap
  import opened Threads
  import opened WordMemory

  // ---------------------------------------------------------------------------
  // The hart that carries them
  // ---------------------------------------------------------------------------

  /** Contexts, one per thread, pairwise disjoint. */
  ghost predicate Separate(ctx: seq<U64>, words: nat) {
    && (forall i | 0 <= i < |ctx| :: ctx[i] % 8 == 0 && ctx[i] / 8 + 40 <= words)
    && (forall i, j | 0 <= i < j < |ctx| :: Apart(ctx[i], ctx[j]))
  }

  predicate Apart(a: nat, b: nat) {
    a + 320 <= b || b + 320 <= a
  }

  /** The context at `at` holds the thread's saved registers. */
  ghost predicate Holds(mem: seq<U64>, at: U64, t: Thread)
    requires Room(mem, at, 40)
  {
    Words(mem, at, 31) == t.saved
  }

  /** The context at `at` can resume the thread, in U-mode. */
  ghost predicate Resumable(mem: seq<U64>, at: U64, t: Thread)
    requires Room(mem, at, 40)
  {
    var w := Words(mem, at, 40);
    Holds(mem, at, t) && w[31] == t.pc && w[33] == t.space && FromUser(w[32])
  }

  ghost predicate AllResumable(mem: seq<U64>, ctx: seq<U64>, w: World, except: nat)
    requires Separate(ctx, |mem|) && |ctx| == |w.threads|
  {
    forall i | 0 <= i < |ctx| && i != except && w.threads[i].alive :: Resumable(mem, ctx[i], w.threads[i])
  }

  ghost predicate Represents(h: Hart, ctx: seq<U64>, w: World) {
    && Separate(ctx, |h.mem|) && |ctx| == |w.threads| && w.running < |ctx| && Current(w).alive
    && h.x == Current(w).x && h.pc == Current(w).pc && h.satp == Current(w).space && h.umode && FromUser(h.sstatus)
    && Holds(h.mem, ctx[w.running], Current(w))
    && AllResumable(h.mem, ctx, w, w.running)
  }

  /** The trap frame lies clear of every context. */
  ghost predicate FrameClear(f: nat, ctx: seq<U64>) {
    forall i | 0 <= i < |ctx| :: f + 248 <= ctx[i] || ctx[i] + 320 <= f
  }

  /** In the handler: the frame at `f` holds the running thread. */
  ghost predicate InKernel(h: Hart, f: nat, ctx: seq<U64>, w: World) {
    && Separate(ctx, |h.mem|) && |ctx| == |w.threads| && w.running < |ctx| && Current(w).alive
    && Room(h.mem, f, 31) && f + 248 < TWO64 && FrameClear(f, ctx)
    && h.x[SP - 1] == f && |Current(w).x| == 31 && Current(w).x[SP - 1] == f + 248
    && Words(h.mem, f, 31) == Current(w).x[SP - 1 := f]
    && h.satp == Current(w).space && FromUser(h.sstatus)
    && Holds(h.mem, ctx[w.running], Current(w))
    && AllResumable(h.mem, ctx, w, w.running)
  }

  lemma ContextKept(m: seq<U64>, m': seq<U64>, at: U64, t: Thread)
    requires Room(m, at, 40) && |m'| == |m| && Words(m', at, 40) == Words(m, at, 40)
    ensures Holds(m, at, t) ==> Holds(m', at, t)
    ensures Resumable(m, at, t) ==> Resumable(m', at, t)
  {
    assert Words(m', at, 31) == Words(m', at, 40)[..31] && Words(m, at, 31) == Words(m, at, 40)[..31];
  }

  lemma AllKept(m: seq<U64>, m': seq<U64>, ctx: seq<U64>, w: World, except: nat)
    requires Separate(ctx, |m|) && |ctx| == |w.threads| && |m'| == |m|
    requires forall i | 0 <= i < |ctx| && i != except :: Words(m', ctx[i], 40) == Words(m, ctx[i], 40)
    requires AllResumable(m, ctx, w, except)
    ensures AllResumable(m', ctx, w, except)
  {
    forall i | 0 <= i < |ctx| && i != except && w.threads[i].alive ensures Resumable(m', ctx[i], w.threads[i]) {
      ContextKept(m, m', ctx[i], w.threads[i]);
    }
  }

  // ---------------------------------------------------------------------------
  // Into the kernel
  // ---------------------------------------------------------------------------

  lemma Entered(h: Hart, ctx: seq<U64>, w: World)
    requires Represents(h, ctx, w) && StackReady(h) && FrameClear(h.x[SP - 1] - 248, ctx)
    ensures var g := Exec(Taken(h), EntryCode());
      InKernel(g, h.x[SP - 1] - 248, ctx, w) && g.sepc == Current(w).pc
  {
    hide Exec, EntryCode, Put, Words, Resumable, Holds;
    var f, h1 := h.x[SP - 1] - 248, Taken(h);
    var x := h.x[SP - 1 := f];
    EntryEffect(h1);
    PutBack(h.mem, f, x);
    forall i | 0 <= i < |ctx| ensures Words(Put(h.mem, f, x), ctx[i], 40) == Words(h.mem, ctx[i], 40) {
      SameWords(h.mem, f, x, ctx[i], 40);
    }
    AllKept(h.mem, Put(h.mem, f, x), ctx, w, w.running);
    ContextKept(h.mem, Put(h.mem, f, x), ctx[w.running], Current(w));
  }

  /** A poke of a thread that is not running. */
  ghost predicate Fitting(ctx: seq<U64>, w: World, p: Poke, g: Gift) {
    && g.thread < |ctx| == |w.threads| && g.thread != w.running && w.threads[g.thread].alive
    && p == Poke(ctx[g.thread], g.v0, g.v1)
  }

  lemma PokeIsPut(mem: seq<U64>, p: Poke)
    requires Room(mem, p.ctx, 40)
    ensures Room(mem, p.ctx + 72, 2) && PokeAt(mem, p) == Put(mem, p.ctx + 72, [p.a0, p.a1])
  {
    assert (p.ctx + 72) / 8 == p.ctx / 8 + 9 && (p.ctx + 80) / 8 == p.ctx / 8 + 10;
  }

  lemma PokeInside(mem: seq<U64>, p: Poke)
    requires Room(mem, p.ctx, 40)
    ensures Words(PokeAt(mem, p), p.ctx, 40) == Words(mem, p.ctx, 40)[A0 := p.a0][A1 := p.a1]
  {
    assert (p.ctx + 72) / 8 == p.ctx / 8 + 9 && (p.ctx + 80) / 8 == p.ctx / 8 + 10;
  }

  lemma PokedContext(mem: seq<U64>, at: U64, t: Thread, r0: U64, r1: U64)
    requires Room(mem, at, 40) && Resumable(mem, at, t)
    ensures Resumable(PokeAt(mem, Poke(at, r0, r1)), at, t.(saved := SetAt(SetAt(t.saved, A0, r0), A1, r1)))
  {
    var m' := PokeAt(mem, Poke(at, r0, r1));
    PokeInside(mem, Poke(at, r0, r1));
    assert Words(m', at, 31) == Words(m', at, 40)[..31] && Words(mem, at, 31) == Words(mem, at, 40)[..31];
  }

  lemma PokeElsewhere(mem: seq<U64>, p: Poke, at: nat, n: nat)
    requires Room(mem, p.ctx, 40) && Room(mem, at, n) && (p.ctx + 320 <= at || at + 8 * n <= p.ctx)
    ensures Words(PokeAt(mem, p), at, n) == Words(mem, at, n)
  {
    PokeIsPut(mem, p);
    SameWords(mem, p.ctx + 72, [p.a0, p.a1], at, n);
  }

  lemma Poked(h: Hart, f: nat, ctx: seq<U64>, w: World, p: Poke, g: Gift)
    requires InKernel(h, f, ctx, w) && Fitting(ctx, w, p, g)
    ensures InKernel(h.(mem := PokeAt(h.mem, p)), f, ctx, Given(IpcAbi(), w, g))
  {
    hide PokeAt, Resumable, Words;
    var m', v := PokeAt(h.mem, p), Given(IpcAbi(), w, g);
    PokeElsewhere(h.mem, p, f, 31);
    PokeElsewhere(h.mem, p, ctx[w.running], 40);
    ContextKept(h.mem, m', ctx[w.running], Current(w));
    forall i | 0 <= i < |ctx| && i != w.running && v.threads[i].alive ensures Resumable(m', ctx[i], v.threads[i]) {
      if i == g.thread {
        PokedContext(h.mem, ctx[i], w.threads[i], g.v0, g.v1);
      } else {
        PokeElsewhere(h.mem, p, ctx[i], 40);
        ContextKept(h.mem, m', ctx[i], w.threads[i]);
      }
    }
  }

  ghost predicate AllFitting(ctx: seq<U64>, w: World, ps: seq<Poke>, gs: seq<Gift>) {
    |ps| == |gs| && forall k | 0 <= k < |ps| :: Fitting(ctx, w, ps[k], gs[k])
  }

  lemma {:induction false} AllPoked(h: Hart, f: nat, ctx: seq<U64>, w: World, ps: seq<Poke>, gs: seq<Gift>)
    requires InKernel(h, f, ctx, w) && AllFitting(ctx, w, ps, gs)
    ensures InKernel(h.(mem := PokeAll(h.mem, ps)), f, ctx, GivenAll(IpcAbi(), w, gs))
    decreases |ps|
  {
    hide InKernel, PokeAt, Given;
    if ps != [] {
      var n := |ps| - 1;
      AllPoked(h, f, ctx, w, ps[..n], gs[..n]);
      GivenKeeps(IpcAbi(), w, gs[..n], gs[n].thread);
      Poked(h.(mem := PokeAll(h.mem, ps[..n])), f, ctx, GivenAll(IpcAbi(), w, gs[..n]), ps[n], gs[n]);
    } else {
      assert PokeAll(h.mem, ps) == h.mem;
    }
  }

  lemma Handles(h: Hart, f: nat, ctx: seq<U64>, w: World, e: Handled, gs: seq<Gift>)
    requires InKernel(h, f, ctx, w) && AllFitting(ctx, w, e.pokes, gs)
    ensures InKernel(AfterHandler(h, e), f, ctx, GivenAll(IpcAbi(), w, gs))
  {
    hide PokeAll, Resumable, Holds, Words, AllFitting, GivenAll, WaitedStatus;
    AllPoked(h, f, ctx, w, e.pokes, gs);
  }

  // ---------------------------------------------------------------------------
  // Out of the kernel
  // ---------------------------------------------------------------------------

  lemma ResumableWords(mem: seq<U64>, at: U64, t: Thread, regs: Regs, sstatus: U64, rest: seq<U64>)
    requires Room(mem, at, 40) && |rest| == 6 && Words(mem, at, 40) == regs + [t.pc, sstatus, t.space] + rest
    requires regs == t.saved && FromUser(sstatus)
    ensures Resumable(mem, at, t)
  {
    assert Words(mem, at, 31) == Words(mem, at, 40)[..31];
  }

  /** The snapshot undoes the 248 bytes the entry path moved sp by. */
  lemma TrueStackPointer(h: Hart, f: nat, ctx: seq<U64>, w: World)
    requires InKernel(h, f, ctx, w)
    ensures SnapshotRegs(Words(h.mem, f, 31), f) == Current(w).x
  {
  }

  lemma FullParked(h: Hart, f: nat, ctx: seq<U64>, w: World, resume: U64)
    requires InKernel(h, f, ctx, w)
    ensures var t := Parked(IpcAbi(), Current(w), resume, false);
      Resumable(SaveFull(h, f, resume, ctx[w.running]).mem, ctx[w.running], t)
  {
    hide Put, Words;
    TrueStackPointer(h, f, ctx, w);
    PutBack(h.mem, ctx[w.running], FullContext(h, f, resume));
    ResumableWords(SaveFull(h, f, resume, ctx[w.running]).mem, ctx[w.running], Parked(IpcAbi(), Current(w), resume, false),
                   Current(w).x, h.sstatus, [0, 0, 0, 0, 0, 0]);
  }

  lemma FastParked(h: Hart, f: nat, ctx: seq<U64>, w: World, resume: U64)
    requires InKernel(h, f, ctx, w)
    ensures var t := Parked(IpcAbi(), Current(w), resume, true);
      Resumable(SaveFast(h, f, resume, ctx[w.running]).mem, ctx[w.running], t)
  {
    hide Put, Words, Merge;
    var at := ctx[w.running];
    TrueStackPointer(h, f, ctx, w);
    PutBack(h.mem, at, FastContext(h, f, resume, at));
    ContextRegs(h.mem, at);
    ResumableWords(SaveFast(h, f, resume, at).mem, at, Parked(IpcAbi(), Current(w), resume, true),
                   Merge(IpcAbi().kept, Current(w).x, Current(w).saved), h.sstatus, Words(h.mem, at, 40)[34..]);
  }

  /** After the save, every living thread can be resumed. */
  lemma SavedOut(h: Hart, f: nat, ctx: seq<U64>, w: World, resume: U64, handoff: bool)
    requires InKernel(h, f, ctx, w)
    ensures var g := if handoff then SaveFast(h, f, resume, ctx[w.running]) else SaveFull(h, f, resume, ctx[w.running]);
      && |g.mem| == |h.mem|
      && AllResumable(g.mem, ctx, Updated(w, w.running, Parked(IpcAbi(), Current(w), resume, handoff)), |ctx|)
  {
    hide Put, Words, Merge, Resumable, Holds, FullContext, FastContext;
    var at := ctx[w.running];
    var g := if handoff then SaveFast(h, f, resume, at) else SaveFull(h, f, resume, at);
    var words := if handoff then FastContext(h, f, resume, at) else FullContext(h, f, resume);
    FullParked(h, f, ctx, w, resume);
    FastParked(h, f, ctx, w, resume);
    forall i | 0 <= i < |ctx| && i != w.running && w.threads[i].alive ensures Resumable(g.mem, ctx[i], w.threads[i]) {
      assert Apart(ctx[i], at);
      SameWords(h.mem, at, words, ctx[i], 40);
      ContextKept(h.mem, g.mem, ctx[i], w.threads[i]);
    }
  }

  /** Restoring a context runs the thread it holds, in U-mode. */
  lemma WokenUp(h: Hart, ctx: seq<U64>, w: World, to: nat, handoff: bool)
    requires Separate(ctx, |h.mem|) && |ctx| == |w.threads| && to < |ctx| && w.threads[to].alive
    requires AllResumable(h.mem, ctx, w, |ctx|)
    ensures Represents(if handoff then RestoreFast(h, ctx[to]) else RestoreFull(h, ctx[to]), ctx, Wake(IpcAbi(), w, to, handoff))
  {
    hide Exec, Merge, Zeros, RestoreCode, FastRestoreCode, SretStatus;
    var at, h1 := ctx[to], h.(x := h.x[T6 - 1 := ctx[to]]);
    assert Resumable(h.mem, at, w.threads[to]);
    ContextRegs(h.mem, at);
    RestoreEffect(h1);
    FastRestoreEffect(h1);
    assert AllResumable(h.mem, ctx, w, to);
  }

  lemma KilledOff(h: Hart, f: nat, ctx: seq<U64>, w: World)
    requires InKernel(h, f, ctx, w)
    ensures AllResumable(h.mem, ctx, Updated(w, w.running, Current(w).(alive := false)), |ctx|)
  {
    hide Resumable;
  }

  /** The return path resumes the running thread with the frame's registers at `pc`. */
  lemma Returned(h: Hart, f: nat, ctx: seq<U64>, w: World, x: Regs, pc: U64)
    requires w.running < |w.threads| && InKernel(h, f, ctx, Updated(w, w.running, Current(w).(x := x)))
    ensures Represents(Sret(Exec(h.(sepc := pc), ReturnCode())), ctx, Updated(w, w.running, Current(w).(x := x, pc := pc)))
  {
    hide Exec, ReturnCode, Resumable, SretStatus;
    ReturnEffect(h.(sepc := pc));
    assert x[SP - 1 := f][SP - 1 := f + 248] == x;
  }

  /** Writing the a0 slot (72) or the a1 slot (80) of the frame. */
  lemma SlotWritten(h: Hart, f: nat, ctx: seq<U64>, w: World, slot: nat, v: U64)
    requires InKernel(h, f, ctx, w) && 9 <= slot <= 10
    ensures InKernel(h.(mem := Store(h.mem, f + 8 * slot, v)), f, ctx,
                     Updated(w, w.running, Current(w).(x := SetAt(Current(w).x, slot, v))))
  {
    hide Resumable;
    var m' := Store(h.mem, f + 8 * slot, v);
    assert (f + 8 * slot) / 8 == f / 8 + slot;
    assert Words(m', f, 31) == Words(h.mem, f, 31)[slot := v];
    assert Current(w).x[SP - 1 := f][slot := v] == Current(w).x[slot := v][SP - 1 := f];
    forall i | 0 <= i < |ctx| ensures Words(m', ctx[i], 40) == Words(h.mem, ctx[i], 40) {
    }
    AllKept(h.mem, m', ctx, w, w.running);
    ContextKept(h.mem, m', ctx[w.running], Current(w));
  }

  /** A context `init_user_context` wrote resumes a new thread at its entry point. */
  lemma FreshIsResumable(h: Hart, at: U64, entry: U64, stackTop: U64, rootFrame: U64)
    requires Room(h.mem, at, 40)
    ensures var m := Put(h.mem, at, FreshContext(h.sstatus, h.satp, entry, stackTop, rootFrame));
      var x := Zeros(31)[1 := stackTop];
      Resumable(m, at, Thread(x, entry, FreshSatp(h.satp, rootFrame), x, true))
  {
    hide Put, Words, FreshStatus, FreshSatp, SretStatus;
    var x := Zeros(31)[SP - 1 := stackTop];
    PutBack(h.mem, at, FreshContext(h.sstatus, h.satp, entry, stackTop, rootFrame));
    FreshStatusIsUser(h.sstatus);
    ResumableWords(Put(h.mem, at, FreshContext(h.sstatus, h.satp, entry, stackTop, rootFrame)), at,
                   Thread(x, entry, FreshSatp(h.satp, rootFrame), x, true), x, FreshStatus(h.sstatus), [0, 0, 0, 0, 0, 0]);
  }

  // ---------------------------------------------------------------------------
  // Traps and runs
  // ---------------------------------------------------------------------------

  /** The kernel's side of the bargain: it saves into the running thread's context
      and resumes a living one; killing switches to another. */
  ghost predicate Means(ctx: seq<U64>, w: World, kind: Kind, outcome: Option<TrapOutcome>, d: Decision) {
    && w.running < |ctx| == |w.threads|
    && (d.Yield? || d.Handoff? || d.Kill? ==> d.to < |ctx| && w.threads[d.to].alive)
    && match kind
       case OtherInterrupt => d == Unchanged
       case Ecall =>
         (match outcome
          case None => false
          case Some(Resume(r0)) => d == Answer1(r0)
          case Some(Resume2(r0, r1)) => d == Answer2(r0, r1)
          case Some(SwitchTo(save, into)) => save == ctx[w.running] && d.Yield? && into == ctx[d.to]
          case Some(SwitchToFast(save, into)) => save == ctx[w.running] && d.Handoff? && into == ctx[d.to]
          case Some(Terminate(into)) => d.Kill? && d.to != w.running && into == ctx[d.to])
       case _ =>
         (match outcome
          case None => kind.Tick? && d == Unchanged
          case Some(Resume(_)) => d == Unchanged
          case Some(Resume2(_, _)) => d == Unchanged
          case Some(SwitchTo(save, into)) => save == ctx[w.running] && d.Yield? && into == ctx[d.to]
          case Some(SwitchToFast(save, into)) => save == ctx[w.running] && d.Yield? && into == ctx[d.to]
          case Some(Terminate(into)) => d.Kill? && d.to != w.running && into == ctx[d.to])
  }

  /** Where the hart is once `Common` has answered. */
  function Resumes(e: Ending): Option<Hart> {
    match e
    case Halts => None
    case Runs(g) => Some(g)
    case Returns(g) => Some(Sret(Exec(g, ReturnCode())))
  }

  lemma SwitchRefines(h: Hart, f: nat, ctx: seq<U64>, w: World, resume: U64, to: nat, handoff: bool)
    requires InKernel(h, f, ctx, w) && to < |ctx| && w.threads[to].alive
    ensures var g := if handoff then SaveFast(h, f, resume, ctx[w.running]) else SaveFull(h, f, resume, ctx[w.running]);
      Represents(if handoff then RestoreFast(g, ctx[to]) else RestoreFull(g, ctx[to]), ctx,
                 Wake(IpcAbi(), Updated(w, w.running, Parked(IpcAbi(), Current(w), resume, handoff)), to, handoff))
  {
    hide SaveFast, SaveFull, RestoreFast, RestoreFull, Resumable, Holds, Merge;
    var g := if handoff then SaveFast(h, f, resume, ctx[w.running]) else SaveFull(h, f, resume, ctx[w.running]);
    SavedOut(h, f, ctx, w, resume, handoff);
    WokenUp(g, ctx, Updated(w, w.running, Parked(IpcAbi(), Current(w), resume, handoff)), to, handoff);
  }

  lemma KillRefines(h: Hart, f: nat, ctx: seq<U64>, w: World, to: nat)
    requires InKernel(h, f, ctx, w) && to < |ctx| && w.threads[to].alive && to != w.running
    ensures Represents(RestoreFull(h, ctx[to]), ctx, Wake(IpcAbi(), Updated(w, w.running, Current(w).(alive := false)), to, false))
  {
    hide RestoreFull, Resumable, Holds;
    KilledOff(h, f, ctx, w);
    WokenUp(h, ctx, Updated(w, w.running, Current(w).(alive := false)), to, false);
  }

  lemma AnswerRefines(h: Hart, f: nat, ctx: seq<U64>, w: World, r0: U64, r1: Option<U64>)
    requires w.running < |w.threads| && InKernel(h, f, ctx, w)
    ensures var m1 := Store(h.mem, f + 72, r0);
      var m2 := if r1.None? then m1 else Store(m1, f + 80, r1.value);
      Represents(Sret(Exec(h.(mem := m2, sepc := Plus(Current(w).pc, 4)), ReturnCode())), ctx,
                 Decide(IpcAbi(), w, true, if r1.None? then Answer1(r0) else Answer2(r0, r1.value)))
  {
    hide Exec, ReturnCode, Resumable, Holds, Represents, InKernel, Store;
    FrameRoom(h, f, ctx, w);
    var t, h1 := Current(w), h.(mem := Store(h.mem, f + 72, r0));
    var x1 := SetAt(t.x, A0, r0);
    var w1 := Updated(w, w.running, t.(x := x1));
    SlotWritten(h, f, ctx, w, A0, r0);
    match r1
    case None =>
      Returned(h1, f, ctx, w, x1, Plus(t.pc, 4));
      assert h1.(sepc := Plus(t.pc, 4)) == h.(mem := Store(h.mem, f + 72, r0), sepc := Plus(t.pc, 4));
    case Some(v) =>
      SlotWritten(h1, f, ctx, w1, A1, v);
      var x2 := SetAt(x1, A1, v);
      assert Updated(w1, w.running, Current(w1).(x := x2)) == Updated(w, w.running, t.(x := x2));
      Returned(h1.(mem := Store(h1.mem, f + 80, v)), f, ctx, w, x2, Plus(t.pc, 4));
  }

  /** A trap that changes nothing resumes the thread where it was exactly when sepc
      still names that place. */
  lemma UnchangedRefines(h: Hart, f: nat, ctx: seq<U64>, w: World)
    requires w.running < |w.threads| && InKernel(h, f, ctx, w)
    ensures Represents(Sret(Exec(h, ReturnCode())), ctx, w) <==> h.sepc == Current(w).pc
  {
    hide Exec, ReturnCode, Resumable, Holds, InKernel, FromUser, SretStatus, AllResumable, Separate;
    FrameRoom(h, f, ctx, w);
    var t := Current(w);
    assert Updated(w, w.running, t.(x := t.x)) == w;
    assert Updated(w, w.running, t.(x := t.x, pc := t.pc)) == w;
    Returned(h, f, ctx, w, t.x, t.pc);
    assert h.sepc == t.pc ==> h.(sepc := t.pc) == h;
    ReturnEffect(h);
  }

  lemma FrameRoom(h: Hart, f: nat, ctx: seq<U64>, w: World)
    requires InKernel(h, f, ctx, w)
    ensures Room(h.mem, h.x[SP - 1], 31) && w.running < |w.threads| && |Current(w).x| == 31
  {
  }

  /** What `common_trap_entry` does from inside the kernel is the decision, if the arms
      that change nothing find sepc as it was on entry. */
  lemma CommonRefines(h: Hart, f: nat, ctx: seq<U64>, w: World, kind: Kind, sepc: U64,
                      outcome: Option<TrapOutcome>, d: Decision)
    requires InKernel(h, f, ctx, w) && Means(ctx, w, kind, outcome, d)
    requires sepc == Current(w).pc && (d.Unchanged? ==> h.sepc == sepc)
    ensures var r := Resumes(Common(h, f, kind, sepc, outcome));
      r.Some? && Represents(r.value, ctx, Decide(IpcAbi(), w, kind.Ecall?, d))
  {
    hide Exec, ReturnCode, Resumable, Holds, Represents, SaveFast, SaveFull, RestoreFast, RestoreFull, Store, Parked, Wake,
      Separate, FrameClear, AllResumable, Room;
    match d
    case Unchanged => UnchangedRefines(h, f, ctx, w);
    case Answer1(r0) => AnswerRefines(h, f, ctx, w, r0, None);
    case Answer2(r0, r1) => AnswerRefines(h, f, ctx, w, r0, Some(r1));
    case Yield(to) => SwitchRefines(h, f, ctx, w, if kind.Ecall? then Plus(sepc, 4) else sepc, to, false);
    case Handoff(to) => SwitchRefines(h, f, ctx, w, Plus(sepc, 4), to, true);
    case Kill(to) => KillRefines(h, f, ctx, w, to);
  }

  /** A trap as it happens to the hart, and what it means to the threads. */
  datatype TrapEvent = TrapEvent(scause: U64, handled: Handled, outcome: Option<TrapOutcome>,
                                 gifts: seq<Gift>, decision: Decision)

  /** No handler is registered for an exception or a system call. */
  predicate Halting(e: TrapEvent) {
    e.outcome.None? && e.scause < 0x8000_0000_0000_0000
  }

  /** The handler pokes threads that wait and answers as `Means` says. */
  ghost predicate Obeys(ctx: seq<U64>, w: World, e: TrapEvent) {
    && AllFitting(ctx, w, e.handled.pokes, e.gifts)
    && Means(ctx, w, CauseOf(e.scause), e.outcome, e.decision)
  }

  /** A trap that changes nothing goes back to where sepc points: nothing was nested in
      it, or what was left the same address there. */
  predicate Undisturbed(h: Hart, e: TrapEvent) {
    !e.decision.Unchanged? || e.handled.nested.None? || e.handled.nested.value == h.pc
  }

  /** A trap on a stack with room for the frame: one that halts, or one whose frame is
      clear of the contexts, whose handler keeps its side, and which is undisturbed. */
  ghost predicate Legitimate(h: Hart, ctx: seq<U64>, w: World, e: TrapEvent) {
    && StackReady(h)
    && (Halting(e) || (FrameClear(h.x[SP - 1] - 248, ctx) && Obeys(ctx, w, e) && Undisturbed(h, e)))
  }

  /** User code runs, changing its own registers, pc and any memory but the contexts;
      or it traps. */
  datatype Event = UserCode(x: Regs, pc: U64, mem: seq<U64>) | Trapped(trap: TrapEvent)

  /** What an event means to the threads. */
  function Meaning(e: Event): Happening {
    match e
    case UserCode(x, pc, _) => Happening.Runs(x, pc)
    case Trapped(t) => Traps(CauseOf(t.scause).Ecall?, t.gifts, t.decision)
  }

  lemma MeansSame(ctx: seq<U64>, w: World, v: World, kind: Kind, outcome: Option<TrapOutcome>, d: Decision)
    requires |v.threads| == |w.threads| && v.running == w.running
    requires forall i | 0 <= i < |w.threads| :: v.threads[i].alive == w.threads[i].alive
    requires Means(ctx, w, kind, outcome, d)
    ensures Means(ctx, v, kind, outcome, d)
  {
  }

  /** One trap of any kind, with any answer of the handler: it halts the machine exactly
      when its cause is fatal and unhandled, and is one step of the threads otherwise. */
  lemma TrapRefines(h: Hart, ctx: seq<U64>, w: World, e: TrapEvent)
    requires Represents(h, ctx, w) && Legitimate(h, ctx, w, e)
    ensures var r := Trap(h, e.scause, e.handled, e.outcome);
      && (r.None? <==> Halting(e))
      && (r.Some? ==> Represents(r.value, ctx, Next(IpcAbi(), w, Meaning(Trapped(e)))))
  {
    hide Represents, Trap, StackReady, Obeys, FrameClear;
    TrapHalts(h, e.scause, e.handled, e.outcome);
    if !Halting(e) {
      HandledRefines(h, ctx, w, e);
    }
  }

  /** On a clear stack, a trap that does not halt is a step of the threads exactly when
      it is undisturbed. */
  lemma HandledRefines(h: Hart, ctx: seq<U64>, w: World, e: TrapEvent)
    requires Represents(h, ctx, w) && StackReady(h) && FrameClear(h.x[SP - 1] - 248, ctx) && Obeys(ctx, w, e)
    ensures var r := Trap(h, e.scause, e.handled, e.outcome);
      && r.Some?
      && (Represents(r.value, ctx, Next(IpcAbi(), w, Meaning(Trapped(e)))) <==> Undisturbed(h, e))
  {
    hide Exec, EntryCode, ReturnCode, Resumable, Holds, Common, AllFitting, AllResumable, Separate, PokeAll,
      WaitedStatus, SretStatus, TrapStatus, FrameClear, Wake, Parked, SetAt, FromUser;
    var f, v := h.x[SP - 1] - 248, GivenAll(IpcAbi(), w, e.gifts);
    var entered := Exec(Taken(h), EntryCode());
    var g := AfterHandler(entered, e.handled);
    Entered(h, ctx, w);
    Handles(entered, f, ctx, w, e.handled, e.gifts);
    forall i | 0 <= i < |w.threads| ensures v.threads[i].alive == w.threads[i].alive {
      GivenKeeps(IpcAbi(), w, e.gifts, i);
    }
    GivenKeeps(IpcAbi(), w, e.gifts, w.running);
    MeansSame(ctx, w, v, CauseOf(e.scause), e.outcome, e.decision);
    if e.decision.Unchanged? {
      UnchangedReturns(g, f, ctx, v, CauseOf(e.scause), entered.sepc, e.outcome);
      UnchangedRefines(g, f, ctx, v);
    } else {
      CommonRefines(g, f, ctx, v, CauseOf(e.scause), entered.sepc, e.outcome, e.decision);
    }
  }

  lemma UnchangedReturns(g: Hart, f: nat, ctx: seq<U64>, w: World, kind: Kind, sepc: U64, outcome: Option<TrapOutcome>)
    requires Means(ctx, w, kind, outcome, Unchanged)
    ensures FromUser(g.sstatus) ==> Common(g, f, kind, sepc, outcome) == Returns(g)
  {
  }

  ghost predicate EventOk(h: Hart, ctx: seq<U64>, w: World, e: Event) {
    match e
    case UserCode(_, _, mem) =>
      |mem| == |h.mem| && forall i | 0 <= i < |ctx| && Room(mem, ctx[i], 40) :: Words(mem, ctx[i], 40) == Words(h.mem, ctx[i], 40)
    case Trapped(t) => Legitimate(h, ctx, w, t)
  }

  function HartStep(h: Hart, e: Event): Option<Hart> {
    match e
    case UserCode(x, pc, mem) => Some(h.(x := x, pc := pc, mem := mem))
    case Trapped(t) => Trap(h, t.scause, t.handled, t.outcome)
  }

  lemma UserRefines(h: Hart, ctx: seq<U64>, w: World, e: Event)
    requires Represents(h, ctx, w) && EventOk(h, ctx, w, e) && e.UserCode?
    ensures Represents(h.(x := e.x, pc := e.pc, mem := e.mem), ctx, Next(IpcAbi(), w, Meaning(e)))
  {
    hide Resumable;
    AllKept(h.mem, e.mem, ctx, w, w.running);
    ContextKept(h.mem, e.mem, ctx[w.running], Current(w));
  }

  function HartRun(h: Hart, es: seq<Event>): Option<Hart>
    decreases |es|
  {
    if es == [] then Some(h)
    else match HartStep(h, es[0])
      case None => None
      case Some(g) => HartRun(g, es[1..])
  }

  function Meanings(es: seq<Event>): (hs: seq<Happening>)
    ensures |hs| == |es|
  {
    if es == [] then [] else [Meaning(es[0])] + Meanings(es[1..])
  }

  ghost predicate RunOk(h: Hart, ctx: seq<U64>, w: World, es: seq<Event>)
    decreases |es|
  {
    es == [] ||
    (EventOk(h, ctx, w, es[0]) && match HartStep(h, es[0])
      case None => true
      case Some(g) => RunOk(g, ctx, Next(IpcAbi(), w, Meaning(es[0])), es[1..]))
  }

  /** An event that halts the machine. */
  predicate Stops(e: Event) {
    e.Trapped? && Halting(e.trap)
  }

  /** Every run of the hart is a run of the threads, or ends in a fatal trap without a
      handler, and only there. */
  lemma {:induction false} RunRefines(h: Hart, ctx: seq<U64>, w: World, es: seq<Event>)
    requires Represents(h, ctx, w) && RunOk(h, ctx, w, es)
    ensures var r := HartRun(h, es);
      && (r.None? <==> exists k :: 0 <= k < |es| && Stops(es[k]))
      && (r.Some? ==> Represents(r.value, ctx, History(IpcAbi(), w, Meanings(es))))
    decreases |es|
  {
    hide Represents, Trap, Next, Legitimate, Halting;
    if es != [] {
      if es[0].UserCode? {
        UserRefines(h, ctx, w, es[0]);
      } else {
        TrapRefines(h, ctx, w, es[0].trap);
      }
      StopsSplit(es);
      if !Stops(es[0]) {
        RunRefines(HartStep(h, es[0]).value, ctx, Next(IpcAbi(), w, Meaning(es[0])), es[1..]);
      }
    }
  }

  lemma {:induction false} StopsSplit(es: seq<Event>)
    requires es != []
    ensures (exists k :: 0 <= k < |es| && Stops(es[k])) <==>
      Stops(es[0]) || exists k :: 0 <= k < |es[1..]| && Stops(es[1..][k])
  {
    if k :| 0 < k < |es| && Stops(es[k]) {
      assert Stops(es[1..][k - 1]);
    }
    if k :| 0 <= k < |es[1..]| && Stops(es[1..][k]) {
      assert Stops(es[k + 1]);
    }
  }

  lemma {:induction false} MeaningsOfTwo(a: seq<Event>, b: seq<Event>)
    ensures Meanings(a + b) == Meanings(a) + Meanings(b)
    decreases |a|
  {
    hide Meaning;
    if a == [] {
      assert a + b == b;
    } else {
      assert (a + b)[1..] == a[1..] + b;
      MeaningsOfTwo(a[1..], b);
    }
  }

  function Span(out: TrapEvent, es: seq<Event>, back: TrapEvent): seq<Event> {
    [Trapped(out)] + es + [Trapped(back)]
  }

  lemma {:induction false} SpanMeans(out: TrapEvent, es: seq<Event>, back: TrapEvent)
    ensures Meanings(Span(out, es, back)) == Whole(Meaning(Trapped(out)), Meanings(es), Meaning(Trapped(back)))
  {
    hide Meaning;
    MeaningsOfTwo([Trapped(out)] + es, [Trapped(back)]);
    MeaningsOfTwo([Trapped(out)], es);
    assert [Trapped(out)][1..] == [] && [Trapped(back)][1..] == [];
    assert Meanings([Trapped(out)]) == [Meaning(Trapped(out))] + Meanings([]);
    assert Meanings([Trapped(back)]) == [Meaning(Trapped(back))] + Meanings([]);
  }

  /** On the machine: from the trap that switches the running thread out to the next that
      switches it in, x, pc and satp are those it trapped with, but for the
      last results written for it; a handoff on either side keeps only its registers. */
  lemma {:induction false} SuspendedThreadReturns(h: Hart, ctx: seq<U64>, w: World,
                                                  out: TrapEvent, es: seq<Event>, back: TrapEvent)
    requires Represents(h, ctx, w) && RunOk(h, ctx, w, Span(out, es, back))
    requires Suspension(w, Meaning(Trapped(out)), Meanings(es), Meaning(Trapped(back)))
    ensures var r, given := HartRun(h, Span(out, es, back)), Meanwhile(Meanings(es), Meaning(Trapped(back)));
      r.Some? ==>
            && r.value.pc == (if out.scause == 8 then Plus(h.pc, 4) else h.pc) && r.value.satp == h.satp
            && (out.decision.Yield? && !back.decision.Handoff? ==>
                  r.value.x == Delivered(IpcAbi(), h.x, given, w.running))
            && (forall k | 0 <= k < 31 ::
                  && (IpcAbi().kept(k) ==> r.value.x[k] == Delivered(IpcAbi(), h.x, given, w.running)[k])
                  && (!IpcAbi().kept(k) && back.decision.Handoff? ==> r.value.x[k] == 0))
  {
    hide HartRun, RunOk, Meanings, History, Delivered, Separate, AllResumable, IpcAbi, Plus;
    var first_, last := Meaning(Trapped(out)), Meaning(Trapped(back));
    RunRefines(h, ctx, w, Span(out, es, back));
    SpanMeans(out, es, back);
    ComesBack(IpcAbi(), w, first_, Meanings(es), last);
    if first_.decision.Yield? && !last.decision.Handoff? {
      FullSwitchKeepsAll(IpcAbi(), w, first_, Meanings(es), last);
    }
    forall k | 0 <= k < 31
      ensures var v := History(IpcAbi(), w, Whole(first_, Meanings(es), last));
        var given := Meanwhile(Meanings(es), last);
        && v.running < |v.threads| && |Current(v).x| == 31
        && (IpcAbi().kept(k) ==> Current(v).x[k] == Delivered(IpcAbi(), Current(w).x, given, w.running)[k])
        && (!IpcAbi().kept(k) && last.decision.Handoff? ==> Current(v).x[k] == 0)
    {
      HandoffKeeps(IpcAbi(), w, first_, Meanings(es), last, k);
    }
  }

  // ---------------------------------------------------------------------------
  // From boot on
  // ---------------------------------------------------------------------------

  /** The arguments of one `init_user_context`. */
  datatype Spec = Spec(entry: U64, stackTop: U64, rootFrame: U64)

  function FreshThread(satp: U64, s: Spec): Thread {
    var x := Zeros(31)[SP - 1 := s.stackTop];
    Thread(x, s.entry, FreshSatp(satp, s.rootFrame), x, true)
  }

  ghost predicate Fits(ctx: seq<U64>, specs: seq<Spec>, words: nat) {
    |ctx| == |specs| && Separate(ctx, words)
  }

  /** Memory once every context was initialised. */
  function Initialised(h: Hart, ctx: seq<U64>, specs: seq<Spec>): (m: seq<U64>)
    requires Fits(ctx, specs, |h.mem|)
    ensures |m| == |h.mem|
  {
    if ctx == [] then h.mem
    else
      var n, s := |ctx| - 1, specs[|ctx| - 1];
      Put(Initialised(h, ctx[..n], specs[..n]), ctx[n], FreshContext(h.sstatus, h.satp, s.entry, s.stackTop, s.rootFrame))
  }

  lemma {:induction false} InitialisedAll(h: Hart, ctx: seq<U64>, specs: seq<Spec>)
    requires Fits(ctx, specs, |h.mem|)
    ensures forall i | 0 <= i < |ctx| :: Resumable(Initialised(h, ctx, specs), ctx[i], FreshThread(h.satp, specs[i]))
  {
    hide Put, Words, Resumable, FreshContext, FreshThread;
    if ctx != [] {
      var n, s := |ctx| - 1, specs[|ctx| - 1];
      var m := Initialised(h, ctx[..n], specs[..n]);
      var words := FreshContext(h.sstatus, h.satp, s.entry, s.stackTop, s.rootFrame);
      InitialisedAll(h, ctx[..n], specs[..n]);
      FreshIs(h.(mem := m), ctx[n], s);
      forall i | 0 <= i < n ensures Resumable(Put(m, ctx[n], words), ctx[i], FreshThread(h.satp, specs[i])) {
        assert ctx[..n][i] == ctx[i] && specs[..n][i] == specs[i] && Apart(ctx[i], ctx[n]);
        SameWords(m, ctx[n], words, ctx[i], 40);
        ContextKept(m, Put(m, ctx[n], words), ctx[i], FreshThread(h.satp, specs[i]));
      }
    }
  }

  lemma FreshIs(h: Hart, at: U64, s: Spec)
    requires Room(h.mem, at, 40)
    ensures Resumable(Put(h.mem, at, FreshContext(h.sstatus, h.satp, s.entry, s.stackTop, s.rootFrame)), at, FreshThread(h.satp, s))
  {
    hide Put, Words, Resumable, FreshContext, FreshSatp, Zeros;
    FreshIsResumable(h, at, s.entry, s.stackTop, s.rootFrame);
  }

  function FreshThreads(satp: U64, specs: seq<Spec>): (ts: seq<Thread>)
    ensures |ts| == |specs|
  {
    seq(|specs|, i requires 0 <= i < |specs| => FreshThread(satp, specs[i]))
  }

  /** From boot: contexts initialised for any threads, one of them resumed by
      `resume_user`, then any run. It is a run of those threads, each starting at its
      entry with zero registers but its stack, up to a fatal trap without a handler. */
  lemma {:induction false} BootedRunRefines(h: Hart, ctx: seq<U64>, specs: seq<Spec>, first: nat, es: seq<Event>)
    requires Fits(ctx, specs, |h.mem|) && first < |ctx|
    requires RunOk(RestoreFull(h.(mem := Initialised(h, ctx, specs)), ctx[first]), ctx, World(FreshThreads(h.satp, specs), first), es)
    ensures var r := HartRun(RestoreFull(h.(mem := Initialised(h, ctx, specs)), ctx[first]), es);
      && (r.None? <==> exists k :: 0 <= k < |es| && Stops(es[k]))
      && (r.Some? ==> Represents(r.value, ctx, History(IpcAbi(), World(FreshThreads(h.satp, specs), first), Meanings(es))))
  {
    hide Resumable, Initialised, RestoreFull, RestoreFast, RunOk, HartRun, FreshThread, Represents, Woken;
    var w := World(FreshThreads(h.satp, specs), first);
    var g := h.(mem := Initialised(h, ctx, specs));
    InitialisedAll(h, ctx, specs);
    WakesAsItIs(h.satp, specs, first);
    WokenUp(g, ctx, w, first, false);
    RunRefines(RestoreFull(g, ctx[first]), ctx, w, es);
  }

  lemma {:induction false} WakesAsItIs(satp: U64, specs: seq<Spec>, first: nat)
    requires first < |specs|
    ensures var w := World(FreshThreads(satp, specs), first);
      Wake(IpcAbi(), w, first, false) == w
    ensures forall i | 0 <= i < |specs| :: FreshThread(satp, specs[i]).alive
  {
    hide FreshSatp;
    var ts := FreshThreads(satp, specs);
    assert ts[first := ts[first]] == ts;
  }
}
