/** Every run of exceptions, switches and user code on one AArch64 core is a run of
    independent threads, and SP_EL1 never drifts. */
module Aarch64Threads {
  import opened Bits
  import opened Options
  import opened Threads
  import opened WordMemory
  import opened Aarch64Trap

  /** A thread's register file: x0..x30, SP_EL0, PSTATE. */
  function File(x: Regs, spEl0: U64, pstate: U64): (f: seq<U64>)
    ensures |f| == 33 && f[..31] == x && f[31] == spEl0 && f[32] == pstate
  {
    x + [spEl0, pstate]
  }

  predicate Apart(a: nat, b: nat) {
    a + 320 <= b || b + 320 <= a
  }

  /** Contexts, one per thread, pairwise disjoint, and the two places SP_EL1 can be:
      the stack it first entered EL0 on and the boot stack top, both clear of them. */
  ghost predicate Layout(ctx: seq<U64>, first: U64, top: U64, words: nat) {
    && (forall i | 0 <= i < |ctx| :: ctx[i] % 8 == 0 && ctx[i] / 8 + 40 <= words)
    && (forall i, j | 0 <= i < j < |ctx| :: Apart(ctx[i], ctx[j]))
    && StackClear(ctx, first, words) && StackClear(ctx, top, words)
  }

  ghost predicate StackClear(ctx: seq<U64>, sp: U64, words: nat) {
    && 256 <= sp && sp % 8 == 0 && sp / 8 <= words
    && forall i | 0 <= i < |ctx| :: sp <= ctx[i] || ctx[i] + 320 <= sp - 256
  }

  /** The context at `at` holds the thread's saved registers. */
  ghost predicate Holds(mem: seq<U64>, at: U64, t: Thread)
    requires Room(mem, at, 40)
  {
    var w := Words(mem, at, 40);
    t.saved == File(w[..31], w[31], w[33])
  }

  /** The context at `at` can resume the thread, at EL0. */
  ghost predicate Resumable(mem: seq<U64>, at: U64, t: Thread)
    requires Room(mem, at, 40)
  {
    var w := Words(mem, at, 40);
    Holds(mem, at, t) && w[32] == t.pc && w[34] == t.space && IsEl0(w[33])
  }

  ghost predicate AllResumable(mem: seq<U64>, ctx: seq<U64>, w: World, except: nat)
    requires |ctx| == |w.threads| && forall i | 0 <= i < |ctx| :: Room(mem, ctx[i], 40)
  {
    forall i | 0 <= i < |ctx| && i != except && w.threads[i].alive :: Resumable(mem, ctx[i], w.threads[i])
  }

  /** The core runs the current thread at EL0, with SP_EL1 in one of its two places. */
  ghost predicate Represents(h: Core, first: U64, ctx: seq<U64>, w: World) {
    && Layout(ctx, first, h.top, |h.mem|) && |ctx| == |w.threads| && w.running < |ctx| && Current(w).alive
    && Current(w).x == File(h.x, h.spEl0, h.pstate) && h.pc == Current(w).pc && h.ttbr0 == Current(w).space
    && IsEl0(h.pstate) && (h.sp == first || h.sp == h.top)
    && Holds(h.mem, ctx[w.running], Current(w))
    && AllResumable(h.mem, ctx, w, w.running)
  }

  /** In the handler: the frame at SP_EL1 and the system registers hold the running
      thread, which a return goes back to at ELR and SPSR. */
  ghost predicate InKernel(h: Core, first: U64, ctx: seq<U64>, w: World) {
    && Layout(ctx, first, h.top, |h.mem|) && |ctx| == |w.threads| && w.running < |ctx| && Current(w).alive
    && (h.sp == first - 256 || h.sp == h.top - 256)
    && Current(w).x == File(Words(h.mem, h.sp, 31), h.spEl0, Status(Current(w))) && IsEl0(Status(Current(w)))
    && h.ttbr0 == Current(w).space
    && Holds(h.mem, ctx[w.running], Current(w))
    && AllResumable(h.mem, ctx, w, w.running)
  }

  /** PSTATE in a thread's register file. */
  function Status(t: Thread): U64 {
    if |t.x| == 33 then t.x[32] else 0
  }

  lemma ContextKept(m: seq<U64>, m': seq<U64>, at: U64, t: Thread)
    requires Room(m, at, 40) && |m'| == |m| && Words(m', at, 40) == Words(m, at, 40)
    ensures Holds(m, at, t) ==> Holds(m', at, t)
    ensures Resumable(m, at, t) ==> Resumable(m', at, t)
  {
  }

  lemma AllKept(m: seq<U64>, m': seq<U64>, ctx: seq<U64>, w: World, except: nat)
    requires |ctx| == |w.threads| && forall i | 0 <= i < |ctx| :: Room(m, ctx[i], 40) && Room(m', ctx[i], 40)
    requires |m'| == |m| && forall i | 0 <= i < |ctx| && i != except :: Words(m', ctx[i], 40) == Words(m, ctx[i], 40)
    requires AllResumable(m, ctx, w, except)
    ensures AllResumable(m', ctx, w, except)
  {
    forall i | 0 <= i < |ctx| && i != except && w.threads[i].alive ensures Resumable(m', ctx[i], w.threads[i]) {
      ContextKept(m, m', ctx[i], w.threads[i]);
    }
  }

  // ---------------------------------------------------------------------------
  // Into the kernel
  // ---------------------------------------------------------------------------

  lemma Entered(h: Core, first: U64, ctx: seq<U64>, w: World, kind: Kind)
    requires Represents(h, first, ctx, w)
    ensures var g := Exec(Taken(h, kind), EntryCode());
      InKernel(g, first, ctx, w) && g.elr == Taken(h, kind).elr && g.spsr == Status(Current(w))
  {
    hide Exec, EntryCode, Put, Words, Resumable, Holds;
    var f := h.sp - 256;
    EntryEffect(Taken(h, kind));
    PutBack(h.mem, f, h.x);
    forall i | 0 <= i < |ctx| ensures Words(Put(h.mem, f, h.x), ctx[i], 40) == Words(h.mem, ctx[i], 40) {
      SameWords(h.mem, f, h.x, ctx[i], 40);
    }
    AllKept(h.mem, Put(h.mem, f, h.x), ctx, w, w.running);
    ContextKept(h.mem, Put(h.mem, f, h.x), ctx[w.running], Current(w));
  }

  /** A poke of a thread that is not running. */
  ghost predicate Fitting(ctx: seq<U64>, w: World, p: Poke, g: Gift) {
    && g.thread < |ctx| == |w.threads| && g.thread != w.running && w.threads[g.thread].alive
    && p == Poke(ctx[g.thread], g.v0, g.v1)
  }

  lemma PokeInside(mem: seq<U64>, at: nat, v0: U64, v1: U64)
    requires Room(mem, at, 40)
    ensures Words(PokeAt(mem, Poke(at, v0, v1)), at, 40) == Words(mem, at, 40)[0 := v0][1 := v1]
  {
    assert (at + 8) / 8 == at / 8 + 1;
  }

  lemma PokedContext(mem: seq<U64>, at: U64, t: Thread, v0: U64, v1: U64)
    requires Room(mem, at, 40) && Resumable(mem, at, t)
    ensures Resumable(PokeAt(mem, Poke(at, v0, v1)), at, t.(saved := SetAt(SetAt(t.saved, 0, v0), 1, v1)))
  {
    hide PokeAt, Words;
    PokeInside(mem, at, v0, v1);
    var w := Words(mem, at, 40);
    assert w[0 := v0][1 := v1][..31] == w[..31][0 := v0][1 := v1];
    assert File(w[..31], w[31], w[33])[0 := v0][1 := v1] == File(w[..31][0 := v0][1 := v1], w[31], w[33]);
  }

  lemma PokeElsewhere(mem: seq<U64>, p: Poke, at: nat, n: nat)
    requires Room(mem, p.ctx, 40) && Room(mem, at, n) && (p.ctx + 320 <= at || at + 8 * n <= p.ctx)
    ensures Words(PokeAt(mem, p), at, n) == Words(mem, at, n)
  {
    assert (p.ctx + 8) / 8 == p.ctx / 8 + 1;
  }

  lemma Poked(h: Core, first: U64, ctx: seq<U64>, w: World, p: Poke, g: Gift)
    requires InKernel(h, first, ctx, w) && Fitting(ctx, w, p, g)
    ensures InKernel(h.(mem := PokeAt(h.mem, p)), first, ctx, Given(IpcAbi(), w, g))
  {
    hide PokeAt, Resumable, Words, SetAt;
    var m', v := PokeAt(h.mem, p), Given(IpcAbi(), w, g);
    PokeElsewhere(h.mem, p, h.sp, 31);
    PokeElsewhere(h.mem, p, ctx[w.running], 40);
    ContextKept(h.mem, m', ctx[w.running], Current(w));
    forall i | 0 <= i < |ctx| && i != w.running && v.threads[i].alive ensures Resumable(m', ctx[i], v.threads[i]) {
      if i == g.thread {
        PokedContext(h.mem, ctx[i], w.threads[i], g.v0, g.v1);
      } else {
        PokeElsewhere(h.mem, p, ctx[i], 40);
        ContextKept(h.mem, m', ctx[i], w.threads[i]);
      }
    }
  }

  ghost predicate AllFitting(ctx: seq<U64>, w: World, ps: seq<Poke>, gs: seq<Gift>) {
    |ps| == |gs| && forall k | 0 <= k < |ps| :: Fitting(ctx, w, ps[k], gs[k])
  }

  lemma {:induction false} AllPoked(h: Core, first: U64, ctx: seq<U64>, w: World, ps: seq<Poke>, gs: seq<Gift>)
    requires InKernel(h, first, ctx, w) && AllFitting(ctx, w, ps, gs)
    ensures InKernel(h.(mem := PokeAll(h.mem, ps)), first, ctx, GivenAll(IpcAbi(), w, gs))
    decreases |ps|
  {
    hide InKernel, PokeAt, Given;
    if ps != [] {
      var n := |ps| - 1;
      AllPoked(h, first, ctx, w, ps[..n], gs[..n]);
      GivenKeeps(IpcAbi(), w, gs[..n], gs[n].thread);
      Poked(h.(mem := PokeAll(h.mem, ps[..n])), first, ctx, GivenAll(IpcAbi(), w, gs[..n]), ps[n], gs[n]);
    } else {
      assert PokeAll(h.mem, ps) == h.mem;
    }
  }

  lemma Handles(h: Core, first: U64, ctx: seq<U64>, w: World, e: Handled, gs: seq<Gift>)
    requires InKernel(h, first, ctx, w) && AllFitting(ctx, w, e.pokes, gs)
    ensures InKernel(AfterHandler(h, e), first, ctx, GivenAll(IpcAbi(), w, gs))
  {
    hide PokeAll, Resumable, Holds, Words, AllFitting, GivenAll;
    AllPoked(h, first, ctx, w, e.pokes, gs);
  }

  // ---------------------------------------------------------------------------
  // Out of the kernel
  // ---------------------------------------------------------------------------

  lemma ResumableWords(mem: seq<U64>, at: U64, t: Thread, regs: Regs, sys: seq<U64>)
    requires Room(mem, at, 40) && |sys| == 4 && Words(mem, at, 40)[..35] == regs + sys
    requires t.saved == File(regs, sys[0], sys[2]) && sys[1] == t.pc && sys[3] == t.space && IsEl0(sys[2])
    ensures Resumable(mem, at, t)
  {
    hide Words;
    var w := Words(mem, at, 40);
    assert w[..31] == w[..35][..31] && w[31] == w[..35][31] && w[32] == w[..35][32] && w[33] == w[..35][33] && w[34] == w[..35][34];
  }

  lemma FullParked(h: Core, first: U64, ctx: seq<U64>, w: World, resume: U64)
    requires InKernel(h, first, ctx, w) && h.spsr == Status(Current(w))
    ensures Resumable(SaveFull(h, h.sp, resume, ctx[w.running]).mem, ctx[w.running], Parked(IpcAbi(), Current(w), resume, false))
  {
    hide Put, Words, Resumable;
    var at, regs := ctx[w.running], Words(h.mem, h.sp, 31);
    ContextWords(h.mem, at, regs + LiveWords(h, resume));
    ResumableWords(SaveFull(h, h.sp, resume, at).mem, at, Parked(IpcAbi(), Current(w), resume, false), regs, LiveWords(h, resume));
  }

  /** The registers the fast path saves, as the thread's file sees them. */
  lemma FastFile(x: Regs, spEl0: U64, pstate: U64, y: Regs, ySp: U64, yPstate: U64)
    ensures Merge(IpcAbi().kept, File(x, spEl0, pstate), File(y, ySp, yPstate)) == File(Merge(IpcAbi().kept, x, y), spEl0, pstate)
  {
  }

  lemma FastParked(h: Core, first: U64, ctx: seq<U64>, w: World, resume: U64)
    requires InKernel(h, first, ctx, w) && h.spsr == Status(Current(w))
    ensures Resumable(SaveFast(h, h.sp, resume, ctx[w.running]).mem, ctx[w.running], Parked(IpcAbi(), Current(w), resume, true))
  {
    hide Put, Words, Merge, Resumable, IpcAbi;
    var at, regs := ctx[w.running], Words(h.mem, h.sp, 31);
    var old_ := Words(h.mem, at, 40);
    ContextRegs(h.mem, at);
    FastFile(regs, h.spEl0, h.spsr, old_[..31], old_[31], old_[33]);
    ContextWords(h.mem, at, Merge(IpcAbi().kept, regs, old_[..31]) + LiveWords(h, resume));
    ResumableWords(SaveFast(h, h.sp, resume, at).mem, at, Parked(IpcAbi(), Current(w), resume, true),
                   Merge(IpcAbi().kept, regs, old_[..31]), LiveWords(h, resume));
  }

  /** After the save, every living thread can be resumed. */
  lemma SavedOut(h: Core, first: U64, ctx: seq<U64>, w: World, resume: U64, handoff: bool)
    requires InKernel(h, first, ctx, w) && h.spsr == Status(Current(w))
    ensures var g := if handoff then SaveFast(h, h.sp, resume, ctx[w.running]) else SaveFull(h, h.sp, resume, ctx[w.running]);
      && |g.mem| == |h.mem| && g.top == h.top
      && AllResumable(g.mem, ctx, Updated(w, w.running, Parked(IpcAbi(), Current(w), resume, handoff)), |ctx|)
  {
    hide Put, Words, Merge, Resumable, Holds;
    var at := ctx[w.running];
    var g := if handoff then SaveFast(h, h.sp, resume, at) else SaveFull(h, h.sp, resume, at);
    FullParked(h, first, ctx, w, resume);
    FastParked(h, first, ctx, w, resume);
    var words := (if handoff then Merge(IpcAbi().kept, Words(h.mem, h.sp, 31), Words(h.mem, at, 31)) else Words(h.mem, h.sp, 31))
      + LiveWords(h, resume);
    forall i | 0 <= i < |ctx| && i != w.running && w.threads[i].alive ensures Resumable(g.mem, ctx[i], w.threads[i]) {
      assert Apart(ctx[i], at);
      SameWords(h.mem, at, words, ctx[i], 40);
      ContextKept(h.mem, g.mem, ctx[i], w.threads[i]);
    }
  }

  /** Restoring a context runs the thread it holds, at EL0, on the boot stack top. */
  lemma WokenUp(h: Core, first: U64, ctx: seq<U64>, w: World, to: nat, handoff: bool)
    requires Layout(ctx, first, h.top, |h.mem|) && |ctx| == |w.threads| && to < |ctx| && w.threads[to].alive
    requires AllResumable(h.mem, ctx, w, |ctx|)
    ensures Represents(if handoff then RestoreFast(h, ctx[to]) else RestoreFull(h, ctx[to]), first, ctx,
                       Wake(IpcAbi(), w, to, handoff))
  {
    hide Exec, Merge, RestoreCode, FastRestoreCode, Words, StackClear;
    var at, h1 := ctx[to], h.(x := h.x[X30 := ctx[to]]);
    assert Resumable(h.mem, at, w.threads[to]);
    RestoreEffect(h1);
    FastRestoreEffect(h1);
    var c := Words(h.mem, at, 40);
    FastZeros(c[..31], c[31], c[33]);
    assert AllResumable(h.mem, ctx, w, to);
  }

  lemma FastZeros(x: Regs, spEl0: U64, pstate: U64)
    ensures Merge(IpcAbi().kept, File(x, spEl0, pstate), Zeros(33)) == File(FastRegs(x), spEl0, pstate)
  {
  }

  lemma KilledOff(h: Core, first: U64, ctx: seq<U64>, w: World)
    requires InKernel(h, first, ctx, w)
    ensures AllResumable(h.mem, ctx, Updated(w, w.running, Current(w).(alive := false)), |ctx|)
  {
    hide Resumable;
  }

  /** The epilogue resumes the thread with the frame's registers, at ELR and SPSR, and
      puts SP_EL1 back where the exception found it. */
  lemma Returned(h: Core, first: U64, ctx: seq<U64>, w: World)
    requires InKernel(h, first, ctx, w) && h.elr == Current(w).pc && h.spsr == Status(Current(w))
    ensures Represents(Eret(Exec(h, ReturnCode())), first, ctx, w)
  {
    hide Exec, ReturnCode, Resumable, Words;
    ReturnEffect(h);
  }

  /** Writing the x0 slot or the x1 slot of the frame. */
  lemma SlotWritten(h: Core, first: U64, ctx: seq<U64>, w: World, slot: nat, v: U64)
    requires InKernel(h, first, ctx, w) && slot <= 1
    ensures InKernel(h.(mem := Store(h.mem, h.sp + 8 * slot, v)), first, ctx,
                     Updated(w, w.running, Current(w).(x := SetAt(Current(w).x, slot, v))))
  {
    hide Resumable;
    var m' := Store(h.mem, h.sp + 8 * slot, v);
    assert (h.sp + 8 * slot) / 8 == h.sp / 8 + slot;
    assert Words(m', h.sp, 31) == Words(h.mem, h.sp, 31)[slot := v];
    assert File(Words(h.mem, h.sp, 31), h.spEl0, Status(Current(w)))[slot := v]
      == File(Words(m', h.sp, 31), h.spEl0, Status(Current(w)));
    forall i | 0 <= i < |ctx| ensures Words(m', ctx[i], 40) == Words(h.mem, ctx[i], 40) {
    }
    AllKept(h.mem, m', ctx, w, w.running);
    ContextKept(h.mem, m', ctx[w.running], Current(w));
  }

  /** A context `init_user_context` wrote resumes a new thread at its entry point. */
  lemma FreshIsResumable(mem: seq<U64>, at: U64, ttbr0: U64, entry: U64, stackTop: U64, rootFrame: U64)
    requires Room(mem, at, 40)
    ensures var m := Put(mem, at, FreshContext(ttbr0, entry, stackTop, rootFrame));
      var f := File(Zeros(31), stackTop, 0);
      Resumable(m, at, Thread(f, entry, if rootFrame != 0 then rootFrame else ttbr0, f, true))
  {
    hide Put, Words;
    var f := File(Zeros(31), stackTop, 0);
    ContextWords(mem, at, FreshContext(ttbr0, entry, stackTop, rootFrame));
    ResumableWords(Put(mem, at, FreshContext(ttbr0, entry, stackTop, rootFrame)), at,
                   Thread(f, entry, if rootFrame != 0 then rootFrame else ttbr0, f, true), Zeros(31),
                   [stackTop, entry, 0, if rootFrame != 0 then rootFrame else ttbr0]);
  }

  /** `enter_user` starts a thread at EL0 and leaves SP_EL1 as the first place. */
  lemma FirstEntry(h: Core, ctx: seq<U64>, w: World, entry: U64, stackTop: U64)
    requires Layout(ctx, h.sp, h.top, |h.mem|) && |ctx| == |w.threads| && w.running < |ctx|
    requires Current(w) == Thread(File(h.x, stackTop, 0), entry, h.ttbr0, Current(w).saved, true)
    requires Holds(h.mem, ctx[w.running], Current(w)) && AllResumable(h.mem, ctx, w, w.running)
    ensures Represents(Eret(h.(spEl0 := stackTop, elr := entry, spsr := 0)), h.sp, ctx, w)
  {
    hide Resumable, Holds;
  }

  // ---------------------------------------------------------------------------
  // Traps and runs
  // ---------------------------------------------------------------------------

  /** The kernel's side of the bargain: it saves into the running thread's context
      and resumes a living one; killing switches to another. */
  ghost predicate Means(ctx: seq<U64>, w: World, kind: Kind, outcome: Option<TrapOutcome>, d: Decision) {
    && w.running < |ctx| == |w.threads|
    && (Switches(d) ==> d.to < |ctx| && w.threads[d.to].alive)
    && match outcome
       case None => (kind.Irq? && d == Unchanged)
       case Some(o) =>
         (match kind
          case OtherSync => false
          case Irq(false) => d == Unchanged
          case _ => Answers(ctx, w, kind, o, d))
  }

  ghost predicate Answers(ctx: seq<U64>, w: World, kind: Kind, o: TrapOutcome, d: Decision)
    requires w.running < |ctx| == |w.threads| && (Switches(d) ==> d.to < |ctx|)
  {
    match o
    case Resume(r0) => d == if kind.Irq? then Unchanged else Answer1(r0)
    case Resume2(r0, r1) => d == if kind.Irq? then Unchanged else Answer2(r0, r1)
    case SwitchTo(save, into) => save == ctx[w.running] && d.Yield? && into == ctx[d.to]
    case SwitchToFast(save, into) =>
      save == ctx[w.running] && (if kind.Svc? then d.Handoff? else d.Yield?) && into == ctx[d.to]
    case Terminate(into) => d.Kill? && d.to != w.running && into == ctx[d.to]
  }

  function Resumes(e: Ending): Option<Core> {
    match e
    case Halts => None
    case Away(g) => Some(g)
    case Returns(g) => Some(Eret(Exec(g, ReturnCode())))
  }

  lemma SwitchRefines(h: Core, first: U64, ctx: seq<U64>, w: World, resume: U64, to: nat, handoff: bool)
    requires InKernel(h, first, ctx, w) && h.spsr == Status(Current(w)) && to < |ctx| && w.threads[to].alive
    ensures var g := if handoff then SaveFast(h, h.sp, resume, ctx[w.running]) else SaveFull(h, h.sp, resume, ctx[w.running]);
      Represents(if handoff then RestoreFast(g, ctx[to]) else RestoreFull(g, ctx[to]), first, ctx,
                 Wake(IpcAbi(), Updated(w, w.running, Parked(IpcAbi(), Current(w), resume, handoff)), to, handoff))
  {
    hide SaveFast, SaveFull, RestoreFast, RestoreFull, Resumable, Holds, Merge;
    var g := if handoff then SaveFast(h, h.sp, resume, ctx[w.running]) else SaveFull(h, h.sp, resume, ctx[w.running]);
    SavedOut(h, first, ctx, w, resume, handoff);
    WokenUp(g, first, ctx, Updated(w, w.running, Parked(IpcAbi(), Current(w), resume, handoff)), to, handoff);
  }

  lemma KillRefines(h: Core, first: U64, ctx: seq<U64>, w: World, to: nat)
    requires InKernel(h, first, ctx, w) && to < |ctx| && w.threads[to].alive && to != w.running
    ensures Represents(RestoreFull(h, ctx[to]), first, ctx,
                       Wake(IpcAbi(), Updated(w, w.running, Current(w).(alive := false)), to, false))
  {
    hide RestoreFull, Resumable, Holds;
    KilledOff(h, first, ctx, w);
    WokenUp(h, first, ctx, Updated(w, w.running, Current(w).(alive := false)), to, false);
  }

  /** Where the thread goes on is not yet settled in the handler. */
  lemma AnyPc(h: Core, first: U64, ctx: seq<U64>, w: World, pc: U64, elr: U64, spsr: U64)
    requires w.running < |w.threads| && InKernel(h, first, ctx, w)
    ensures InKernel(h.(elr := elr, spsr := spsr), first, ctx, Updated(w, w.running, Current(w).(pc := pc)))
  {
    hide Resumable;
  }

  lemma AnswerRefines(h: Core, first: U64, ctx: seq<U64>, w: World, pc: U64, v0: U64, v1: Option<U64>)
    requires w.running < |w.threads| && InKernel(h, first, ctx, w)
    ensures var m1 := Store(h.mem, h.sp, v0);
      var m2 := if v1.None? then m1 else Store(m1, h.sp + 8, v1.value);
      var x1 := SetAt(Current(w).x, 0, v0);
      Represents(Eret(Exec(h.(mem := m2, elr := pc, spsr := Status(Current(w))), ReturnCode())), first, ctx,
                 Updated(w, w.running, Current(w).(pc := pc, x := if v1.None? then x1 else SetAt(x1, 1, v1.value))))
  {
    hide Exec, ReturnCode, Represents, InKernel, Store;
    var t, s := Current(w), Status(Current(w));
    var x1 := SetAt(t.x, 0, v0);
    var h0 := h.(elr := pc, spsr := s);
    var h1 := h0.(mem := Store(h.mem, h.sp, v0));
    var w0 := Updated(w, w.running, t.(pc := pc));
    AnyPc(h, first, ctx, w, pc, pc, s);
    SlotWritten(h0, first, ctx, w0, 0, v0);
    var w1 := Updated(w0, w.running, Current(w0).(x := x1));
    assert w1 == Updated(w, w.running, t.(pc := pc, x := x1));
    match v1
    case None =>
      Returned(h1, first, ctx, w1);
    case Some(v) =>
      SlotWritten(h1, first, ctx, w1, 1, v);
      var w2 := Updated(w1, w.running, Current(w1).(x := SetAt(x1, 1, v)));
      assert w2 == Updated(w, w.running, t.(pc := pc, x := SetAt(x1, 1, v)));
      Returned(h1.(mem := Store(h1.mem, h.sp + 8, v)), first, ctx, w2);
  }

  /** The system registers as the exception left them: what every arm but a system
      call's Resume and a Terminate relies on. */
  predicate Quiet(h: Core, w: World, elr: U64)
    requires w.running < |w.threads|
  {
    h.elr == elr && h.spsr == Status(Current(w))
  }

  /** An exception that changes nothing resumes the thread where it was exactly when ELR
      and SPSR still are what the exception left. */
  lemma UnchangedRefines(h: Core, first: U64, ctx: seq<U64>, w: World)
    requires w.running < |w.threads| && InKernel(h, first, ctx, w)
    ensures Represents(Eret(Exec(h, ReturnCode())), first, ctx, w) <==> Quiet(h, w, Current(w).pc)
  {
    hide Exec, ReturnCode, Layout, AllResumable, Holds, Words;
    if Quiet(h, w, Current(w).pc) {
      hide Represents, InKernel;
      Returned(h, first, ctx, w);
    } else {
      assert Room(h.mem, h.sp, 31) by {
        RoomHere(h, first, ctx, w);
      }
      ReturnEffect(h);
    }
  }

  lemma RoomHere(h: Core, first: U64, ctx: seq<U64>, w: World)
    requires InKernel(h, first, ctx, w)
    ensures Room(h.mem, h.sp, 31)
  {
  }

  lemma CommonRefines(h: Core, first: U64, ctx: seq<U64>, w: World, kind: Kind, elr: U64,
                      outcome: Option<TrapOutcome>, d: Decision)
    requires InKernel(h, first, ctx, w) && Means(ctx, w, kind, outcome, d)
    requires elr == (if kind.Svc? then Plus(Current(w).pc, 4) else Current(w).pc)
    requires Quiet(h, w, elr) || d.Kill? || (kind.Svc? && !Switches(d))
    ensures var r := Resumes(Common(h, h.sp, kind, elr, Status(Current(w)), outcome));
      r.Some? && Represents(r.value, first, ctx, Decide(IpcAbi(), w, kind.Svc?, d))
  {
    hide Exec, ReturnCode, Resumable, Holds, Represents, SaveFast, SaveFull, RestoreFast, RestoreFull, Store, Parked, Wake,
      Layout, AllResumable;
    match d
    case Unchanged => UnchangedRefines(h, first, ctx, w);
    case Answer1(v0) => AnswerRefines(h, first, ctx, w, elr, v0, None);
    case Answer2(v0, v1) => AnswerRefines(h, first, ctx, w, elr, v0, Some(v1));
    case Yield(to) => SwitchRefines(h, first, ctx, w, elr, to, false);
    case Handoff(to) => SwitchRefines(h, first, ctx, w, elr, to, true);
    case Kill(to) => KillRefines(h, first, ctx, w, to);
  }

  /** An exception as it happens to the core, and what it means to the threads. */
  datatype TrapEvent = TrapEvent(cause: Cause, handled: Handled, outcome: Option<TrapOutcome>,
                                 gifts: seq<Gift>, decision: Decision)

  predicate Halting(e: TrapEvent) {
    Fatal(e.cause, e.outcome)
  }

  /** The handler pokes threads that wait and answers as `Means` says. */
  ghost predicate Obeys(ctx: seq<U64>, w: World, e: TrapEvent) {
    && AllFitting(ctx, w, e.handled.pokes, e.gifts)
    && Means(ctx, w, ClassOf(e.cause), e.outcome, e.decision)
  }

  /** No IRQ was nested in the handler, or the answer does not use ELR and SPSR as they
      stand: it drops the thread, or is a system call's own return. */
  predicate Undisturbed(e: TrapEvent) {
    e.handled.nested == [] || e.decision.Kill? || (ClassOf(e.cause).Svc? && !Switches(e.decision))
  }

  /** An exception that halts, or an undisturbed one whose handler keeps its side. */
  ghost predicate Legitimate(ctx: seq<U64>, w: World, e: TrapEvent) {
    Halting(e) || (Obeys(ctx, w, e) && Undisturbed(e))
  }

  lemma MeansSame(ctx: seq<U64>, w: World, v: World, kind: Kind, outcome: Option<TrapOutcome>, d: Decision)
    requires |v.threads| == |w.threads| && v.running == w.running
    requires forall i | 0 <= i < |w.threads| :: v.threads[i].alive == w.threads[i].alive
    requires Means(ctx, w, kind, outcome, d)
    ensures Means(ctx, v, kind, outcome, d)
  {
  }

  /** User code runs, changing x0..x30, SP_EL0, its flags, pc and any memory but the
      contexts; or it takes an exception. */
  datatype Event = UserCode(x: Regs, spEl0: U64, pc: U64, pstate: U64, mem: seq<U64>) | Trapped(trap: TrapEvent)

  /** What an event means to the threads. */
  function Meaning(e: Event): Happening {
    match e
    case UserCode(x, spEl0, pc, pstate, _) => Happening.Runs(File(x, spEl0, pstate), pc)
    case Trapped(t) => Traps(ClassOf(t.cause).Svc?, t.gifts, t.decision)
  }

  function Meanings(es: seq<Event>): (hs: seq<Happening>)
    ensures |hs| == |es|
  {
    if es == [] then [] else [Meaning(es[0])] + Meanings(es[1..])
  }

  /** One exception of any kind, with any answer of the handler: it halts the machine
      exactly when it is fatal, and is one step of the threads otherwise. */
  lemma TrapRefines(h: Core, first: U64, ctx: seq<U64>, w: World, e: TrapEvent)
    requires Represents(h, first, ctx, w) && Legitimate(ctx, w, e)
    ensures var r := Trap(h, ClassOf(e.cause), e.handled, e.outcome);
      && (r.None? <==> Halting(e))
      && (r.Some? ==> Represents(r.value, first, ctx, Next(IpcAbi(), w, Meaning(Trapped(e)))))
  {
    TrapHalts(h, e.cause, e.handled, e.outcome);
    if !Halting(e) {
      HandledRefines(h, first, ctx, w, e);
    }
  }

  lemma HandledRefines(h: Core, first: U64, ctx: seq<U64>, w: World, e: TrapEvent)
    requires Represents(h, first, ctx, w) && Legitimate(ctx, w, e) && !Halting(e)
    ensures var r := Trap(h, ClassOf(e.cause), e.handled, e.outcome);
      r.Some? && Represents(r.value, first, ctx, Next(IpcAbi(), w, Meaning(Trapped(e))))
  {
    hide Exec, EntryCode, ReturnCode, Resumable, Holds, Common, Decide, AllFitting, AllResumable, Layout, PokeAll, Words, Means;
    var v := GivenAll(IpcAbi(), w, e.gifts);
    var entered := Exec(Taken(h, ClassOf(e.cause)), EntryCode());
    Entered(h, first, ctx, w, ClassOf(e.cause));
    Handles(entered, first, ctx, w, e.handled, e.gifts);
    forall i | 0 <= i < |w.threads| ensures v.threads[i].alive == w.threads[i].alive {
      GivenKeeps(IpcAbi(), w, e.gifts, i);
    }
    GivenKeeps(IpcAbi(), w, e.gifts, w.running);
    MeansSame(ctx, w, v, ClassOf(e.cause), e.outcome, e.decision);
    CommonRefines(AfterHandler(entered, e.handled), first, ctx, v, ClassOf(e.cause), entered.elr, e.outcome, e.decision);
  }

  ghost predicate EventOk(h: Core, ctx: seq<U64>, w: World, e: Event) {
    match e
    case UserCode(_, _, _, pstate, mem) =>
      && IsEl0(pstate) && |mem| == |h.mem|
      && forall i | 0 <= i < |ctx| && Room(mem, ctx[i], 40) :: Words(mem, ctx[i], 40) == Words(h.mem, ctx[i], 40)
    case Trapped(t) => Legitimate(ctx, w, t)
  }

  function CoreStep(h: Core, e: Event): Option<Core> {
    match e
    case UserCode(x, spEl0, pc, pstate, mem) => Some(h.(x := x, spEl0 := spEl0, pc := pc, pstate := pstate, mem := mem))
    case Trapped(t) => Trap(h, ClassOf(t.cause), t.handled, t.outcome)
  }

  lemma UserRefines(h: Core, first: U64, ctx: seq<U64>, w: World, e: Event)
    requires Represents(h, first, ctx, w) && EventOk(h, ctx, w, e) && e.UserCode?
    ensures Represents(CoreStep(h, e).value, first, ctx, Next(IpcAbi(), w, Meaning(e)))
  {
    hide Resumable;
    AllKept(h.mem, e.mem, ctx, w, w.running);
    ContextKept(h.mem, e.mem, ctx[w.running], Current(w));
  }

  function CoreRun(h: Core, es: seq<Event>): Option<Core>
    decreases |es|
  {
    if es == [] then Some(h)
    else match CoreStep(h, es[0])
      case None => None
      case Some(g) => CoreRun(g, es[1..])
  }

  ghost predicate RunOk(h: Core, ctx: seq<U64>, w: World, es: seq<Event>)
    decreases |es|
  {
    es == [] ||
    (EventOk(h, ctx, w, es[0]) && match CoreStep(h, es[0])
      case None => true
      case Some(g) => RunOk(g, ctx, Next(IpcAbi(), w, Meaning(es[0])), es[1..]))
  }

  lemma {:induction false} ExecTop(h: Core, code: seq<Instr>)
    ensures Exec(h, code).top == h.top
    decreases |code|
  {
    if code != [] {
      ExecTop(h, code[..|code| - 1]);
    }
  }

  lemma TrapTop(h: Core, e: TrapEvent)
    ensures var r := Trap(h, ClassOf(e.cause), e.handled, e.outcome);
      r.Some? ==> r.value.top == h.top
  {
    hide Exec, Put, PokeAll, Store, Words, Merge, EntryCode, ReturnCode, RestoreCode, FastRestoreCode;
    var entered := Exec(Taken(h, ClassOf(e.cause)), EntryCode());
    ExecTop(Taken(h, ClassOf(e.cause)), EntryCode());
    forall g: Core, code: seq<Instr> ensures Exec(g, code).top == g.top {
      ExecTop(g, code);
    }
  }

  /** An event that halts the machine. */
  predicate Stops(e: Event) {
    e.Trapped? && Halting(e.trap)
  }

  /** Every run of the core is a run of the threads, or ends in a fatal exception and
      only there; and at its end, as at every point where EL0 code runs, SP_EL1 is where
      it first entered EL0 or at the stack top. */
  lemma {:induction false} RunRefines(h: Core, first: U64, ctx: seq<U64>, w: World, es: seq<Event>)
    requires Represents(h, first, ctx, w) && RunOk(h, ctx, w, es)
    ensures var r := CoreRun(h, es);
      && (r.None? <==> exists k :: 0 <= k < |es| && Stops(es[k]))
      && (r.Some? ==>
            && Represents(r.value, first, ctx, History(IpcAbi(), w, Meanings(es)))
            && (r.value.sp == first || r.value.sp == h.top) && IsEl0(r.value.pstate))
    decreases |es|
  {
    hide Trap, Next, Legitimate, Layout, Holds, AllResumable, Halting;
    if es != [] {
      if es[0].UserCode? {
        UserRefines(h, first, ctx, w, es[0]);
      } else {
        TrapRefines(h, first, ctx, w, es[0].trap);
        TrapTop(h, es[0].trap);
      }
      StopsSplit(es);
      if !Stops(es[0]) {
        RunRefines(CoreStep(h, es[0]).value, first, ctx, Next(IpcAbi(), w, Meaning(es[0])), es[1..]);
      }
    }
  }

  lemma {:induction false} StopsSplit(es: seq<Event>)
    requires es != []
    ensures (exists k :: 0 <= k < |es| && Stops(es[k])) <==>
      Stops(es[0]) || exists k :: 0 <= k < |es[1..]| && Stops(es[1..][k])
  {
    if k :| 0 < k < |es| && Stops(es[k]) {
      assert Stops(es[1..][k - 1]);
    }
    if k :| 0 <= k < |es[1..]| && Stops(es[1..][k]) {
      assert Stops(es[k + 1]);
    }
  }

  lemma {:induction false} MeaningsOfTwo(a: seq<Event>, b: seq<Event>)
    ensures Meanings(a + b) == Meanings(a) + Meanings(b)
    decreases |a|
  {
    hide Meaning;
    if a == [] {
      assert a + b == b;
    } else {
      assert (a + b)[1..] == a[1..] + b;
      MeaningsOfTwo(a[1..], b);
    }
  }

  function Span(out: TrapEvent, es: seq<Event>, back: TrapEvent): seq<Event> {
    [Trapped(out)] + es + [Trapped(back)]
  }

  lemma {:induction false} SpanMeans(out: TrapEvent, es: seq<Event>, back: TrapEvent)
    ensures Meanings(Span(out, es, back)) == Whole(Meaning(Trapped(out)), Meanings(es), Meaning(Trapped(back)))
  {
    hide Meaning;
    MeaningsOfTwo([Trapped(out)] + es, [Trapped(back)]);
    MeaningsOfTwo([Trapped(out)], es);
    assert [Trapped(out)][1..] == [] && [Trapped(back)][1..] == [];
    assert Meanings([Trapped(out)]) == [Meaning(Trapped(out))] + Meanings([]);
    assert Meanings([Trapped(back)]) == [Meaning(Trapped(back))] + Meanings([]);
  }

  /** On the machine: from the trap that switches the running thread out to the next that
      switches it in, x0..x30, SP_EL0, PSTATE, pc and TTBR0 are those it trapped with, but for the
      last results written for it; a handoff on either side keeps only its registers. */
  lemma {:induction false} SuspendedThreadReturns(h: Core, first: U64, ctx: seq<U64>, w: World,
                                                  out: TrapEvent, es: seq<Event>, back: TrapEvent)
    requires Represents(h, first, ctx, w) && RunOk(h, ctx, w, Span(out, es, back))
    requires Suspension(w, Meaning(Trapped(out)), Meanings(es), Meaning(Trapped(back)))
    ensures var r, given := CoreRun(h, Span(out, es, back)), Meanwhile(Meanings(es), Meaning(Trapped(back)));
      r.Some? ==>
            && r.value.pc == (if out.cause.Sync? && out.cause.esr / 0x400_0000 % 64 == 0x15 then Plus(h.pc, 4) else h.pc)
            && r.value.ttbr0 == h.ttbr0
            && (out.decision.Yield? && !back.decision.Handoff? ==>
                  File(r.value.x, r.value.spEl0, r.value.pstate) == Delivered(IpcAbi(), File(h.x, h.spEl0, h.pstate), given, w.running))
            && (forall k | 0 <= k < 33 ::
                  var now, then_ := File(r.value.x, r.value.spEl0, r.value.pstate), File(h.x, h.spEl0, h.pstate);
                  && (IpcAbi().kept(k) ==> now[k] == Delivered(IpcAbi(), then_, given, w.running)[k])
                  && (!IpcAbi().kept(k) && back.decision.Handoff? ==> now[k] == 0))
  {
    hide CoreRun, RunOk, Meanings, History, Delivered, Layout, AllResumable, IpcAbi, Plus;
    var first_, last := Meaning(Trapped(out)), Meaning(Trapped(back));
    RunRefines(h, first, ctx, w, Span(out, es, back));
    SpanMeans(out, es, back);
    ComesBack(IpcAbi(), w, first_, Meanings(es), last);
    if first_.decision.Yield? && !last.decision.Handoff? {
      FullSwitchKeepsAll(IpcAbi(), w, first_, Meanings(es), last);
    }
    forall k | 0 <= k < 33
      ensures var v := History(IpcAbi(), w, Whole(first_, Meanings(es), last));
        var given := Meanwhile(Meanings(es), last);
        && v.running < |v.threads| && |Current(v).x| == 33
        && (IpcAbi().kept(k) ==> Current(v).x[k] == Delivered(IpcAbi(), Current(w).x, given, w.running)[k])
        && (!IpcAbi().kept(k) && last.decision.Handoff? ==> Current(v).x[k] == 0)
    {
      HandoffKeeps(IpcAbi(), w, first_, Meanings(es), last, k);
    }
  }

  // ---------------------------------------------------------------------------
  // From boot on
  // ---------------------------------------------------------------------------

  /** The arguments of one `init_user_context`. */
  datatype Spec = Spec(entry: U64, stackTop: U64, rootFrame: U64)

  function FreshThread(ttbr0: U64, s: Spec): Thread {
    var f := File(Zeros(31), s.stackTop, 0);
    Thread(f, s.entry, if s.rootFrame != 0 then s.rootFrame else ttbr0, f, true)
  }

  ghost predicate Fits(ctx: seq<U64>, specs: seq<Spec>, top: U64, words: nat) {
    |ctx| == |specs| && Layout(ctx, top, top, words)
  }

  /** Memory once every context was initialised. */
  function Initialised(h: Core, ctx: seq<U64>, specs: seq<Spec>): (m: seq<U64>)
    requires Fits(ctx, specs, h.top, |h.mem|)
    ensures |m| == |h.mem|
  {
    if ctx == [] then h.mem
    else
      var n, s := |ctx| - 1, specs[|ctx| - 1];
      Put(Initialised(h, ctx[..n], specs[..n]), ctx[n], FreshContext(h.ttbr0, s.entry, s.stackTop, s.rootFrame))
  }

  lemma {:induction false} InitialisedAll(h: Core, ctx: seq<U64>, specs: seq<Spec>)
    requires Fits(ctx, specs, h.top, |h.mem|)
    ensures forall i | 0 <= i < |ctx| :: Resumable(Initialised(h, ctx, specs), ctx[i], FreshThread(h.ttbr0, specs[i]))
  {
    hide Put, Words, Resumable, FreshContext, FreshThread, StackClear;
    if ctx != [] {
      var n, s := |ctx| - 1, specs[|ctx| - 1];
      FewerFit(ctx, specs, h.top, |h.mem|);
      var m := Initialised(h, ctx[..n], specs[..n]);
      var words := FreshContext(h.ttbr0, s.entry, s.stackTop, s.rootFrame);
      InitialisedAll(h, ctx[..n], specs[..n]);
      FreshIs(h.(mem := m), ctx[n], s);
      forall i | 0 <= i < n ensures Resumable(Put(m, ctx[n], words), ctx[i], FreshThread(h.ttbr0, specs[i])) {
        assert ctx[..n][i] == ctx[i] && specs[..n][i] == specs[i] && Apart(ctx[i], ctx[n]);
        SameWords(m, ctx[n], words, ctx[i], 40);
        ContextKept(m, Put(m, ctx[n], words), ctx[i], FreshThread(h.ttbr0, specs[i]));
      }
    }
  }

  lemma {:induction false} FewerFit(ctx: seq<U64>, specs: seq<Spec>, top: U64, words: nat)
    requires Fits(ctx, specs, top, words) && ctx != []
    ensures Fits(ctx[..|ctx| - 1], specs[..|ctx| - 1], top, words)
  {
  }

  lemma FreshIs(h: Core, at: U64, s: Spec)
    requires Room(h.mem, at, 40)
    ensures Resumable(Put(h.mem, at, FreshContext(h.ttbr0, s.entry, s.stackTop, s.rootFrame)), at, FreshThread(h.ttbr0, s))
  {
    hide Put, Words, Resumable, FreshContext, Zeros;
    FreshIsResumable(h.mem, at, h.ttbr0, s.entry, s.stackTop, s.rootFrame);
  }

  function FreshThreads(ttbr0: U64, specs: seq<Spec>): (ts: seq<Thread>)
    ensures |ts| == |specs|
  {
    seq(|specs|, i requires 0 <= i < |specs| => FreshThread(ttbr0, specs[i]))
  }

  /** From boot: contexts initialised for any threads, one of them resumed by
      `resume_user`, then any run. It is a run of those threads, each starting at its
      entry with zero registers but its stack, up to a fatal exception, and SP_EL1 is at
      the boot stack top whenever one of them runs. */
  lemma {:induction false} BootedRunRefines(h: Core, ctx: seq<U64>, specs: seq<Spec>, first: nat, es: seq<Event>)
    requires Fits(ctx, specs, h.top, |h.mem|) && first < |ctx|
    requires RunOk(RestoreFull(h.(mem := Initialised(h, ctx, specs)), ctx[first]), ctx, World(FreshThreads(h.ttbr0, specs), first), es)
    ensures var r := CoreRun(RestoreFull(h.(mem := Initialised(h, ctx, specs)), ctx[first]), es);
      && (r.None? <==> exists k :: 0 <= k < |es| && Stops(es[k]))
      && (r.Some? ==>
            && Represents(r.value, h.top, ctx, History(IpcAbi(), World(FreshThreads(h.ttbr0, specs), first), Meanings(es)))
            && r.value.sp == h.top)
  {
    hide Resumable, Initialised, RunOk, CoreRun, FreshThread, Woken, Holds, Layout, Words, Exec, RestoreCode;
    var w := World(FreshThreads(h.ttbr0, specs), first);
    var g := h.(mem := Initialised(h, ctx, specs));
    InitialisedAll(h, ctx, specs);
    WakesAsItIs(h.ttbr0, specs, first);
    WokenUp(g, h.top, ctx, w, first, false);
    ExecTop(g.(x := g.x[X30 := ctx[first]]), RestoreCode());
    RunRefines(RestoreFull(g, ctx[first]), h.top, ctx, w, es);
  }

  lemma {:induction false} WakesAsItIs(ttbr0: U64, specs: seq<Spec>, first: nat)
    requires first < |specs|
    ensures var w := World(FreshThreads(ttbr0, specs), first);
      Wake(IpcAbi(), w, first, false) == w
    ensures forall i | 0 <= i < |specs| :: FreshThread(ttbr0, specs[i]).alive
  {
    hide File;
    var ts := FreshThreads(ttbr0, specs);
    assert ts[first := ts[first]] == ts;
  }
}
