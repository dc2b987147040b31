/** Exactly which traps of hal/hal-riscv64/src/cpu.rs are steps of independent threads,
    wherever the interrupted thread's stack points. */
module RiscvExactly {
  import opened Bits
  import opened Options
  import opened Threads
  import opened WordMemory
  import opened RiscvTrap
  import opened RiscvThreads
  import opened RiscvStack

  // ---------------------------------------------------------------------------
  // The condition, decided before the trap
  // ---------------------------------------------------------------------------

  /** The answer takes register `k` of the interrupted thread from its frame. */
  predicate Uses(d: Decision, k: nat) {
    k != SP - 1 && match d
                   case Kill(_) => false
                   case Handoff(_) => IpcAbi().kept(k)
                   case _ => Answer(d, k).None?
  }

  /** The answer leaves slot `s` of the interrupted thread's own context as it is. */
  predicate Leaves(d: Decision, s: nat) {
    match d
    case Yield(_) => false
    case Kill(_) => false
    case Handoff(_) => !IpcAbi().kept(s)
    case _ => true
  }

  function FrameWord(h: Hart): nat
    requires StackReady(h)
  {
    (h.x[SP - 1] - 248) / 8
  }

  /** Results written for other threads do not change a frame word that is still used. */
  ghost predicate FrameSurvives(h: Hart, ctx: seq<U64>, e: TrapEvent)
    requires StackReady(h) && Separate(ctx, |h.mem|)
  {
    forall i: nat, s: nat, k: nat |
      i < |ctx| && k < 31 && ResultSlot(e, i, s) && Uses(e.decision, k) && ctx[i] / 8 + s == FrameWord(h) + k ::
      Due(h, e, ctx[i], i)[s] == Frame(h)[k]
  }

  /** The frame leaves the slots of the thread's own context that are not saved over. */
  ghost predicate OwnKept(h: Hart, e: TrapEvent, at: nat)
    requires StackReady(h) && Room(h.mem, at, 40)
  {
    forall s: nat | s < 31 && Leaves(e.decision, s) && FrameWord(h) <= at / 8 + s < FrameWord(h) + 31 ::
      LeftAt(h, e, at / 8 + s - FrameWord(h)) == Words(h.mem, at, 40)[s]
  }

  ghost predicate Sound(h: Hart, ctx: seq<U64>, w: World, e: TrapEvent)
    requires StackReady(h) && Separate(ctx, |h.mem|) && |ctx| == |w.threads| && w.running < |ctx|
  {
    && AllHarmless(h, ctx, w, e) && FrameSurvives(h, ctx, e) && Undisturbed(h, e)
    && Room(h.mem, ctx[w.running], 40) && OwnKept(h, e, ctx[w.running])
  }

  // ---------------------------------------------------------------------------
  // In the handler
  // ---------------------------------------------------------------------------

  function FrameAddr(h: Hart): nat
    requires StackReady(h)
  {
    h.x[SP - 1] - 248
  }

  /** Memory when the handler answers. */
  function Answering(h: Hart, e: TrapEvent): (m: seq<U64>)
    requires StackReady(h)
    ensures |m| == |h.mem|
  {
    PokeAll(Put(h.mem, FrameAddr(h), Frame(h)), e.handled.pokes)
  }

  lemma InHandler(h: Hart, e: TrapEvent)
    requires StackReady(h)
    ensures var entered := Exec(Taken(h), EntryCode());
      var g := AfterHandler(entered, e.handled);
      && g.mem == Answering(h, e) && g.x[SP - 1] == FrameAddr(h) && entered.x[SP - 1] == FrameAddr(h)
      && g.satp == h.satp && FromUser(g.sstatus) && entered.sepc == h.pc
      && g.sepc == (if e.handled.nested.Some? then e.handled.nested.value else h.pc)
  {
    hide Exec, EntryCode, PokeAll, WaitedStatus, TrapStatus, FromUser;
    EntryEffect(Taken(h));
  }

  /** Pokes change result slots only. */
  lemma {:induction false} PokesMiss(mem: seq<U64>, ctx: seq<U64>, w: World, ps: seq<Poke>, gs: seq<Gift>, a: nat)
    requires Separate(ctx, |mem|) && |ctx| == |w.threads| && AllFitting(ctx, w, ps, gs) && a < |mem|
    requires forall i: nat | i < |ctx| && LastGift(gs, i).Some? :: a != ctx[i] / 8 + A0 && a != ctx[i] / 8 + A1
    ensures PokeAll(mem, ps)[a] == mem[a]
    decreases |ps|
  {
    hide Separate, PokeAt;
    if ps != [] {
      var n := |ps| - 1;
      assert Fitting(ctx, w, ps[n], gs[n]);
      assert LastGift(gs, gs[n].thread).Some?;
      PokesMiss(mem, ctx, w, ps[..n], gs[..n], a);
      PokeMisses(PokeAll(mem, ps[..n]), ps[n], a);
    }
  }

  lemma PokeMisses(mem: seq<U64>, p: Poke, a: nat)
    requires a < |mem| && a != p.ctx / 8 + A0 && a != p.ctx / 8 + A1
    ensures PokeAt(mem, p)[a] == mem[a]
  {
    assert (p.ctx + 72) / 8 == p.ctx / 8 + 9 && (p.ctx + 80) / 8 == p.ctx / 8 + 10;
  }

  /** A word of the frame when the handler answers. */
  lemma FrameAfter(h: Hart, ctx: seq<U64>, w: World, e: TrapEvent, k: nat)
    requires Represents(h, ctx, w) && StackReady(h) && Obeys(ctx, w, e) && k < 31
    ensures Room(Answering(h, e), FrameAddr(h), 31)
    ensures forall i: nat, s: nat | i < |ctx| && ResultSlot(e, i, s) && ctx[i] / 8 + s == FrameWord(h) + k ::
              Room(h.mem, ctx[i], 40) && Words(Answering(h, e), FrameAddr(h), 31)[k] == Due(h, e, ctx[i], i)[s]
    ensures (forall i: nat, s: nat | i < |ctx| && ResultSlot(e, i, s) :: ctx[i] / 8 + s != FrameWord(h) + k) ==>
              Words(Answering(h, e), FrameAddr(h), 31)[k] == Frame(h)[k]
  {
    hide Put, PokeAll, Means, Delivered, IpcAbi, LastGift, AllFitting, Represents;
    var m1, m2, f := Put(h.mem, FrameAddr(h), Frame(h)), Answering(h, e), FrameWord(h);
    Laid(h, ctx, w);
    assert Words(m2, FrameAddr(h), 31)[k] == m2[f + k];
    forall i: nat, s: nat | i < |ctx| && ResultSlot(e, i, s) && ctx[i] / 8 + s == f + k
      ensures Room(h.mem, ctx[i], 40) && m2[f + k] == Due(h, e, ctx[i], i)[s]
    {
      ContextRoom(ctx, |h.mem|, i);
      PokesDeliver(m1, ctx, w, e.handled.pokes, e.gifts, i);
      DueSlot(Words(h.mem, ctx[i], 40), e.gifts, i, s);
      assert Words(m2, ctx[i], 40)[s] == m2[ctx[i] / 8 + s];
    }
    if forall i: nat, s: nat | i < |ctx| && ResultSlot(e, i, s) :: ctx[i] / 8 + s != f + k {
      forall i: nat | i < |ctx| && LastGift(e.gifts, i).Some? ensures f + k != ctx[i] / 8 + A0 && f + k != ctx[i] / 8 + A1 {
        assert ResultSlot(e, i, A0) && ResultSlot(e, i, A1);
      }
      PokesMiss(m1, ctx, w, e.handled.pokes, e.gifts, f + k);
      PutBack(h.mem, FrameAddr(h), Frame(h));
      assert Words(m1, FrameAddr(h), 31)[k] == m1[f + k];
    }
  }

  lemma Laid(h: Hart, ctx: seq<U64>, w: World)
    requires Represents(h, ctx, w)
    ensures Separate(ctx, |h.mem|) && |ctx| == |w.threads| && w.running < |ctx|
  {
  }

  /** The frame survives exactly when each of its words still used is as entry left it. */
  lemma SurvivesExactly(h: Hart, ctx: seq<U64>, w: World, e: TrapEvent)
    requires Represents(h, ctx, w) && StackReady(h) && Obeys(ctx, w, e)
    ensures Separate(ctx, |h.mem|) && Room(Answering(h, e), FrameAddr(h), 31)
    ensures FrameSurvives(h, ctx, e) <==>
      forall k: nat | k < 31 && Uses(e.decision, k) :: Words(Answering(h, e), FrameAddr(h), 31)[k] == Frame(h)[k]
  {
    hide Represents, Obeys, Answering, Due, Uses, LastGift, Words, Frame, Room;
    Laid(h, ctx, w);
    FrameAfter(h, ctx, w, e, 0);
    forall k: nat | k < 31
      ensures forall i: nat, s: nat | i < |ctx| && ResultSlot(e, i, s) && ctx[i] / 8 + s == FrameWord(h) + k ::
                Room(h.mem, ctx[i], 40) && Words(Answering(h, e), FrameAddr(h), 31)[k] == Due(h, e, ctx[i], i)[s]
      ensures (forall i: nat, s: nat | i < |ctx| && ResultSlot(e, i, s) :: ctx[i] / 8 + s != FrameWord(h) + k) ==>
                Words(Answering(h, e), FrameAddr(h), 31)[k] == Frame(h)[k]
    {
      FrameAfter(h, ctx, w, e, k);
    }
  }

  lemma {:induction false} NoneForRunning(ctx: seq<U64>, w: World, ps: seq<Poke>, gs: seq<Gift>)
    requires AllFitting(ctx, w, ps, gs)
    ensures LastGift(gs, w.running).None?
    decreases |gs|
  {
    if gs != [] {
      assert Fitting(ctx, w, ps[|ps| - 1], gs[|gs| - 1]);
      NoneForRunning(ctx, w, ps[..|ps| - 1], gs[..|gs| - 1]);
    }
  }

  /** The thread's own context when the handler answers. */
  lemma OwnAfter(h: Hart, ctx: seq<U64>, w: World, e: TrapEvent)
    requires Represents(h, ctx, w) && StackReady(h) && Obeys(ctx, w, e)
    ensures w.running < |ctx| && Room(h.mem, ctx[w.running], 40)
    ensures forall s | 0 <= s < 40 ::
              Words(Answering(h, e), ctx[w.running], 40)[s] ==
              if FrameWord(h) <= ctx[w.running] / 8 + s < FrameWord(h) + 31
              then Frame(h)[ctx[w.running] / 8 + s - FrameWord(h)] else Words(h.mem, ctx[w.running], 40)[s]
  {
    hide Put, PokeAll, Means, AllFitting, Represents, Words;
    Laid(h, ctx, w);
    ContextRoom(ctx, |h.mem|, w.running);
    var m1, at := Put(h.mem, FrameAddr(h), Frame(h)), ctx[w.running];
    NoneForRunning(ctx, w, e.handled.pokes, e.gifts);
    PokesDeliver(m1, ctx, w, e.handled.pokes, e.gifts, w.running);
    forall s | 0 <= s < 40
      ensures Words(m1, at, 40)[s] == if FrameWord(h) <= at / 8 + s < FrameWord(h) + 31
                                      then Frame(h)[at / 8 + s - FrameWord(h)] else Words(h.mem, at, 40)[s]
    {
      FrameSlot(h.mem, FrameAddr(h), Frame(h), at, s);
    }
  }

  // ---------------------------------------------------------------------------
  // Out of the handler
  // ---------------------------------------------------------------------------

  /** Restoring a context runs the threads on exactly when all that live can be resumed. */
  lemma WokenExactly(h: Hart, ctx: seq<U64>, w: World, to: nat, handoff: bool)
    requires Separate(ctx, |h.mem|) && |ctx| == |w.threads| && to < |ctx| && w.threads[to].alive
    ensures Represents(if handoff then RestoreFast(h, ctx[to]) else RestoreFull(h, ctx[to]), ctx, Wake(IpcAbi(), w, to, handoff))
      <==> AllResumable(h.mem, ctx, w, |ctx|)
  {
    hide Exec, Merge, Zeros, RestoreCode, FastRestoreCode, SretStatus, Words, FromUser;
    if AllResumable(h.mem, ctx, w, |ctx|) {
      WokenUp(h, ctx, w, to, handoff);
    } else {
      RestoreEffect(h.(x := h.x[T6 - 1 := ctx[to]]));
      FastRestoreEffect(h.(x := h.x[T6 - 1 := ctx[to]]));
      var r, v := if handoff then RestoreFast(h, ctx[to]) else RestoreFull(h, ctx[to]), Wake(IpcAbi(), w, to, handoff);
      var i :| 0 <= i < |ctx| && w.threads[i].alive && !Resumable(h.mem, ctx[i], w.threads[i]);
      assert i != to ==> v.threads[i] == w.threads[i];
      ContextRegs(h.mem, ctx[to]);
    }
  }

  /** A register file read back with the stack pointer corrected is the thread's exactly
      when its other registers are. */
  lemma CorrectedExactly(fr: Regs, f: nat, x: seq<U64>)
    requires |x| == 31 && f + 248 < TWO64 && x[SP - 1] == f + 248
    ensures fr[SP - 1 := Plus(f, 248)] == x <==> forall k: nat | k < 31 && k != SP - 1 :: fr[k] == x[k]
  {
    var c := fr[SP - 1 := Plus(f, 248)];
    if forall k: nat | k < 31 && k != SP - 1 :: fr[k] == x[k] {
      assert forall k | 0 <= k < 31 :: c[k] == x[k];
      assert c == x;
    } else {
      var k: nat :| k < 31 && k != SP - 1 && fr[k] != x[k];
      assert c[k] != x[k];
    }
  }

  lemma FullyParkedExactly(g: Hart, f: nat, at: U64, t: Thread, resume: U64)
    requires Room(g.mem, f, 31) && f + 248 < TWO64 && Room(g.mem, at, 40) && g.satp == t.space && FromUser(g.sstatus)
    requires |t.x| == 31 && t.x[SP - 1] == f + 248
    ensures Resumable(SaveFull(g, f, resume, at).mem, at, Parked(IpcAbi(), t, resume, false))
      <==> forall k: nat | k < 31 && k != SP - 1 :: Words(g.mem, f, 31)[k] == t.x[k]
  {
    hide Put, Words, FromUser;
    PutBack(g.mem, at, FullContext(g, f, resume));
    ContextRegs(SaveFull(g, f, resume, at).mem, at);
    CorrectedExactly(Words(g.mem, f, 31), f, t.x);
    var c := FullContext(g, f, resume);
    assert c[..31] == SnapshotRegs(Words(g.mem, f, 31), f);
  }

  lemma FastParkedExactly(g: Hart, f: nat, at: U64, t: Thread, resume: U64)
    requires Room(g.mem, f, 31) && f + 248 < TWO64 && Room(g.mem, at, 40) && g.satp == t.space && FromUser(g.sstatus)
    requires |t.x| == 31 && |t.saved| == 31 && t.x[SP - 1] == f + 248
    ensures Resumable(SaveFast(g, f, resume, at).mem, at, Parked(IpcAbi(), t, resume, true))
      <==> && (forall k: nat | k < 31 && k != SP - 1 && IpcAbi().kept(k) :: Words(g.mem, f, 31)[k] == t.x[k])
           && (forall s: nat | s < 31 && !IpcAbi().kept(s) :: Words(g.mem, at, 40)[s] == t.saved[s])
  {
    hide Put, Words, FromUser, IpcAbi, Merge;
    PutBack(g.mem, at, FastContext(g, f, resume, at));
    ContextRegs(SaveFast(g, f, resume, at).mem, at);
    var c := FastContext(g, f, resume, at);
    assert c[..31] == Merge(IpcAbi().kept, SnapshotRegs(Words(g.mem, f, 31), f), Words(g.mem, at, 40)[..31]);
    MergedExactly(SnapshotRegs(Words(g.mem, f, 31), f), t.x, Words(g.mem, at, 40)[..31], t.saved);
    KeptSp();
  }

  lemma KeptSp()
    ensures IpcAbi().kept(SP - 1)
  {
  }

  lemma MergedExactly(a: Regs, x: seq<U64>, b: seq<U64>, y: seq<U64>)
    requires |x| == |b| == |y| == 31
    ensures Merge(IpcAbi().kept, a, b) == Merge(IpcAbi().kept, x, y)
      <==> && (forall k: nat | k < 31 && IpcAbi().kept(k) :: a[k] == x[k])
           && (forall s: nat | s < 31 && !IpcAbi().kept(s) :: b[s] == y[s])
  {
    hide IpcAbi;
    var c, z := Merge(IpcAbi().kept, a, b), Merge(IpcAbi().kept, x, y);
    if (forall k: nat | k < 31 && IpcAbi().kept(k) :: a[k] == x[k]) && (forall s: nat | s < 31 && !IpcAbi().kept(s) :: b[s] == y[s]) {
      assert forall k | 0 <= k < 31 :: c[k] == z[k];
      assert c == z;
    } else {
      assert forall k | 0 <= k < 31 && IpcAbi().kept(k) && a[k] != x[k] :: c[k] != z[k];
      assert forall s | 0 <= s < 31 && !IpcAbi().kept(s) && b[s] != y[s] :: c[s] != z[s];
    }
  }

  /** The return path runs the thread on exactly when its frame, sepc and the contexts
      are right. */
  lemma ReturnedExactly(g: Hart, f: nat, ctx: seq<U64>, w: World)
    requires Room(g.mem, f, 31) && f + 248 < TWO64 && g.x[SP - 1] == f && FromUser(g.sstatus)
    requires Separate(ctx, |g.mem|) && |ctx| == |w.threads| && w.running < |ctx| && Current(w).alive
    requires g.satp == Current(w).space && |Current(w).x| == 31 && Current(w).x[SP - 1] == f + 248
    ensures Represents(Sret(Exec(g, ReturnCode())), ctx, w) <==>
      && (forall k: nat | k < 31 && k != SP - 1 :: Words(g.mem, f, 31)[k] == Current(w).x[k])
      && g.sepc == Current(w).pc && Holds(g.mem, ctx[w.running], Current(w)) && AllResumable(g.mem, ctx, w, w.running)
  {
    hide Exec, ReturnCode, Words, SretStatus, FromUser, Separate, Holds, AllResumable;
    ReturnEffect(g);
    CorrectedExactly(Words(g.mem, f, 31), f, Current(w).x);
  }

  // ---------------------------------------------------------------------------
  // The whole trap
  // ---------------------------------------------------------------------------

  /** Any trap that does not halt, of any kind, with any answer, results and stack with
      room: it is a step of independent threads if and only if its frame is harmless to
      the other living contexts and to what is kept of its own, what is still needed of
      it survives the results written, and it is undisturbed. */
  lemma TrapExactly(h: Hart, ctx: seq<U64>, w: World, e: TrapEvent)
    requires Represents(h, ctx, w) && StackReady(h) && Obeys(ctx, w, e)
    ensures Separate(ctx, |h.mem|) && |ctx| == |w.threads| && w.running < |ctx|
    ensures var r := Trap(h, e.scause, e.handled, e.outcome);
      && r.Some?
      && (Represents(r.value, ctx, Next(IpcAbi(), w, Meaning(Trapped(e)))) <==> Sound(h, ctx, w, e))
  {
    hide Trap, Represents, Next, Obeys, StackReady, Sound;
    Laid(h, ctx, w);
    TrapHalts(h, e.scause, e.handled, e.outcome);
    Answered(ctx, w, e);
    match e.decision
    case Yield(_) => SwitchExactly(h, ctx, w, e);
    case Handoff(_) => SwitchExactly(h, ctx, w, e);
    case Kill(_) => KillExactly(h, ctx, w, e);
    case _ => ReturnExactly(h, ctx, w, e);
  }

  lemma Answered(ctx: seq<U64>, w: World, e: TrapEvent)
    requires Obeys(ctx, w, e)
    ensures !Halting(e)
  {
  }

  /** The interrupted thread in the handler is the one that trapped. */
  lemma Interrupted(h: Hart, ctx: seq<U64>, w: World, e: TrapEvent)
    requires Represents(h, ctx, w) && Obeys(ctx, w, e)
    ensures var v := GivenAll(IpcAbi(), w, e.gifts);
      && w.running < |ctx| == |v.threads| == |w.threads| && v.threads[w.running] == w.threads[w.running]
      && Means(ctx, v, CauseOf(e.scause), e.outcome, e.decision)
      && (Switches(e.decision) ==> e.decision.to < |ctx| && v.threads[e.decision.to].alive)
    ensures var t := Current(w);
      && Room(h.mem, ctx[w.running], 40) && Words(h.mem, ctx[w.running], 31) == t.saved
      && t.x == h.x && t.pc == h.pc && t.space == h.satp && t.alive
  {
    hide AllResumable, SetAt, Words;
    NoneForRunning(ctx, w, e.handled.pokes, e.gifts);
    GivenDelivers(IpcAbi(), w, e.gifts, w.running);
    var v := GivenAll(IpcAbi(), w, e.gifts);
    forall i | 0 <= i < |w.threads| ensures v.threads[i].alive == w.threads[i].alive {
      GivenKeeps(IpcAbi(), w, e.gifts, i);
    }
    MeansSame(ctx, w, v, CauseOf(e.scause), e.outcome, e.decision);
  }

  /** The other living threads are found in their contexts exactly when all is harmless. */
  lemma OthersExactly(h: Hart, ctx: seq<U64>, w: World, e: TrapEvent)
    requires Represents(h, ctx, w) && StackReady(h) && Obeys(ctx, w, e)
    ensures Separate(ctx, |h.mem|) && |ctx| == |w.threads|
    ensures var r := Trap(h, e.scause, e.handled, e.outcome);
      && r.Some? && |r.value.mem| == |h.mem|
      && (AllResumable(r.value.mem, ctx, GivenAll(IpcAbi(), w, e.gifts), w.running) <==> AllHarmless(h, ctx, w, e))
  {
    hide Trap, Represents, Obeys, StackReady, Resumable, Harmless, Separate;
    Laid(h, ctx, w);
    var v := GivenAll(IpcAbi(), w, e.gifts);
    TrapKeepsSize(h, ctx, w, e);
    var r := Trap(h, e.scause, e.handled, e.outcome);
    forall i | 0 <= i < |ctx| && i != w.running
      ensures Room(h.mem, ctx[i], 40) && v.threads[i].alive == w.threads[i].alive
      ensures w.threads[i].alive ==> (Resumable(r.value.mem, ctx[i], v.threads[i]) <==> Harmless(h, e, ctx[i], i))
    {
      ContextRoom(ctx, |h.mem|, i);
      GivenKeeps(IpcAbi(), w, e.gifts, i);
      if w.threads[i].alive {
        StackHarm(h, ctx, w, e, i);
      }
    }
  }

  lemma TrapKeepsSize(h: Hart, ctx: seq<U64>, w: World, e: TrapEvent)
    requires Represents(h, ctx, w) && StackReady(h) && Obeys(ctx, w, e)
    ensures var r := Trap(h, e.scause, e.handled, e.outcome);
      r.Some? && |r.value.mem| == |h.mem|
  {
    hide Exec, EntryCode, ReturnCode, Common, Put, PokeAll, AllFitting, Means, AllResumable, Holds, OnlyAnswers, Separate, FromUser;
    InHandler(h, e);
    var entered := Exec(Taken(h), EntryCode());
    var g := AfterHandler(entered, e.handled);
    Laid(h, ctx, w);
    CommonWrites(g, FrameAddr(h), ctx, w, CauseOf(e.scause), entered.sepc, e.outcome, e.decision);
    var m' := Resumes(Common(g, FrameAddr(h), CauseOf(e.scause), entered.sepc, e.outcome)).value.mem;
    AnswersLength(g.mem, m', FrameAddr(h), ctx[w.running], e.decision);
  }

  /** Parking or dropping the running thread adds or takes out its own context. */
  lemma WithParked(mem: seq<U64>, ctx: seq<U64>, v: World, running: nat, t: Thread)
    requires Separate(ctx, |mem|) && |ctx| == |v.threads| && running < |ctx|
    ensures Room(mem, ctx[running], 40)
    ensures AllResumable(mem, ctx, Updated(v, running, t), |ctx|) <==>
      AllResumable(mem, ctx, v, running) && (t.alive ==> Resumable(mem, ctx[running], t))
  {
    hide Resumable;
    var u := Updated(v, running, t);
    if AllResumable(mem, ctx, v, running) && (t.alive ==> Resumable(mem, ctx[running], t)) {
      forall i | 0 <= i < |ctx| && u.threads[i].alive ensures Resumable(mem, ctx[i], u.threads[i]) {
      }
    }
    if AllResumable(mem, ctx, u, |ctx|) {
      forall i | 0 <= i < |ctx| && i != running && v.threads[i].alive ensures Resumable(mem, ctx[i], v.threads[i]) {
        assert u.threads[i] == v.threads[i];
      }
      assert u.threads[running] == t;
    }
  }

  lemma SwitchExactly(h: Hart, ctx: seq<U64>, w: World, e: TrapEvent)
    requires Represents(h, ctx, w) && StackReady(h) && Obeys(ctx, w, e) && (e.decision.Yield? || e.decision.Handoff?)
    ensures Separate(ctx, |h.mem|) && |ctx| == |w.threads| && w.running < |ctx|
    ensures var r := Trap(h, e.scause, e.handled, e.outcome);
      r.Some? ==> (Represents(r.value, ctx, Next(IpcAbi(), w, Meaning(Trapped(e)))) <==> Sound(h, ctx, w, e))
  {
    hide Exec, EntryCode, ReturnCode, Represents, Resumable, Parked, Wake, RestoreFull, RestoreFast, SaveFull, SaveFast, AllResumable,
      AllHarmless, FrameSurvives, OwnKept, Obeys, Means, Separate, Answering, Words, FromUser, GivenAll;
    Laid(h, ctx, w);
    InHandler(h, e);
    Interrupted(h, ctx, w, e);
    OthersExactly(h, ctx, w, e);
    var v, fast, to := GivenAll(IpcAbi(), w, e.gifts), e.decision.Handoff?, e.decision.to;
    var entered := Exec(Taken(h), EntryCode());
    var g := AfterHandler(entered, e.handled);
    var at, t, resume := ctx[w.running], Current(w), if CauseOf(e.scause).Ecall? then Plus(h.pc, 4) else h.pc;
    var m := if fast then SaveFast(g, FrameAddr(h), resume, at) else SaveFull(g, FrameAddr(h), resume, at);
    SwitchCommon(g, FrameAddr(h), ctx, v, CauseOf(e.scause), h.pc, e.outcome, e.decision);
    SavesKeepSize(g, FrameAddr(h), resume, at);
    ContextRoom(ctx, |h.mem|, to);
    RestoreKeepsMemory(m, ctx[to]);
    WithParked(m.mem, ctx, v, w.running, Parked(IpcAbi(), t, resume, fast));
    ParkedAlive(t, resume, fast);
    WokenExactly(m, ctx, Updated(v, w.running, Parked(IpcAbi(), t, resume, fast)), to, fast);
    ParkedSound(h, ctx, w, e, g, t, resume);
  }

  /** A parked thread can be resumed exactly when the frame survives and what the save
      leaves of its own context is kept. */
  lemma ParkedSound(h: Hart, ctx: seq<U64>, w: World, e: TrapEvent, g: Hart, t: Thread, resume: U64)
    requires Represents(h, ctx, w) && StackReady(h) && Obeys(ctx, w, e) && (e.decision.Yield? || e.decision.Handoff?)
    requires g.mem == Answering(h, e) && g.satp == t.space && FromUser(g.sstatus)
    requires w.running < |w.threads| && t == Current(w)
    ensures Separate(ctx, |h.mem|) && w.running < |ctx| && Room(h.mem, ctx[w.running], 40) && |g.mem| == |h.mem|
    ensures var at, f := ctx[w.running], FrameAddr(h);
      var m := if e.decision.Handoff? then SaveFast(g, f, resume, at) else SaveFull(g, f, resume, at);
      && |m.mem| == |h.mem|
      && (Resumable(m.mem, at, Parked(IpcAbi(), t, resume, e.decision.Handoff?)) <==>
          FrameSurvives(h, ctx, e) && OwnKept(h, e, at))
  {
    hide Represents, Obeys, Resumable, Parked, SaveFull, SaveFast, FrameSurvives, Answering, Words, FromUser, IpcAbi;
    Interrupted(h, ctx, w, e);
    Laid(h, ctx, w);
    SurvivesExactly(h, ctx, w, e);
    OwnAfter(h, ctx, w, e);
    SavesKeepSize(g, FrameAddr(h), resume, ctx[w.running]);
    if e.decision.Handoff? {
      FastParkedExactly(g, FrameAddr(h), ctx[w.running], t, resume);
      KeptOwn(h, ctx, w, e);
    } else {
      FullyParkedExactly(g, FrameAddr(h), ctx[w.running], t, resume);
    }
  }

  /** Of its own context a handoff keeps the slots it does not save. */
  lemma KeptOwn(h: Hart, ctx: seq<U64>, w: World, e: TrapEvent)
    requires Represents(h, ctx, w) && StackReady(h) && Obeys(ctx, w, e) && e.decision.Handoff?
    ensures w.running < |ctx| == |w.threads| && Room(h.mem, ctx[w.running], 40) && |Current(w).saved| == 31
    ensures OwnKept(h, e, ctx[w.running]) <==>
      forall s: nat | s < 31 && !IpcAbi().kept(s) :: Words(Answering(h, e), ctx[w.running], 40)[s] == Current(w).saved[s]
  {
    hide Represents, Obeys, Answering, Words, IpcAbi, Frame;
    Interrupted(h, ctx, w, e);
    OwnAfter(h, ctx, w, e);
    var at := ctx[w.running];
    ContextRegs(h.mem, at);
    assert forall s | 0 <= s < 31 :: Current(w).saved[s] == Words(h.mem, at, 40)[s];
  }

  lemma ParkedAlive(t: Thread, resume: U64, handoff: bool)
    ensures Parked(IpcAbi(), t, resume, handoff).alive == t.alive
  {
  }

  lemma KillExactly(h: Hart, ctx: seq<U64>, w: World, e: TrapEvent)
    requires Represents(h, ctx, w) && StackReady(h) && Obeys(ctx, w, e) && e.decision.Kill?
    ensures Separate(ctx, |h.mem|) && |ctx| == |w.threads| && w.running < |ctx|
    ensures var r := Trap(h, e.scause, e.handled, e.outcome);
      r.Some? ==> (Represents(r.value, ctx, Next(IpcAbi(), w, Meaning(Trapped(e)))) <==> Sound(h, ctx, w, e))
  {
    hide Exec, EntryCode, ReturnCode, Represents, Resumable, Wake, RestoreFull, RestoreFast, AllResumable, AllHarmless, Obeys, Separate,
      Answering, Words, FromUser, GivenAll;
    Laid(h, ctx, w);
    InHandler(h, e);
    Interrupted(h, ctx, w, e);
    OthersExactly(h, ctx, w, e);
    var v, to, t := GivenAll(IpcAbi(), w, e.gifts), e.decision.to, Current(w);
    var g := AfterHandler(Exec(Taken(h), EntryCode()), e.handled);
    ContextRoom(ctx, |h.mem|, to);
    RestoreKeepsMemory(g, ctx[to]);
    WithParked(g.mem, ctx, v, w.running, t.(alive := false));
    WokenExactly(g, ctx, Updated(v, w.running, t.(alive := false)), to, false);
  }

  /** The thread after a return, as the answer says. */
  function Returning(t: Thread, call: bool, d: Decision): Thread {
    match d
    case Answer1(v0) => t.(pc := if call then Plus(t.pc, 4) else t.pc, x := SetAt(t.x, A0, v0))
    case Answer2(v0, v1) => t.(pc := if call then Plus(t.pc, 4) else t.pc, x := SetAt(SetAt(t.x, A0, v0), A1, v1))
    case _ => t
  }

  lemma ReturningIs(t: Thread, call: bool, d: Decision)
    requires |t.x| == 31
    ensures |Returning(t, call, d).x| == 31
    ensures forall k | 0 <= k < 31 ::
              Returning(t, call, d).x[k] == if Answer(d, k).Some? then Answer(d, k).value else t.x[k]
  {
  }

  lemma ReturnExactly(h: Hart, ctx: seq<U64>, w: World, e: TrapEvent)
    requires Represents(h, ctx, w) && StackReady(h) && Obeys(ctx, w, e) && !Switches(e.decision)
    ensures Separate(ctx, |h.mem|) && |ctx| == |w.threads| && w.running < |ctx|
    ensures var r := Trap(h, e.scause, e.handled, e.outcome);
      r.Some? ==> (Represents(r.value, ctx, Next(IpcAbi(), w, Meaning(Trapped(e)))) <==> Sound(h, ctx, w, e))
  {
    hide Exec, EntryCode, ReturnCode, Represents, Resumable, AllResumable, AllHarmless, FrameSurvives, OwnKept, Obeys, Separate,
      Answering, Words, FromUser, GivenAll, Means, Common, Plus;
    Laid(h, ctx, w);
    InHandler(h, e);
    Interrupted(h, ctx, w, e);
    OthersExactly(h, ctx, w, e);
    var v, f, kind := GivenAll(IpcAbi(), w, e.gifts), FrameAddr(h), CauseOf(e.scause);
    var g := AfterHandler(Exec(Taken(h), EntryCode()), e.handled);
    SurvivesExactly(h, ctx, w, e);
    ReturnCommon(g, f, ctx, v, kind, h.pc, e.outcome, e.decision);
    var c := Common(g, f, kind, h.pc, e.outcome).hart;
    var t := Returning(Current(w), kind.Ecall?, e.decision);
    ReturningIs(Current(w), kind.Ecall?, e.decision);
    var u := Updated(v, w.running, t);
    assert Next(IpcAbi(), w, Meaning(Trapped(e))) == u by {
      NextReturns(w, e);
    }
    SameRoom(g.mem, c.mem, f, 31);
    ReturnedExactly(c, f, ctx, u);
    ReturnEffect(c);
    OthersOf(c.mem, ctx, v, w.running, t);
    FrameAnswered(h, ctx, w, e, g.mem, c.mem, t);
    OwnAnswered(h, ctx, w, e, c.mem, t);
  }

  lemma NextReturns(w: World, e: TrapEvent)
    requires w.running < |w.threads| && !Switches(e.decision)
    requires GivenAll(IpcAbi(), w, e.gifts).threads[w.running] == w.threads[w.running]
    requires e.decision.Unchanged? || CauseOf(e.scause).Ecall?
    ensures Next(IpcAbi(), w, Meaning(Trapped(e)))
      == Updated(GivenAll(IpcAbi(), w, e.gifts), w.running, Returning(Current(w), CauseOf(e.scause).Ecall?, e.decision))
  {
    hide GivenAll, SetAt, Plus;
    var v := GivenAll(IpcAbi(), w, e.gifts);
    assert v.threads[w.running := v.threads[w.running]] == v.threads;
  }

  lemma OthersOf(mem: seq<U64>, ctx: seq<U64>, v: World, running: nat, t: Thread)
    requires Separate(ctx, |mem|) && |ctx| == |v.threads| && running < |ctx|
    ensures AllResumable(mem, ctx, Updated(v, running, t), running) <==> AllResumable(mem, ctx, v, running)
  {
    hide Resumable;
    var u := Updated(v, running, t);
    assert forall i | 0 <= i < |ctx| && i != running :: u.threads[i] == v.threads[i];
  }

  /** The frame a return reads is the thread's exactly when it survives. */
  lemma FrameAnswered(h: Hart, ctx: seq<U64>, w: World, e: TrapEvent, m: seq<U64>, m': seq<U64>, t: Thread)
    requires Represents(h, ctx, w) && StackReady(h) && Obeys(ctx, w, e) && !Switches(e.decision)
    requires m == Answering(h, e) && |m'| == |m| && |t.x| == 31
    requires forall a | 0 <= a < |m| ::
      m'[a] == if FrameWord(h) <= a < FrameWord(h) + 31 && Answer(e.decision, a - FrameWord(h)).Some?
               then Answer(e.decision, a - FrameWord(h)).value else m[a]
    requires forall k | 0 <= k < 31 ::
      t.x[k] == if Answer(e.decision, k).Some? then Answer(e.decision, k).value else h.x[k]
    ensures Separate(ctx, |h.mem|) && Room(m', FrameAddr(h), 31)
    ensures FrameSurvives(h, ctx, e) <==> forall k: nat | k < 31 && k != SP - 1 :: Words(m', FrameAddr(h), 31)[k] == t.x[k]
  {
    hide Represents, Obeys, FrameSurvives, Answering, Answer;
    SurvivesExactly(h, ctx, w, e);
    SameRoom(m, m', FrameAddr(h), 31);
    forall k: nat | k < 31
      ensures Words(m', FrameAddr(h), 31)[k] ==
              if Answer(e.decision, k).Some? then Answer(e.decision, k).value else Words(m, FrameAddr(h), 31)[k]
    {
      assert Words(m', FrameAddr(h), 31)[k] == m'[FrameWord(h) + k] && Words(m, FrameAddr(h), 31)[k] == m[FrameWord(h) + k];
    }
    assert forall k: nat | k < 31 && k != SP - 1 :: Frame(h)[k] == h.x[k];
    assert forall k: nat | k < 31 :: Uses(e.decision, k) <==> k != SP - 1 && Answer(e.decision, k).None?;
  }

  /** The thread's own context holds what it held exactly when it is kept. */
  lemma OwnAnswered(h: Hart, ctx: seq<U64>, w: World, e: TrapEvent, m': seq<U64>, t: Thread)
    requires Represents(h, ctx, w) && StackReady(h) && Obeys(ctx, w, e) && !Switches(e.decision)
    requires |m'| == |h.mem| && w.running < |w.threads| && t.saved == Current(w).saved
    requires forall a | 0 <= a < |h.mem| ::
      m'[a] == if FrameWord(h) <= a < FrameWord(h) + 31 && Answer(e.decision, a - FrameWord(h)).Some?
               then Answer(e.decision, a - FrameWord(h)).value else Answering(h, e)[a]
    ensures w.running < |ctx| && Room(h.mem, ctx[w.running], 40) && Room(m', ctx[w.running], 40)
    ensures Holds(m', ctx[w.running], t) <==> OwnKept(h, e, ctx[w.running])
  {
    hide Represents, Obeys, Answering, Answer, Frame;
    Interrupted(h, ctx, w, e);
    OwnAfter(h, ctx, w, e);
    var at := ctx[w.running];
    ContextRegs(h.mem, at);
    forall s: nat | s < 31
      ensures Words(m', at, 31)[s] == if FrameWord(h) <= at / 8 + s < FrameWord(h) + 31
                                      then LeftAt(h, e, at / 8 + s - FrameWord(h)) else t.saved[s]
    {
      assert Words(m', at, 31)[s] == m'[at / 8 + s];
      assert Words(Answering(h, e), at, 40)[s] == Answering(h, e)[at / 8 + s];
      assert t.saved[s] == Words(h.mem, at, 40)[s];
    }
    assert forall s: nat | s < 31 :: Leaves(e.decision, s);
    if OwnKept(h, e, at) {
      assert forall s | 0 <= s < 31 :: Words(m', at, 31)[s] == t.saved[s];
      assert Words(m', at, 31) == t.saved;
    }
    if Words(m', at, 31) == t.saved {
      forall s: nat | s < 31 && Leaves(e.decision, s) && FrameWord(h) <= at / 8 + s < FrameWord(h) + 31
        ensures LeftAt(h, e, at / 8 + s - FrameWord(h)) == Words(h.mem, at, 40)[s]
      {
        assert Words(m', at, 31)[s] == t.saved[s];
      }
    }
  }
}
