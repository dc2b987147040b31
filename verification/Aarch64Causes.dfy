/** What each exception does to the interrupted thread, by its class in ESR_EL1 or its
    interrupt number, and by the numbers of registers and context slots. */
module Aarch64Causes {
  import opened Bits
  import opened Options
  import opened Threads
  import opened WordMemory
  import opened Aarch64Trap

  predicate IsSvc(cause: Cause) {
    cause.Sync? && cause.esr / 0x400_0000 % 64 == 0x15
  }

  predicate IsUndefined(cause: Cause) {
    cause.Sync? && cause.esr / 0x400_0000 % 64 == 0
  }

  /** Exceptions whose answer may name another context. */
  predicate HandsOn(cause: Cause) {
    IsSvc(cause) || IsUndefined(cause) || cause == Device(30)
  }

  /** Where the exception itself says to go on. */
  function ReturnAddress(h: Core, cause: Cause): nat {
    if IsSvc(cause) then (h.pc + 4) % TWO64 else h.pc
  }

  /** The core runs what the context at `into` holds, with an empty kernel stack. */
  ghost predicate RunsContext(g: Core, into: nat)
    requires Room(g.mem, into, 40)
  {
    var w := Words(g.mem, into, 40);
    g.x == w[..31] && g.spEl0 == w[31] && g.pc == w[32] && g.pstate == w[33] && g.ttbr0 == w[34] && g.sp == g.top
  }

  /** The context at `save` holds the interrupted thread, going on at `pc`; its PSTATE is
      kept if no IRQ was nested. */
  ghost predicate SavedAt(g: Core, save: nat, h: Core, pc: nat, quiet: bool)
    requires Room(g.mem, save, 40)
  {
    var w := Words(g.mem, save, 40);
    w[..31] == h.x && w[31] == h.spEl0 && w[32] == pc && (quiet ==> w[33] == h.pstate) && w[34] == h.ttbr0
  }

  lemma Restored(h: Core, into: U64)
    requires Room(h.mem, into, 40)
    ensures RestoreFull(h, into).mem == h.mem && RunsContext(RestoreFull(h, into), into)
    ensures var g, w := RestoreFast(h, into), Words(h.mem, into, 40);
      && g.mem == h.mem && g.spEl0 == w[31] && g.pc == w[32] && g.pstate == w[33] && g.ttbr0 == w[34] && g.sp == g.top
      && g.x == FastRegs(w[..31])
  {
    hide Exec, RestoreCode, FastRestoreCode, FastRegs;
    RestoreEffect(h.(x := h.x[30 := into]));
    FastRestoreEffect(h.(x := h.x[30 := into]));
  }

  /** A switch saves the interrupted thread, behind its svc or at the instruction a timer
      or fault interrupted, and runs the next one; only an svc switches by halves. */
  lemma SwitchByCause(h: Core, cause: Cause, e: Handled, outcome: TrapOutcome)
    requires StackReady(h) && Misses(e.pokes, h.sp - 256) && HandsOn(cause)
    requires outcome.SwitchTo? || (outcome.SwitchToFast? && !IsSvc(cause))
    requires Room(h.mem, outcome.save, 40) && Room(h.mem, outcome.into, 40)
    ensures var r := Trap(h, ClassOf(cause), e, Some(outcome));
      && r.Some? && |r.value.mem| == |h.mem|
      && RunsContext(r.value, outcome.into)
      && SavedAt(r.value, outcome.save, h, ReturnAddress(h, cause), e.nested == [])
  {
    hide Trap, RestoreFull, SaveFull, RunsContext, SavedAt, AtAnswer, Words, Misses, Exec, EntryCode;
    var kind := ClassOf(cause);
    HandlerEntered(h, kind, e);
    SwitchTrap(h, kind, e, outcome);
    SwitchWords(AtAnswer(h, kind, e), h.sp - 256, outcome.save, outcome.into, ReturnAddress(h, cause), h, e.nested == []);
  }

  lemma SwitchTrap(h: Core, kind: Kind, e: Handled, outcome: TrapOutcome)
    requires StackReady(h) && (kind.Svc? || kind.Undefined? || kind == Irq(true))
    requires outcome.SwitchTo? || (outcome.SwitchToFast? && !kind.Svc?)
    ensures Trap(h, kind, e, Some(outcome))
      == Some(RestoreFull(SaveFull(AtAnswer(h, kind, e), h.sp - 256, Taken(h, kind).elr, outcome.save), outcome.into))
  {
    hide Exec, EntryCode, RestoreFull, SaveFull, AfterHandler;
    EntryEffect(Taken(h, kind));
  }

  lemma SwitchWords(g: Core, f: nat, save: U64, into: U64, resume: U64, h: Core, quiet: bool)
    requires Room(g.mem, f, 31) && Room(g.mem, save, 40) && Room(g.mem, into, 40) && Words(g.mem, f, 31) == h.x
    requires g.spEl0 == h.spEl0 && g.ttbr0 == h.ttbr0 && (quiet ==> g.spsr == h.pstate)
    ensures var t := RestoreFull(SaveFull(g, f, resume, save), into);
      |t.mem| == |g.mem| && RunsContext(t, into) && SavedAt(t, save, h, resume, quiet)
  {
    hide RestoreFull, SaveFull, Words;
    FullWords(g, f, save, resume, h, quiet);
    Restored(SaveFull(g, f, resume, save), into);
  }

  lemma FullWords(g: Core, f: nat, save: U64, resume: U64, h: Core, quiet: bool)
    requires Room(g.mem, f, 31) && Room(g.mem, save, 40) && Words(g.mem, f, 31) == h.x
    requires g.spEl0 == h.spEl0 && g.ttbr0 == h.ttbr0 && (quiet ==> g.spsr == h.pstate)
    ensures var m := SaveFull(g, f, resume, save);
      |m.mem| == |g.mem| && SavedAt(m, save, h, resume, quiet)
  {
    hide Put, Words;
    var w := h.x + LiveWords(g, resume);
    ContextWords(g.mem, save, w);
    var c := Words(Put(g.mem, save, w), save, 40);
    assert c[..35][..31] == c[..31] && c[..35][31] == c[31] && c[..35][32] == c[32] && c[..35][33] == c[33] && c[..35][34] == c[34];
  }

  /** x0, x1, x19 to x30. */
  predicate Preserved(r: Reg) {
    r in {0, 1, 19, 20, 21, 22, 23, 24, 25, 26, 27, 28, 29, 30}
  }

  /** A handoff out of an svc keeps x0, x1 and x19 to x30 on both sides: the other slots of
      the saved context stay, the other registers come back zero. */
  lemma SvcHandsOff(h: Core, cause: Cause, e: Handled, save: U64, into: U64, r: Reg)
    requires StackReady(h) && Misses(e.pokes, h.sp - 256) && IsSvc(cause)
    requires Room(h.mem, save, 40) && Room(h.mem, into, 40)
    ensures var t := Trap(h, ClassOf(cause), e, Some(SwitchToFast(save, into)));
      && t.Some? && |t.value.mem| == |h.mem| == |AtAnswer(h, Svc, e).mem|
      && HandedOff(h, t.value, Words(AtAnswer(h, Svc, e).mem, save, 40), save, into, r, e.nested == [])
  {
    hide Trap, RestoreFast, SaveFast, Words, AtAnswer, HandedOff, Exec, EntryCode, Taken, Misses;
    HandlerEntered(h, Svc, e);
    HandoffTrap(h, e, save, into);
    HandoffWords(AtAnswer(h, Svc, e), h.sp - 256, save, into, Plus(h.pc, 4), h, r, e.nested == []);
  }

  lemma HandoffWords(g: Core, f: nat, save: U64, into: U64, resume: U64, h: Core, r: Reg, quiet: bool)
    requires Room(g.mem, f, 31) && Room(g.mem, save, 40) && Room(g.mem, into, 40) && Words(g.mem, f, 31) == h.x
    requires g.spEl0 == h.spEl0 && g.ttbr0 == h.ttbr0 && (quiet ==> g.spsr == h.pstate) && resume == (h.pc + 4) % TWO64
    ensures var t := RestoreFast(SaveFast(g, f, resume, save), into);
      |t.mem| == |g.mem| && HandedOff(h, t, Words(g.mem, save, 40), save, into, r, quiet)
  {
    hide RestoreFast, SaveFast, Words, HandedOff, FastSaved;
    FastWords(g, f, save, resume, h, r, quiet);
    WokenFast(h, SaveFast(g, f, resume, save), Words(g.mem, save, 40), save, into, r, quiet);
  }

  /** The saved context, the words `was` under it, and what runs now, register by register. */
  ghost predicate HandedOff(h: Core, t: Core, was: seq<U64>, save: nat, into: nat, r: Reg, quiet: bool)
    requires Room(t.mem, save, 40) && Room(t.mem, into, 40) && |was| == 40
  {
    var w := Words(t.mem, into, 40);
    && FastSaved(Words(t.mem, save, 40), h, was, r, quiet)
    && t.spEl0 == w[31] && t.pc == w[32] && t.pstate == w[33] && t.ttbr0 == w[34] && t.sp == t.top
    && t.x[r] == (if Preserved(r) then w[r] else 0)
  }

  predicate FastSaved(s: seq<U64>, h: Core, was: seq<U64>, r: Reg, quiet: bool)
    requires |s| == |was| == 40
  {
    && s[31] == h.spEl0 && s[32] == (h.pc + 4) % TWO64 && (quiet ==> s[33] == h.pstate) && s[34] == h.ttbr0
    && s[r] == (if Preserved(r) then h.x[r] else was[r]) && s[35..] == was[35..]
  }

  lemma WokenFast(h: Core, m: Core, was: seq<U64>, save: nat, into: U64, r: Reg, quiet: bool)
    requires Room(m.mem, save, 40) && Room(m.mem, into, 40) && |was| == 40
    requires FastSaved(Words(m.mem, save, 40), h, was, r, quiet)
    ensures RestoreFast(m, into).mem == m.mem && HandedOff(h, RestoreFast(m, into), was, save, into, r, quiet)
  {
    hide RestoreFast, RestoreFull, RunsContext, Words, FastRegs, Preserved, FastSaved;
    Restored(m, into);
    FastRegister(Words(m.mem, into, 40)[..31], r);
  }

  lemma FastRegister(a: Regs, r: Reg)
    ensures FastRegs(a)[r] == if Preserved(r) then a[r] else 0
  {
  }

  lemma HandoffTrap(h: Core, e: Handled, save: U64, into: U64)
    requires StackReady(h)
    ensures Trap(h, Svc, e, Some(SwitchToFast(save, into)))
      == Some(RestoreFast(SaveFast(AtAnswer(h, Svc, e), h.sp - 256, Plus(h.pc, 4), save), into))
  {
    hide Exec, EntryCode, RestoreFast, SaveFast, AfterHandler;
    EntryEffect(Taken(h, Svc));
  }

  lemma FastWords(g: Core, f: nat, save: U64, resume: U64, h: Core, r: Reg, quiet: bool)
    requires Room(g.mem, f, 31) && Room(g.mem, save, 40) && Words(g.mem, f, 31) == h.x && resume == (h.pc + 4) % TWO64
    requires g.spEl0 == h.spEl0 && g.ttbr0 == h.ttbr0 && (quiet ==> g.spsr == h.pstate)
    ensures var m := SaveFast(g, f, resume, save);
      && |m.mem| == |g.mem|
      && FastSaved(Words(m.mem, save, 40), h, Words(g.mem, save, 40), r, quiet)
  {
    hide Put, Words, Merge, Preserved;
    ContextRegs(g.mem, save);
    var w := Merge(IpcAbi().kept, h.x, Words(g.mem, save, 31)) + LiveWords(g, resume);
    ContextOver(g.mem, save, w);
    KeptMerged(h.x, Words(g.mem, save, 31), r);
  }

  lemma ContextOver(mem: seq<U64>, at: nat, w: seq<U64>)
    requires Room(mem, at, 40) && |w| == 35
    ensures Room(Put(mem, at, w), at, 40) && Words(Put(mem, at, w), at, 40) == w + Words(mem, at, 40)[35..]
  {
  }

  lemma KeptMerged(a: Regs, b: Regs, r: Reg)
    ensures Merge(IpcAbi().kept, a, b)[r] == if Preserved(r) then a[r] else b[r]
  {
  }

  /** A terminated thread leaves no trace: the next context runs and none is written. */
  lemma TerminateByCause(h: Core, cause: Cause, e: Handled, into: U64)
    requires StackReady(h) && Misses(e.pokes, h.sp - 256) && HandsOn(cause) && Room(h.mem, into, 40)
    ensures var r := Trap(h, ClassOf(cause), e, Some(Terminate(into)));
      && r.Some? && |r.value.mem| == |h.mem| && r.value.mem == AtAnswer(h, ClassOf(cause), e).mem
      && RunsContext(r.value, into)
  {
    hide Exec, EntryCode, ReturnCode, RestoreFull, RestoreFast, RunsContext, AfterHandler, Taken;
    HandlerEntered(h, ClassOf(cause), e);
    Restored(AtAnswer(h, ClassOf(cause), e), into);
  }

  /** Every device interrupt but the timer's changes nothing, whatever a handler would
      answer; nor does the timer's without a handler or answered `Resume`. */
  lemma NothingByCause(h: Core, cause: Cause, e: Handled, outcome: Option<TrapOutcome>)
    requires StackReady(h) && Misses(e.pokes, h.sp - 256) && cause.Device?
    requires cause.intid != 30 || outcome.None? || outcome.value.Resume? || outcome.value.Resume2?
    ensures var r := Trap(h, ClassOf(cause), e, outcome);
      && r.Some? && r.value.mem == AtAnswer(h, ClassOf(cause), e).mem
      && r.value.x == h.x && (e.nested == [] ==> Answered(h, r.value, h.pc, h.x))
  {
    hide Exec, EntryCode, ReturnCode, AfterHandler, Words;
    HandlerEntered(h, ClassOf(cause), e);
    ReturnEffect(AtAnswer(h, ClassOf(cause), e));
  }

  /** A fault handler that answers puts its results in x0 and x1 and resumes at the
      faulting instruction. */
  lemma FaultAnswers(h: Core, cause: Cause, e: Handled, r0: U64, r1: U64)
    requires StackReady(h) && Misses(e.pokes, h.sp - 256) && IsUndefined(cause) && e.nested == []
    ensures var r := Trap(h, ClassOf(cause), e, Some(Resume(r0)));
      r.Some? && Answered(h, r.value, h.pc, h.x[0 := r0])
    ensures var r := Trap(h, ClassOf(cause), e, Some(Resume2(r0, r1)));
      r.Some? && Answered(h, r.value, h.pc, h.x[0 := r0][1 := r1])
  {
    hide Exec, EntryCode, ReturnCode, Store, AfterHandler, Words;
    var g, f := AtAnswer(h, Undefined, e), h.sp - 256;
    HandlerEntered(h, Undefined, e);
    var m1 := Store(g.mem, f, r0);
    FrameSlotStored(g.mem, f, 0, r0);
    FrameSlotStored(m1, f, 1, r1);
    ReturnEffect(g.(mem := m1));
    ReturnEffect(g.(mem := Store(m1, f + 8, r1)));
  }
}
