/** What each supervisor cause does to the interrupted thread, by its number in scause
    and by register, slot and offset numbers of the calling convention. */
module RiscvCauses {
  import opened Bits
  import opened Options
  import opened Threads
  import opened WordMemory
  import opened RiscvTrap

  /** A trap whose cause hands the thread on: the answer names the next context. */
  predicate HandsOn(scause: U64) {
    scause < 0x8000_0000_0000_0000 || scause == 0x8000_0000_0000_0005
  }

  /** The hart runs what the context at `into` holds. */
  ghost predicate RunsContext(g: Hart, into: nat)
    requires Room(g.mem, into, 40)
  {
    var w := Words(g.mem, into, 40);
    g.x == w[..31] && g.pc == w[31] && g.satp == w[33] && (g.umode <==> w[32] / 256 % 2 == 0)
  }

  /** The context at `save` holds the interrupted thread, going on at `pc`. */
  ghost predicate SavedAt(g: Hart, save: nat, h: Hart, pc: nat)
    requires Room(g.mem, save, 40)
  {
    var w := Words(g.mem, save, 40);
    w[..31] == h.x && w[31] == pc && w[33] == h.satp && w[32] / 256 % 2 == 0
  }

  lemma Restored(h: Hart, into: U64)
    requires Room(h.mem, into, 40)
    ensures RestoreFull(h, into).mem == h.mem && RunsContext(RestoreFull(h, into), into)
    ensures var g, w := RestoreFast(h, into), Words(h.mem, into, 40);
      && g.mem == h.mem && g.pc == w[31] && g.satp == w[33] && (g.umode <==> w[32] / 256 % 2 == 0)
      && g.x == Merge(IpcAbi().kept, w[..31], Zeros(31))
  {
    hide Exec, RestoreCode, FastRestoreCode, SretStatus, Merge;
    RestoreEffect(h.(x := h.x[30 := into]));
    FastRestoreEffect(h.(x := h.x[30 := into]));
  }

  /** A switch saves the interrupted thread, after its ecall or at the instruction a timer
      or fault interrupted, and runs the next one; only an ecall switches by halves. */
  lemma SwitchByCause(h: Hart, scause: U64, e: Handled, outcome: TrapOutcome)
    requires StackReady(h) && Misses(e.pokes, h.x[1] - 248) && HandsOn(scause)
    requires outcome.SwitchTo? || (outcome.SwitchToFast? && scause != 8)
    requires Room(h.mem, outcome.save, 40) && Room(h.mem, outcome.into, 40)
    ensures var r := Trap(h, scause, e, Some(outcome));
      && r.Some? && |r.value.mem| == |h.mem|
      && RunsContext(r.value, outcome.into)
      && SavedAt(r.value, outcome.save, h, if scause == 8 then (h.pc + 4) % TWO64 else h.pc)
  {
    hide Trap, RestoreFull, SaveFull, RunsContext, SavedAt, AtAnswer, Words, Misses, Exec, EntryCode;
    HandlerEntered(h, e);
    SwitchTrap(h, scause, e, outcome);
    SwitchWords(AtAnswer(h, e), h.x[1] - 248, outcome.save, outcome.into, if scause == 8 then Plus(h.pc, 4) else h.pc, h);
  }

  lemma SwitchTrap(h: Hart, scause: U64, e: Handled, outcome: TrapOutcome)
    requires StackReady(h) && HandsOn(scause) && (outcome.SwitchTo? || (outcome.SwitchToFast? && scause != 8))
    requires FromUser(AtAnswer(h, e).sstatus)
    ensures Trap(h, scause, e, Some(outcome))
      == Some(RestoreFull(SaveFull(AtAnswer(h, e), h.x[1] - 248, if scause == 8 then Plus(h.pc, 4) else h.pc, outcome.save),
                          outcome.into))
  {
    hide Exec, EntryCode, RestoreFull, SaveFull, AfterHandler, TrapStatus, FromUser;
    EntryEffect(Taken(h));
  }

  lemma FullWords(g: Hart, f: nat, save: U64, resume: U64, h: Hart)
    requires Room(g.mem, f, 31) && f + 248 < TWO64 && Room(g.mem, save, 40) && Words(g.mem, f, 31) == h.x[SP - 1 := f]
    requires h.x[SP - 1] == f + 248 && g.satp == h.satp && FromUser(g.sstatus)
    ensures var m := SaveFull(g, f, resume, save);
      |m.mem| == |g.mem| && SavedAt(m, save, h, resume)
  {
    hide Put, Words;
    PutBack(g.mem, save, FullContext(g, f, resume));
    assert SnapshotRegs(h.x[SP - 1 := f], f) == h.x;
  }

  lemma SwitchWords(g: Hart, f: nat, save: U64, into: U64, resume: U64, h: Hart)
    requires Room(g.mem, f, 31) && f + 248 < TWO64 && Room(g.mem, save, 40) && Room(g.mem, into, 40)
    requires Words(g.mem, f, 31) == h.x[SP - 1 := f]
    requires h.x[SP - 1] == f + 248 && g.satp == h.satp && FromUser(g.sstatus)
    ensures var t := RestoreFull(SaveFull(g, f, resume, save), into);
      |t.mem| == |g.mem| && RunsContext(t, into) && SavedAt(t, save, h, resume)
  {
    hide RestoreFull, SaveFull, Words, FromUser;
    FullWords(g, f, save, resume, h);
    Restored(SaveFull(g, f, resume, save), into);
  }

  /** A handoff out of an ecall keeps ra, sp, gp, tp, a0, a1 and s0..s11 on both sides:
      the other slots of the saved context stay, the other registers come back zero. */
  lemma EcallHandsOff(h: Hart, e: Handled, save: U64, into: U64, r: Reg)
    requires StackReady(h) && Misses(e.pokes, h.x[1] - 248)
    requires Room(h.mem, save, 40) && Room(h.mem, into, 40)
    ensures var t := Trap(h, 8, e, Some(SwitchToFast(save, into)));
      && t.Some? && |t.value.mem| == |h.mem| == |AtAnswer(h, e).mem|
      && HandedOff(h, t.value, Words(AtAnswer(h, e).mem, save, 40), save, into, r)
  {
    hide Trap, RestoreFast, SaveFast, Words, AtAnswer, HandedOff;
    var g, f := AtAnswer(h, e), h.x[1] - 248;
    HandlerEntered(h, e);
    HandoffTrap(h, e, save, into);
    FastWords(g, f, save, Plus(h.pc, 4), h, r);
    WokenFast(h, SaveFast(g, f, Plus(h.pc, 4), save), Words(g.mem, save, 40), save, into, r);
  }

  /** The saved context, the words `was` under it, and what runs now, register by register. */
  ghost predicate HandedOff(h: Hart, t: Hart, was: seq<U64>, save: nat, into: nat, r: Reg)
    requires Room(t.mem, save, 40) && Room(t.mem, into, 40) && |was| == 40
  {
    var s, w := Words(t.mem, save, 40), Words(t.mem, into, 40);
    && s[31] == (h.pc + 4) % TWO64 && s[33] == h.satp && s[32] / 256 % 2 == 0
    && s[r - 1] == (if Preserved(r) then h.x[r - 1] else was[r - 1]) && s[34..] == was[34..]
    && t.pc == w[31] && t.satp == w[33] && t.x[r - 1] == (if Preserved(r) then w[r - 1] else 0)
  }

  lemma WokenFast(h: Hart, m: Hart, was: seq<U64>, save: nat, into: U64, r: Reg)
    requires Room(m.mem, save, 40) && Room(m.mem, into, 40) && |was| == 40
    requires var s := Words(m.mem, save, 40);
      && s[31] == Plus(h.pc, 4) && s[33] == h.satp && s[32] / 256 % 2 == 0
      && s[r - 1] == (if Preserved(r) then h.x[r - 1] else was[r - 1]) && s[34..] == was[34..]
    ensures RestoreFast(m, into).mem == m.mem && HandedOff(h, RestoreFast(m, into), was, save, into, r)
  {
    hide RestoreFast, RestoreFull, RunsContext, Words, Merge, Zeros, IpcAbi, Preserved;
    Restored(m, into);
    FastRegister(Words(m.mem, into, 40)[..31], r);
  }

  /** ra, sp, gp, tp; s0, s1, a0, a1; s2 to s11. */
  predicate Preserved(r: Reg) {
    r in {1, 2, 3, 4, 8, 9, 10, 11, 18, 19, 20, 21, 22, 23, 24, 25, 26, 27}
  }

  lemma HandoffTrap(h: Hart, e: Handled, save: U64, into: U64)
    requires StackReady(h)
    ensures Trap(h, 8, e, Some(SwitchToFast(save, into)))
      == Some(RestoreFast(SaveFast(AtAnswer(h, e), h.x[1] - 248, Plus(h.pc, 4), save), into))
  {
    hide Exec, EntryCode, RestoreFast, SaveFast, AfterHandler, TrapStatus;
    EntryEffect(Taken(h));
  }

  lemma FastWords(g: Hart, f: nat, save: U64, resume: U64, h: Hart, r: Reg)
    requires Room(g.mem, f, 31) && f + 248 < TWO64 && Room(g.mem, save, 40) && Words(g.mem, f, 31) == h.x[SP - 1 := f]
    requires h.x[SP - 1] == f + 248
    ensures var m := SaveFast(g, f, resume, save);
      && |m.mem| == |g.mem|
      && var s, was := Words(m.mem, save, 40), Words(g.mem, save, 40);
      && s[31] == resume && s[33] == g.satp && s[32] == g.sstatus
      && s[r - 1] == (if Preserved(r) then h.x[r - 1] else was[r - 1]) && s[34..] == was[34..]
  {
    hide Put, Words, Merge, Preserved;
    PutBack(g.mem, save, FastContext(g, f, resume, save));
    assert SnapshotRegs(h.x[SP - 1 := f], f) == h.x;
    KeptMerged(h.x, Words(g.mem, save, 40)[..31], r);
  }

  lemma KeptMerged(a: Regs, b: Regs, r: Reg)
    ensures Merge(IpcAbi().kept, a, b)[r - 1] == if Preserved(r) then a[r - 1] else b[r - 1]
  {
  }

  lemma FastRegister(a: Regs, r: Reg)
    ensures Merge(IpcAbi().kept, a, Zeros(31))[r - 1] == if Preserved(r) then a[r - 1] else 0
  {
    hide Preserved, Merge;
    KeptMerged(a, Zeros(31), r);
  }

  /** A terminated thread leaves no trace: the next context runs and none is written. */
  lemma TerminateByCause(h: Hart, scause: U64, e: Handled, into: U64)
    requires StackReady(h) && Misses(e.pokes, h.x[1] - 248) && HandsOn(scause) && Room(h.mem, into, 40)
    ensures var r := Trap(h, scause, e, Some(Terminate(into)));
      && r.Some? && |r.value.mem| == |h.mem| && r.value.mem == AtAnswer(h, e).mem
      && RunsContext(r.value, into)
  {
    hide Exec, EntryCode, ReturnCode, RestoreFull, RestoreFast, RunsContext, WaitedStatus, TrapStatus, PokeAll;
    HandlerEntered(h, e);
    Restored(AtAnswer(h, e), into);
  }

  /** The thread goes on with all its registers where the trap found it, or, if the handler
      waited in the kernel, where the nested interrupt left sepc. */
  predicate GoesOn(h: Hart, e: Handled, g: Hart) {
    && g.umode && g.x == h.x && g.satp == h.satp && g.mem == AtAnswer(h, e).mem
    && g.pc == if e.nested.None? then h.pc else e.nested.value
  }

  /** Every interrupt but the timer's changes nothing, whatever a handler would answer;
      nor does any interrupt without a handler, nor a timer or fault answered `Resume`. */
  lemma NothingByCause(h: Hart, scause: U64, e: Handled, outcome: Option<TrapOutcome>)
    requires StackReady(h) && Misses(e.pokes, h.x[1] - 248)
    requires !HandsOn(scause) || (scause == 0x8000_0000_0000_0005 && outcome.None?)
      || (scause != 8 && outcome.Some? && (outcome.value.Resume? || outcome.value.Resume2?))
    ensures var r := Trap(h, scause, e, outcome);
      r.Some? && GoesOn(h, e, r.value)
  {
    hide Exec, EntryCode, ReturnCode, WaitedStatus, TrapStatus, PokeAll, SretStatus;
    var g, f := AtAnswer(h, e), h.x[1] - 248;
    HandlerEntered(h, e);
    ReturnEffect(g);
    assert h.x[SP - 1 := f][SP - 1 := f + 248] == h.x;
  }
}
