/** IRQs nested in the handler of an exception from EL0, as `wfi` takes them: exactly
    when hal/hal-arm64/src/cpu.rs still resumes and parks its threads at EL0. */
module Aarch64Nesting {
  import opened Bits
  import opened Options
  import opened Threads
  import opened WordMemory
  import opened Aarch64Trap
  import opened Aarch64Threads

  /** Every nested IRQ interrupted the kernel. */
  ghost predicate FromKernel(e: TrapEvent) {
    forall k | 0 <= k < |e.handled.nested| :: IsEl1(e.handled.nested[k].spsr)
  }

  /** Any exception that does not halt, of any kind with any answer and any results
      written: it is one step of independent threads if and only if it is undisturbed. */
  lemma NestingExactly(h: Core, first: U64, ctx: seq<U64>, w: World, e: TrapEvent)
    requires Represents(h, first, ctx, w) && !Halting(e) && Obeys(ctx, w, e) && FromKernel(e)
    ensures var r := Trap(h, ClassOf(e.cause), e.handled, e.outcome);
      && r.Some?
      && (Represents(r.value, first, ctx, Next(IpcAbi(), w, Meaning(Trapped(e)))) <==> Undisturbed(e))
  {
    hide Trap, Represents, Obeys, Next;
    TrapHalts(h, e.cause, e.handled, e.outcome);
    if Undisturbed(e) {
      HandledRefines(h, first, ctx, w, e);
    } else {
      DisturbedStrays(h, first, ctx, w, e);
    }
  }

  /** A disturbed exception resumes at EL1, or leaves the thread it switched out parked
      to be resumed there. */
  lemma DisturbedStrays(h: Core, first: U64, ctx: seq<U64>, w: World, e: TrapEvent)
    requires Represents(h, first, ctx, w) && !Halting(e) && Obeys(ctx, w, e) && FromKernel(e) && !Undisturbed(e)
    ensures var r := Trap(h, ClassOf(e.cause), e.handled, e.outcome);
      r.Some? ==> !Represents(r.value, first, ctx, Next(IpcAbi(), w, Meaning(Trapped(e))))
  {
    hide Exec, EntryCode, ReturnCode, Common, Next, Resumable, Holds, PokeAll, Words, Put, AllFitting, Means;
    var kind := ClassOf(e.cause);
    EntryEffect(Taken(h, kind));
    var entered := Exec(Taken(h, kind), EntryCode());
    var g := AfterHandler(entered, e.handled);
    assert IsEl1(e.handled.nested[|e.handled.nested| - 1].spsr);
    var r := Resumes(Common(g, g.sp, kind, entered.elr, entered.spsr, e.outcome));
    if Switches(e.decision) {
      SwitchLeavesLive(g, kind, entered.elr, entered.spsr, ctx, w, e.outcome, e.decision);
      var v := Next(IpcAbi(), w, Meaning(Trapped(e)));
      NextSwitches(ctx, w, e);
      if e.decision.to != w.running && Represents(r.value, first, ctx, v) {
        ParkedStatus(r.value.mem, ctx[w.running], v.threads[w.running]);
      }
    } else {
      ReturnsLive(g, kind, entered.elr, entered.spsr, ctx, w, e.outcome, e.decision);
    }
  }

  /** Outside a system call, a return goes back with SPSR as it stands. */
  lemma ReturnsLive(g: Core, kind: Kind, elr: U64, spsr: U64, ctx: seq<U64>, w: World, outcome: Option<TrapOutcome>, d: Decision)
    requires Room(g.mem, g.sp, 31) && Means(ctx, w, kind, outcome, d) && !kind.Svc? && !Switches(d)
    ensures var r := Resumes(Common(g, g.sp, kind, elr, spsr, outcome));
      r.Some? && r.value.pstate == g.spsr
  {
    hide Exec, ReturnCode, Store, Words;
    var m := Common(g, g.sp, kind, elr, spsr, outcome).core;
    RoomKept(g.mem, m.mem, g.sp, 31);
    ReturnEffect(m);
  }

  /** A switch leaves SPSR as it stands in the context of the thread it parks, and so
      resumes that thread with it if that is the one it switches to. */
  lemma SwitchLeavesLive(g: Core, kind: Kind, elr: U64, spsr: U64, ctx: seq<U64>, w: World,
                         outcome: Option<TrapOutcome>, d: Decision)
    requires Room(g.mem, g.sp, 31) && Means(ctx, w, kind, outcome, d) && (d.Yield? || d.Handoff?)
    requires forall i | 0 <= i < |ctx| :: Room(g.mem, ctx[i], 40)
    ensures var r := Resumes(Common(g, g.sp, kind, elr, spsr, outcome));
      && r.Some? && |r.value.mem| == |g.mem|
      && Words(r.value.mem, ctx[w.running], 40)[SPSR_SLOT] == g.spsr
      && (d.to == w.running ==> r.value.pstate == g.spsr)
  {
    hide Exec, RestoreCode, FastRestoreCode, SaveFull, SaveFast, Words;
    var at := ctx[w.running];
    var m := if d.Handoff? then SaveFast(g, g.sp, elr, at) else SaveFull(g, g.sp, elr, at);
    SavesLive(g, g.sp, elr, at, d.Handoff?);
    RoomKept(g.mem, m.mem, ctx[d.to], 40);
    assert Common(g, g.sp, kind, elr, spsr, outcome) == Into(m, ctx[d.to], d.Handoff?);
    RestoreEffect(m.(x := m.x[X30 := ctx[d.to]]));
    FastRestoreEffect(m.(x := m.x[X30 := ctx[d.to]]));
  }

  /** What a switch means to the thread it parks. */
  lemma NextSwitches(ctx: seq<U64>, w: World, e: TrapEvent)
    requires Means(ctx, w, ClassOf(e.cause), e.outcome, e.decision) && (e.decision.Yield? || e.decision.Handoff?)
    requires Current(w).alive
    ensures var v := Next(IpcAbi(), w, Meaning(Trapped(e)));
      |v.threads| == |w.threads| && v.running == e.decision.to && v.threads[w.running].alive
  {
    hide Plus, Merge, GivenAll, SetAt;
    GivenKeeps(IpcAbi(), w, e.gifts, w.running);
  }

  lemma ParkedStatus(mem: seq<U64>, at: U64, t: Thread)
    requires Room(mem, at, 40) && Resumable(mem, at, t)
    ensures IsEl0(Words(mem, at, 40)[SPSR_SLOT])
  {
  }
}
