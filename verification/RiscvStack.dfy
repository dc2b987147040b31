/** The trap vector of hal/hal-riscv64/src/cpu.rs pushes its frame on the stack of the
    thread it interrupts, wherever that points. What this does to the saved contexts, and
    exactly when it does no harm. */
module RiscvStack {
  import opened Bits
  import opened Options
  import opened Threads
  import opened WordMemory
  import opened RiscvTrap
  import opened RiscvThreads

  /** The entry path's 31 stores all fall in memory exactly when the stack is ready. */
  lemma StackReadyExactly(h: Hart)
    requires |h.mem| < 0x2000_0000_0000_0000
    ensures StackReady(h) <==> forall k | 0 <= k < 31 :: Room(h.mem, Plus(h.x[SP - 1], -248) + 8 * k, 1)
  {
    var f: nat := Plus(h.x[SP - 1], -248);
    if StackReady(h) {
      forall k | 0 <= k < 31 ensures Room(h.mem, f + 8 * k, 1) {
        assert (f + 8 * k) / 8 == f / 8 + k;
      }
    }
    if forall k | 0 <= k < 31 :: Room(h.mem, f + 8 * k, 1) {
      assert Room(h.mem, f + 8 * 0, 1) && Room(h.mem, f + 8 * 30, 1);
    }
  }

  // ---------------------------------------------------------------------------
  // What a trap leaves in the contexts of the others
  // ---------------------------------------------------------------------------

  /** The frame the entry path writes, at sp - 248. */
  function Frame(h: Hart): Regs
    requires StackReady(h)
  {
    h.x[SP - 1 := h.x[SP - 1] - 248]
  }

  /** The result an answer writes over word `k` of the frame. */
  function Answer(d: Decision, k: nat): Option<U64> {
    match d
    case Answer1(v0) => if k == A0 then Some(v0) else None
    case Answer2(v0, v1) => if k == A0 then Some(v0) else if k == A1 then Some(v1) else None
    case _ => None
  }

  /** What the trap leaves in word `k` of the frame. */
  function LeftAt(h: Hart, e: TrapEvent, k: nat): U64
    requires StackReady(h) && k < 31
  {
    match Answer(e.decision, k)
    case Some(v) => v
    case None => Frame(h)[k]
  }

  /** Slot `s` of a context takes results written for its thread. */
  predicate ResultSlot(e: TrapEvent, i: nat, s: nat) {
    LastGift(e.gifts, i).Some? && (s == A0 || s == A1)
  }

  /** The context at `at` with the results the trap writes for thread `i`. */
  function Due(h: Hart, e: TrapEvent, at: nat, i: nat): (c: seq<U64>)
    requires Room(h.mem, at, 40)
    ensures |c| == 40
  {
    Delivered(IpcAbi(), Words(h.mem, at, 40), e.gifts, i)
  }

  /** Any value with SPP clear will do for the sstatus slot; the others are exact. */
  predicate Belongs(s: nat, v: U64, due: U64) {
    if s == SSTATUS_SLOT then FromUser(v) else v == due
  }

  /** Every word of the frame that falls on a slot of the context at `at` leaves there
      what belongs there, or is itself overwritten by a result. */
  ghost predicate Harmless(h: Hart, e: TrapEvent, at: nat, i: nat)
    requires StackReady(h) && Room(h.mem, at, 40)
  {
    var f := (h.x[SP - 1] - 248) / 8;
    forall k: nat | k < 31 && at / 8 <= f + k < at / 8 + 34 ::
      || Belongs(f + k - at / 8, LeftAt(h, e, k), Due(h, e, at, i)[f + k - at / 8])
      || (Answer(e.decision, k).None? && ResultSlot(e, i, f + k - at / 8))
  }

  /** Slot `s` of the context at `at` after the trap. */
  function FinalSlot(h: Hart, e: TrapEvent, at: nat, i: nat, s: nat): U64
    requires StackReady(h) && Room(h.mem, at, 40) && s < 40
  {
    var f := (h.x[SP - 1] - 248) / 8;
    if f <= at / 8 + s < f + 31 then
      var k := at / 8 + s - f;
      if Answer(e.decision, k).None? && ResultSlot(e, i, s) then Due(h, e, at, i)[s] else LeftAt(h, e, k)
    else Due(h, e, at, i)[s]
  }

  /** Pokes of waiting threads, seen from the context of one thread. */
  lemma {:induction false} PokesDeliver(mem: seq<U64>, ctx: seq<U64>, w: World, ps: seq<Poke>, gs: seq<Gift>, i: nat)
    requires Separate(ctx, |mem|) && |ctx| == |w.threads| && i < |ctx| && AllFitting(ctx, w, ps, gs)
    ensures Words(PokeAll(mem, ps), ctx[i], 40) == Delivered(IpcAbi(), Words(mem, ctx[i], 40), gs, i)
    decreases |ps|
  {
    hide PokeAt, Words, SetAt;
    if ps == [] {
      assert PokeAll(mem, ps) == mem;
    } else {
      var n := |ps| - 1;
      var m, old_ := PokeAll(mem, ps[..n]), Words(mem, ctx[i], 40);
      PokesDeliver(mem, ctx, w, ps[..n], gs[..n], i);
      assert Fitting(ctx, w, ps[n], gs[n]);
      if gs[n].thread == i {
        PokeInside(m, ps[n]);
        TwoSet(Words(m, ctx[i], 40), ps[n].a0, ps[n].a1);
        if LastGift(gs[..n], i).Some? {
          var g := LastGift(gs[..n], i).value;
          SetTwice(old_, A0, g.v0, A1, g.v1, gs[n].v0, gs[n].v1);
        }
      } else {
        assert Apart(ctx[i], ctx[gs[n].thread]);
        PokeElsewhere(m, ps[n], ctx[i], 40);
      }
    }
  }

  lemma TwoSet(c: seq<U64>, v0: U64, v1: U64)
    requires |c| == 40
    ensures c[A0 := v0][A1 := v1] == SetAt(SetAt(c, A0, v0), A1, v1)
  {
  }

  /** After the handler, memory changes only in the frame's result slots and in the
      running thread's context. */
  ghost predicate OnlyAnswers(m: seq<U64>, m': seq<U64>, f: nat, own: nat, d: Decision) {
    && |m'| == |m|
    && forall a | 0 <= a < |m| && !(own / 8 <= a < own / 8 + 40) ::
         m'[a] == if f / 8 <= a < f / 8 + 31 && Answer(d, a - f / 8).Some? then Answer(d, a - f / 8).value else m[a]
  }

  /** A return: the answers over the frame's result words, and sepc. */
  lemma ReturnCommon(g: Hart, f: nat, ctx: seq<U64>, w: World, kind: Kind, sepc: U64, outcome: Option<TrapOutcome>, d: Decision)
    requires Room(g.mem, f, 31) && Means(ctx, w, kind, outcome, d) && !Switches(d) && FromUser(g.sstatus)
    ensures var c := Common(g, f, kind, sepc, outcome);
      && c.Returns? && c.hart == g.(mem := c.hart.mem, sepc := if d.Unchanged? then g.sepc else Plus(sepc, 4)) && |c.hart.mem| == |g.mem|
      && (d.Unchanged? || kind.Ecall?)
      && forall a | 0 <= a < |g.mem| ::
           c.hart.mem[a] == if f / 8 <= a < f / 8 + 31 && Answer(d, a - f / 8).Some? then Answer(d, a - f / 8).value else g.mem[a]
  {
    assert (f + 72) / 8 == f / 8 + 9 && (f + 80) / 8 == f / 8 + 10;
  }

  lemma SwitchCommon(g: Hart, f: nat, ctx: seq<U64>, w: World, kind: Kind, sepc: U64, outcome: Option<TrapOutcome>, d: Decision)
    requires Means(ctx, w, kind, outcome, d) && (d.Yield? || d.Handoff?) && FromUser(g.sstatus)
    ensures var resume := if kind.Ecall? then Plus(sepc, 4) else sepc;
      var m := if d.Handoff? then SaveFast(g, f, resume, ctx[w.running]) else SaveFull(g, f, resume, ctx[w.running]);
      Common(g, f, kind, sepc, outcome) == Into(m, ctx[d.to], d.Handoff?)
  {
    hide SaveFull, SaveFast, RestoreFull, RestoreFast;
  }

  lemma SavesKeepSize(g: Hart, f: nat, resume: U64, at: nat)
    ensures |SaveFull(g, f, resume, at).mem| == |SaveFast(g, f, resume, at).mem| == |g.mem|
  {
    hide FullContext, FastContext;
  }

  lemma SameRoom(a: seq<U64>, b: seq<U64>, addr: nat, n: nat)
    requires |a| == |b| && Room(a, addr, n)
    ensures Room(b, addr, n)
  {
  }

  /** Either save writes the 40 words of the context and nothing else. */
  lemma SavesOnly(g: Hart, f: nat, resume: U64, at: nat)
    requires Room(g.mem, at, 40)
    ensures forall a | 0 <= a < |g.mem| && !(at / 8 <= a < at / 8 + 40) ::
              SaveFull(g, f, resume, at).mem[a] == g.mem[a] == SaveFast(g, f, resume, at).mem[a]
  {
    hide FullContext, FastContext;
  }

  lemma CommonWrites(h: Hart, f: nat, ctx: seq<U64>, w: World, kind: Kind, sepc: U64, outcome: Option<TrapOutcome>, d: Decision)
    requires Room(h.mem, f, 31) && f < TWO64 && h.x[SP - 1] == f && FromUser(h.sstatus)
    requires Separate(ctx, |h.mem|) && Means(ctx, w, kind, outcome, d)
    ensures var r := Resumes(Common(h, f, kind, sepc, outcome));
      r.Some? && OnlyAnswers(h.mem, r.value.mem, f, ctx[w.running], d)
  {
    hide Exec, ReturnCode, RestoreFull, RestoreFast, SaveFull, SaveFast, Separate, FromUser, Room;
    ContextRooms(ctx, |h.mem|);
    var at := ctx[w.running];
    if d.Kill? {
      RestoreKeepsMemory(h, ctx[d.to]);
    } else if Switches(d) {
      hide Common;
      var resume := if kind.Ecall? then Plus(sepc, 4) else sepc;
      var m := if d.Handoff? then SaveFast(h, f, resume, at) else SaveFull(h, f, resume, at);
      SwitchCommon(h, f, ctx, w, kind, sepc, outcome, d);
      SavesKeepSize(h, f, resume, at);
      SavesOnly(h, f, resume, at);
      SameRoom(h.mem, m.mem, ctx[d.to], 40);
      RestoreKeepsMemory(m, ctx[d.to]);
    } else {
      hide Common;
      ReturnCommon(h, f, ctx, w, kind, sepc, outcome, d);
      SameRoom(h.mem, Common(h, f, kind, sepc, outcome).hart.mem, f, 31);
      ReturnEffect(Common(h, f, kind, sepc, outcome).hart);
    }
  }

  lemma ContextRooms(ctx: seq<U64>, words: nat)
    requires Separate(ctx, words)
    ensures forall i: nat, m: seq<U64> | i < |ctx| && |m| == words :: Room(m, ctx[i], 40)
  {
  }

  lemma ContextRoom(ctx: seq<U64>, words: nat, i: nat)
    requires Separate(ctx, words) && i < |ctx|
    ensures ctx[i] % 8 == 0 && ctx[i] / 8 + 40 <= words
  {
  }

  lemma RestoreKeepsMemory(h: Hart, at: U64)
    requires Room(h.mem, at, 40)
    ensures RestoreFull(h, at).mem == h.mem && RestoreFast(h, at).mem == h.mem
  {
    hide Exec, RestoreCode, FastRestoreCode;
    RestoreEffect(h.(x := h.x[T6 - 1 := at]));
    FastRestoreEffect(h.(x := h.x[T6 - 1 := at]));
  }

  /** A trap whose handler keeps its side runs on, and leaves these words in the context
      of every thread it did not interrupt, whatever its cause and answer. */
  lemma FinalWords(h: Hart, ctx: seq<U64>, w: World, e: TrapEvent, i: nat)
    requires Represents(h, ctx, w) && StackReady(h) && Obeys(ctx, w, e) && i < |ctx| && i != w.running
    ensures var r := Trap(h, e.scause, e.handled, e.outcome);
      && r.Some? && |r.value.mem| == |h.mem|
      && forall s | 0 <= s < 40 :: Words(r.value.mem, ctx[i], 40)[s] == FinalSlot(h, e, ctx[i], i, s)
  {
    hide Exec, EntryCode, ReturnCode, Common, Put, PokeAll, Delivered, LastGift, AllFitting, Means, TrapStatus, WaitedStatus,
      SretStatus, AllResumable, Holds, OnlyAnswers, FromUser;
    var f, h1 := h.x[SP - 1] - 248, Taken(h);
    ContextRoom(ctx, |h.mem|, i);
    ContextRoom(ctx, |h.mem|, w.running);
    EntryEffect(h1);
    var entered := Exec(h1, EntryCode());
    var g := AfterHandler(entered, e.handled);
    CommonWrites(g, f, ctx, w, CauseOf(e.scause), entered.sepc, e.outcome, e.decision);
    PokesDeliver(entered.mem, ctx, w, e.handled.pokes, e.gifts, i);
    var m' := Resumes(Common(g, f, CauseOf(e.scause), entered.sepc, e.outcome)).value.mem;
    assert |m'| == |g.mem| by {
      AnswersLength(g.mem, m', f, ctx[w.running], e.decision);
    }
    assert Apart(ctx[i], ctx[w.running]) by {
      ContextsApart(ctx, |h.mem|, i, w.running);
    }
    forall s | 0 <= s < 40 ensures Words(m', ctx[i], 40)[s] == FinalSlot(h, e, ctx[i], i, s) {
      FrameSlot(h.mem, f, Frame(h), ctx[i], s);
      SlotAfter(h, e, entered.mem, g.mem, m', ctx[i], ctx[w.running], i, s);
    }
  }

  lemma AnswersLength(m: seq<U64>, m': seq<U64>, f: nat, own: nat, d: Decision)
    requires OnlyAnswers(m, m', f, own, d)
    ensures |m'| == |m|
  {
  }

  lemma ContextsApart(ctx: seq<U64>, words: nat, i: nat, j: nat)
    requires Separate(ctx, words) && i < |ctx| && j < |ctx| && i != j
    ensures Apart(ctx[i], ctx[j])
  {
    assert i < j || j < i;
  }

  lemma FrameSlot(mem: seq<U64>, f: nat, x: Regs, at: nat, s: nat)
    requires Room(mem, f, 31) && Room(mem, at, 40) && s < 40
    ensures Words(Put(mem, f, x), at, 40)[s]
      == if f / 8 <= at / 8 + s < f / 8 + 31 then x[at / 8 + s - f / 8] else Words(mem, at, 40)[s]
  {
  }

  /** Results written in a context, slot by slot. */
  lemma DueSlot(c: seq<U64>, gs: seq<Gift>, i: nat, s: nat)
    requires |c| == 40 && s < 40
    ensures LastGift(gs, i).None? || (s != A0 && s != A1) ==> Delivered(IpcAbi(), c, gs, i)[s] == c[s]
    ensures forall b: seq<U64> | |b| == 40 && LastGift(gs, i).Some? && (s == A0 || s == A1) ::
              Delivered(IpcAbi(), b, gs, i)[s] == Delivered(IpcAbi(), c, gs, i)[s]
  {
  }

  /** From the entry path through the handler to the answer, one slot. */
  lemma SlotAfter(h: Hart, e: TrapEvent, m1: seq<U64>, m2: seq<U64>, m3: seq<U64>, at: nat, own: nat, i: nat, s: nat)
    requires StackReady(h) && Room(h.mem, at, 40) && |m1| == |m2| == |h.mem| && s < 40
    requires own % 8 == 0 && at % 8 == 0 && (own + 320 <= at || at + 320 <= own)
    requires var f := h.x[SP - 1] - 248;
      && Words(m1, at, 40)[s] == (if f / 8 <= at / 8 + s < f / 8 + 31 then Frame(h)[at / 8 + s - f / 8] else Words(h.mem, at, 40)[s])
      && OnlyAnswers(m2, m3, f, own, e.decision)
    requires Words(m2, at, 40) == Delivered(IpcAbi(), Words(m1, at, 40), e.gifts, i)
    ensures |m3| == |h.mem| && Words(m3, at, 40)[s] == FinalSlot(h, e, at, i, s)
  {
    hide Delivered, LastGift, IpcAbi;
    DueSlot(Words(m1, at, 40), e.gifts, i, s);
    DueSlot(Words(h.mem, at, 40), e.gifts, i, s);
    assert Words(m3, at, 40)[s] == m3[at / 8 + s] && Words(m2, at, 40)[s] == m2[at / 8 + s];
  }

  // ---------------------------------------------------------------------------
  // Exactly when it does no harm
  // ---------------------------------------------------------------------------

  /** Any trap, any cause, any answer: another living thread is found in its context
      after it, with its registers, pc, space and U-mode and the results written for it,
      if and only if the frame is harmless to that context. */
  lemma StackHarm(h: Hart, ctx: seq<U64>, w: World, e: TrapEvent, i: nat)
    requires Represents(h, ctx, w) && StackReady(h) && Obeys(ctx, w, e)
    requires i < |ctx| && i != w.running && w.threads[i].alive
    ensures Room(h.mem, ctx[i], 40)
    ensures var r := Trap(h, e.scause, e.handled, e.outcome);
      && r.Some? && |r.value.mem| == |h.mem|
      && (Resumable(r.value.mem, ctx[i], GivenAll(IpcAbi(), w, e.gifts).threads[i]) <==> Harmless(h, e, ctx[i], i))
  {
    hide Trap, Words, Delivered, Obeys, GivenAll, StackReady, FinalSlot, Harmless;
    ContextRoom(ctx, |h.mem|, i);
    var r, t := Trap(h, e.scause, e.handled, e.outcome), w.threads[i];
    FinalWords(h, ctx, w, e, i);
    GivenDelivers(IpcAbi(), w, e.gifts, i);
    var due := Due(h, e, ctx[i], i);
    assert Resumable(h.mem, ctx[i], t);
    DueHolds(h.mem, ctx[i], t, e.gifts, i);
    SlotsDecide(r.value.mem, ctx[i], t.(saved := Delivered(IpcAbi(), t.saved, e.gifts, i)), due);
    HarmSlots(h, e, ctx[i], i);
  }

  /** A context that resumes a thread resumes it with its results once they are in. */
  lemma DueHolds(mem: seq<U64>, at: U64, t: Thread, gs: seq<Gift>, i: nat)
    requires Room(mem, at, 40) && Resumable(mem, at, t)
    ensures var c := Delivered(IpcAbi(), Words(mem, at, 40), gs, i);
      c[..31] == Delivered(IpcAbi(), t.saved, gs, i) && c[SEPC_SLOT] == t.pc && c[SATP_SLOT] == t.space && FromUser(c[SSTATUS_SLOT])
  {
    hide LastGift;
    ContextRegs(mem, at);
  }

  lemma SlotsDecide(mem: seq<U64>, at: U64, t: Thread, due: seq<U64>)
    requires Room(mem, at, 40) && |due| == 40
    requires due[..31] == t.saved && due[SEPC_SLOT] == t.pc && due[SATP_SLOT] == t.space && FromUser(due[SSTATUS_SLOT])
    ensures Resumable(mem, at, t) <==> forall s | 0 <= s < 34 :: Belongs(s, Words(mem, at, 40)[s], due[s])
  {
    hide FromUser, Words;
    ContextRegs(mem, at);
    var c := Words(mem, at, 40);
    if forall s | 0 <= s < 34 :: Belongs(s, c[s], due[s]) {
      forall s | 0 <= s < 31 ensures c[..31][s] == due[..31][s] {
        assert Belongs(s, c[s], due[s]);
      }
      assert c[..31] == due[..31];
      assert Belongs(31, c[31], due[31]) && Belongs(32, c[32], due[32]) && Belongs(33, c[33], due[33]);
    } else {
      var s :| 0 <= s < 34 && !Belongs(s, c[s], due[s]);
      assert s < 31 ==> c[..31][s] != due[..31][s];
    }
  }

  lemma HarmSlots(h: Hart, e: TrapEvent, at: nat, i: nat)
    requires StackReady(h) && Room(h.mem, at, 40) && FromUser(Due(h, e, at, i)[SSTATUS_SLOT])
    ensures Harmless(h, e, at, i) <==> forall s | 0 <= s < 34 :: Belongs(s, FinalSlot(h, e, at, i, s), Due(h, e, at, i)[s])
  {
    hide Due, LeftAt, Answer, LastGift, FromUser;
    var f := (h.x[SP - 1] - 248) / 8;
    if forall s | 0 <= s < 34 :: Belongs(s, FinalSlot(h, e, at, i, s), Due(h, e, at, i)[s]) {
      forall k: nat | k < 31 && at / 8 <= f + k < at / 8 + 34
        ensures || Belongs(f + k - at / 8, LeftAt(h, e, k), Due(h, e, at, i)[f + k - at / 8])
                || (Answer(e.decision, k).None? && ResultSlot(e, i, f + k - at / 8))
      {
        var s := f + k - at / 8;
        assert Belongs(s, FinalSlot(h, e, at, i, s), Due(h, e, at, i)[s]);
      }
    }
    if Harmless(h, e, at, i) {
      forall s | 0 <= s < 34 ensures Belongs(s, FinalSlot(h, e, at, i, s), Due(h, e, at, i)[s]) {
        if f <= at / 8 + s < f + 31 {
          var k: nat := at / 8 + s - f;
          assert at / 8 <= f + k < at / 8 + 34 && f + k - at / 8 == s;
          assert LeftAt(h, e, k) == LeftAt(h, e, k);
        }
      }
    }
  }

  /** A frame that misses a context is harmless to it. */
  lemma ClearIsHarmless(h: Hart, e: TrapEvent, at: nat, i: nat)
    requires StackReady(h) && Room(h.mem, at, 40) && (h.x[SP - 1] <= at || at + 320 <= h.x[SP - 1] - 248)
    ensures Harmless(h, e, at, i)
  {
    hide Due, LeftAt, Answer, LastGift, Belongs;
  }

  /** A trap that harms the context of a living thread, other than the one it resumes,
      is no step of independent threads. */
  lemma HarmedTrapStrays(h: Hart, ctx: seq<U64>, w: World, e: TrapEvent, i: nat)
    requires Represents(h, ctx, w) && StackReady(h) && Obeys(ctx, w, e) && !Halting(e)
    requires i < |ctx| && i != w.running && w.threads[i].alive && (Switches(e.decision) ==> e.decision.to != i)
    requires Room(h.mem, ctx[i], 40) && !Harmless(h, e, ctx[i], i)
    ensures var r := Trap(h, e.scause, e.handled, e.outcome);
      r.Some? && !Represents(r.value, ctx, Next(IpcAbi(), w, Meaning(Trapped(e))))
  {
    hide Trap, Resumable, Harmless, Obeys, Merge, SetAt, StackReady, Holds;
    StackHarm(h, ctx, w, e, i);
    GivenKeeps(IpcAbi(), w, e.gifts, i);
    OthersAsGiven(w, e, i);
  }

  lemma OthersAsGiven(w: World, e: TrapEvent, i: nat)
    requires w.running < |w.threads| && i < |w.threads| && i != w.running && (Switches(e.decision) ==> e.decision.to != i)
    ensures var v := Next(IpcAbi(), w, Meaning(Trapped(e)));
      && |v.threads| == |w.threads| && v.threads[i] == GivenAll(IpcAbi(), w, e.gifts).threads[i]
      && (v.running == w.running || (Switches(e.decision) && v.running == e.decision.to))
  {
    hide GivenAll, Merge, SetAt, Plus;
  }

  /** The frame's words that fall on the saved registers of the interrupted thread's own
      context are what is there. */
  ghost predicate OwnHarmless(h: Hart, at: nat)
    requires StackReady(h) && Room(h.mem, at, 40)
  {
    var f := (h.x[SP - 1] - 248) / 8;
    forall k: nat | k < 31 && at / 8 <= f + k < at / 8 + 31 :: Frame(h)[k] == Words(h.mem, at, 40)[f + k - at / 8]
  }

  ghost predicate AllHarmless(h: Hart, ctx: seq<U64>, w: World, e: TrapEvent)
    requires StackReady(h) && Separate(ctx, |h.mem|) && |ctx| == |w.threads|
  {
    forall i | 0 <= i < |ctx| && i != w.running && w.threads[i].alive :: Harmless(h, e, ctx[i], i)
  }

  /** A trap that changes nothing, say a tick without a handler, is one step of the
      threads exactly when its frame is harmless to every context. */
  lemma UnchangedTrapExactly(h: Hart, ctx: seq<U64>, w: World, e: TrapEvent)
    requires Represents(h, ctx, w) && StackReady(h) && Obeys(ctx, w, e)
    requires e.decision.Unchanged? && e.gifts == [] && e.handled.nested.None?
    ensures var r := Trap(h, e.scause, e.handled, e.outcome);
      && r.Some?
      && (Represents(r.value, ctx, Next(IpcAbi(), w, Meaning(Trapped(e)))) <==>
          AllHarmless(h, ctx, w, e) && OwnHarmless(h, ctx[w.running]))
  {
    hide Trap, Resumable, Harmless, OwnHarmless, Obeys, StackReady, Words;
    var r := Trap(h, e.scause, e.handled, e.outcome);
    UnchangedTrap(h, ctx, w, e);
    assert GivenAll(IpcAbi(), w, e.gifts) == w;
    assert Next(IpcAbi(), w, Meaning(Trapped(e))) == w;
    forall i | 0 <= i < |ctx| && i != w.running && w.threads[i].alive
      ensures Resumable(r.value.mem, ctx[i], w.threads[i]) <==> Harmless(h, e, ctx[i], i)
    {
      StackHarm(h, ctx, w, e, i);
    }
    ContextRoom(ctx, |h.mem|, w.running);
    OwnSlots(h, ctx[w.running]);
  }

  /** What such a trap does: the hart as it was, with the frame below its stack. */
  lemma UnchangedTrap(h: Hart, ctx: seq<U64>, w: World, e: TrapEvent)
    requires Represents(h, ctx, w) && StackReady(h) && Obeys(ctx, w, e)
    requires e.decision.Unchanged? && e.gifts == [] && e.handled.nested.None?
    ensures var f, r := h.x[SP - 1] - 248, Trap(h, e.scause, e.handled, e.outcome);
      && Room(h.mem, f, 31) && r.Some? && r.value.mem == Put(h.mem, f, Frame(h))
      && r.value.x == h.x && r.value.pc == h.pc && r.value.satp == h.satp && r.value.umode && FromUser(r.value.sstatus)
  {
    hide Exec, EntryCode, ReturnCode, Put, Words, TrapStatus, SretStatus, AllResumable, Holds, Separate, FromUser;
    var f, h1 := h.x[SP - 1] - 248, Taken(h);
    EntryEffect(h1);
    PutBack(h.mem, f, Frame(h));
    var g := AfterHandler(Exec(h1, EntryCode()), e.handled);
    assert PokeAll(Exec(h1, EntryCode()).mem, e.handled.pokes) == Exec(h1, EntryCode()).mem;
    assert Common(g, f, CauseOf(e.scause), h.pc, e.outcome) == Returns(g);
    ReturnEffect(g);
    assert Frame(h)[SP - 1 := Plus(f, 248)] == h.x;
  }

  lemma OwnSlots(h: Hart, at: nat)
    requires StackReady(h) && Room(h.mem, at, 40)
    ensures var m' := Put(h.mem, h.x[SP - 1] - 248, Frame(h));
      Words(m', at, 31) == Words(h.mem, at, 31) <==> OwnHarmless(h, at)
  {
    hide Put;
    var fa := h.x[SP - 1] - 248;
    var f, m' := fa / 8, Put(h.mem, fa, Frame(h));
    ContextRegs(h.mem, at);
    ContextRegs(m', at);
    forall s | 0 <= s < 31
      ensures Words(m', at, 31)[s] == if f <= at / 8 + s < f + 31 then Frame(h)[at / 8 + s - f] else Words(h.mem, at, 31)[s]
    {
      FrameSlot(h.mem, fa, Frame(h), at, s);
    }
    if OwnHarmless(h, at) {
      forall s | 0 <= s < 31 ensures Words(m', at, 31)[s] == Words(h.mem, at, 31)[s] {
        if f <= at / 8 + s < f + 31 {
          var k: nat := at / 8 + s - f;
          assert Frame(h)[k] == Words(h.mem, at, 40)[f + k - at / 8];
        }
      }
    }
    if Words(m', at, 31) == Words(h.mem, at, 31) {
      forall k: nat | k < 31 && at / 8 <= f + k < at / 8 + 31 ensures Frame(h)[k] == Words(h.mem, at, 40)[f + k - at / 8] {
        var s := f + k - at / 8;
        assert Words(m', at, 31)[s] == Words(h.mem, at, 31)[s];
      }
    }
  }

  // ---------------------------------------------------------------------------
  // A stack pointer that does harm
  // ---------------------------------------------------------------------------

  /** A timer tick with no handler registered. */
  function BareTick(scratch: Regs): TrapEvent {
    TrapEvent(0x8000_0000_0000_0005, Handled([], None, scratch), None, [], Unchanged)
  }

  /** A thread that traps with its stack pointer 248 bytes into another's context puts its
      own registers there: the other thread would resume with them. */
  lemma StackInContext(h: Hart, ctx: seq<U64>, w: World, j: nat, scratch: Regs)
    requires Represents(h, ctx, w) && j < |ctx| && j != w.running && w.threads[j].alive
    requires 248 <= h.x[SP - 1] && h.x[SP - 1] - 248 == ctx[j] && w.threads[j].saved != h.x[SP - 1 := ctx[j]]
    ensures Room(h.mem, ctx[j], 40)
    ensures var r := Trap(h, BareTick(scratch).scause, BareTick(scratch).handled, BareTick(scratch).outcome);
      && r.Some? && |r.value.mem| == |h.mem|
      && Words(r.value.mem, ctx[j], 31) == h.x[SP - 1 := ctx[j]]
      && !Represents(r.value, ctx, Next(IpcAbi(), w, Meaning(Trapped(BareTick(scratch)))))
  {
    hide Trap, Words, Put, Resumable;
    ContextRoom(ctx, |h.mem|, j);
    var e := BareTick(scratch);
    UnchangedTrap(h, ctx, w, e);
    PutBack(h.mem, ctx[j], Frame(h));
    var r := Trap(h, e.scause, e.handled, e.outcome).value;
    assert Next(IpcAbi(), w, Meaning(Trapped(e))) == w;
    SavedIsThere(r.mem, ctx[j], w.threads[j]);
  }

  lemma SavedIsThere(mem: seq<U64>, at: U64, t: Thread)
    requires Room(mem, at, 40)
    ensures Resumable(mem, at, t) ==> Words(mem, at, 31) == t.saved
  {
  }

  /** Two threads, the running one with its stack pointer in the other's context: a tick
      leaves the other with its registers. */
  lemma HarmfulStack() returns (h: Hart, ctx: seq<U64>, w: World)
    ensures Represents(h, ctx, w)
    ensures var r := Trap(h, BareTick(h.x).scause, BareTick(h.x).handled, BareTick(h.x).outcome);
      r.Some? && !Represents(r.value, ctx, Next(IpcAbi(), w, Meaning(Trapped(BareTick(h.x)))))
  {
    var x: Regs := Zeros(31)[SP - 1 := 568];
    h := Hart(x, 0, 0, 0, 0, true, Zeros(80));
    ctx := [0, 320];
    var t := Thread(x, 0, 0, Zeros(31), true);
    w := World([t, t.(x := Zeros(31))], 0);
    ZerosResume(h.mem, 0, w.threads[0]);
    ZerosResume(h.mem, 320, w.threads[1]);
    assert h.x[SP - 1 := 320][SP - 1] == 320 && w.threads[1].saved[SP - 1] == 0;
    StackInContext(h, ctx, w, 1, h.x);
  }

  lemma ZerosResume(mem: seq<U64>, at: U64, t: Thread)
    requires mem == Zeros(80) && (at == 0 || at == 320) && t.saved == Zeros(31) && t.pc == 0 && t.space == 0
    ensures Room(mem, at, 40) && Resumable(mem, at, t)
  {
  }
}
