/** `hal_arm64_wfi` and the nested IRQs it lets in (hal/hal-arm64/src/cpu.rs): every
    call returns to its caller once, and never blocks after it has been served. */
module Wfi {
  import opened Bits
  import opened Threads
  import opened WordMemory
  import opened Aarch64Trap

  // ---------------------------------------------------------------------------
  // The EL1 IRQ trampoline
  // ---------------------------------------------------------------------------

  /** stp xa, xb, [sp, #-16]! */
  function Push(h: Core, a: Reg, b: Reg): Core {
    var sp := Plus(h.sp, -16);
    h.(sp := sp, mem := Store(Store(h.mem, sp, h.x[a]), sp + 8, h.x[b]))
  }

  /** ldp xa, xb, [sp], #16 */
  function Pop(h: Core, a: Reg, b: Reg): Core {
    h.(sp := Plus(h.sp, 16), x := h.x[a := Load(h.mem, h.sp)][b := Load(h.mem, h.sp + 8)])
  }

  /** x(2k-1), x(2k) first, x1, x2 last. */
  function Pushes(h: Core, k: nat): (g: Core)
    requires k <= 15
    ensures |g.mem| == |h.mem|
    decreases k
  {
    if k == 0 then h else Pushes(Push(h, 2 * k - 1, 2 * k), k - 1)
  }

  function Pops(h: Core, k: nat): Core
    requires k <= 15
  {
    if k == 0 then h else Pop(Pops(h, k - 1), 2 * k - 1, 2 * k)
  }

  /** `irq_exception_entry` up to the call, and from its return on. */
  function IrqEntry(h: Core): (e: Core)
    ensures |e.mem| == |h.mem|
  {
    var g := Pushes(h, |h.x| / 2);
    var sp := Plus(g.sp, -16);
    g.(sp := sp, mem := Store(g.mem, sp, g.x[0]))
  }

  function IrqExit(h: Core): Core {
    Pops(h.(sp := Plus(h.sp, 16), x := h.x[0 := Load(h.mem, h.sp)]), |h.x| / 2)
  }

  /** Room for `n` bytes below SP_EL1. */
  predicate Below(h: Core, n: nat) {
    n <= h.sp && h.sp % 16 == 0 && h.sp / 8 <= |h.mem|
  }

  lemma PutBelow(m: seq<U64>, addr: nat, a: seq<U64>, addr': nat, b: seq<U64>)
    requires Room(m, addr, |a| + |b|) && addr' == addr + 8 * |a|
    ensures Put(Put(m, addr', b), addr, a) == Put(m, addr, a + b)
  {
    assert addr' / 8 == addr / 8 + |a|;
  }

  /** The address 16 `k` bytes below SP_EL1. */
  function Lower(h: Core, k: nat): (a: nat)
    requires k <= 16 && Below(h, 16 * k)
    ensures a == h.sp - 16 * k && a % 16 == 0 && Room(h.mem, a, 2 * k) && a / 8 == h.sp / 8 - 2 * k
  {
    LowerAddress(h.sp, k);
    h.sp - 16 * k
  }

  lemma LowerAddress(sp: nat, k: nat)
    requires sp % 16 == 0 && 16 * k <= sp
    ensures (sp - 16 * k) % 16 == 0 && (sp - 16 * k) % 8 == 0 && (sp - 16 * k) / 8 == sp / 8 - 2 * k
  {
    var q := sp / 16;
    assert sp - 16 * k == 16 * (q - k) == 8 * (2 * (q - k));
  }

  lemma PushEffect(h: Core, a: Reg, b: Reg)
    requires Below(h, 16)
    ensures Push(h, a, b) == h.(sp := Lower(h, 1), mem := Put(h.mem, Lower(h, 1), [h.x[a], h.x[b]]))
  {
    TwoStores(h.mem, Lower(h, 1), h.x[a], h.x[b]);
  }

  lemma TwoStores(mem: seq<U64>, addr: nat, a: U64, b: U64)
    requires Room(mem, addr, 2)
    ensures Store(Store(mem, addr, a), addr + 8, b) == Put(mem, addr, [a, b])
  {
    assert (addr + 8) / 8 == addr / 8 + 1;
  }

  /** One push, seen from the pushes still to come. */
  lemma PushStep(h: Core, k: nat)
    requires 0 < k <= 15 && Below(h, 16 * k)
    ensures Below(h, 16)
    ensures var p := Push(h, 2 * k - 1, 2 * k);
            && Below(p, 16 * (k - 1)) && Lower(p, k - 1) == Lower(h, k) && p.x == h.x
            && p == h.(sp := Lower(h, 1), mem := Put(h.mem, Lower(h, 1), [h.x[2 * k - 1], h.x[2 * k]]))
  {
    hide Put, Push, Room;
    PushEffect(h, 2 * k - 1, 2 * k);
    assert Lower(h, 1) / 8 == h.sp / 8 - 2;
  }

  /** The pushes lay x1..x2k out in order. */
  lemma {:induction false} PushesEffect(h: Core, k: nat)
    requires k <= 15 && Below(h, 16 * k)
    ensures Pushes(h, k) == h.(sp := Lower(h, k), mem := Put(h.mem, Lower(h, k), h.x[1..2 * k + 1]))
    decreases k
  {
    hide Put, Push;
    if k == 0 {
      PutNothing(h.mem, h.sp, h.x[1..1]);
    } else {
      hide Room, Below, Lower;
      var p := Push(h, 2 * k - 1, 2 * k);
      PushStep(h, k);
      PushesEffect(p, k - 1);
      PutBelow(h.mem, Lower(h, k), h.x[1..2 * k - 1], Lower(h, 1), [h.x[2 * k - 1], h.x[2 * k]]);
      assert h.x[1..2 * k - 1] + [h.x[2 * k - 1], h.x[2 * k]] == h.x[1..2 * k + 1];
    }
  }

  /** x1..x2k from `w`. */
  function Restored(x: Regs, w: seq<U64>, k: nat): (z: Regs)
    requires k <= 15 && |w| == 30
  {
    x[..1] + w[..2 * k] + x[2 * k + 1..]
  }

  lemma RestoredTwo(x: Regs, w: seq<U64>, k: nat)
    requires 0 < k <= 15 && |w| == 30
    ensures Restored(x, w, k - 1)[2 * k - 1 := w[2 * k - 2]][2 * k := w[2 * k - 1]] == Restored(x, w, k)
  {
  }

  lemma PairWords(mem: seq<U64>, addr: nat, k: nat)
    requires Room(mem, addr, 30) && 0 < k <= 15
    ensures Load(mem, addr + 16 * (k - 1)) == Words(mem, addr, 30)[2 * k - 2]
    ensures Load(mem, addr + 16 * (k - 1) + 8) == Words(mem, addr, 30)[2 * k - 1]
  {
    assert (addr + 16 * (k - 1)) / 8 == addr / 8 + 2 * k - 2 && (addr + 16 * (k - 1) + 8) / 8 == addr / 8 + 2 * k - 1;
  }

  lemma {:induction false} PopsEffect(h: Core, k: nat)
    requires k <= 15 && h.sp + 240 < TWO64 && Room(h.mem, h.sp, 30)
    ensures Pops(h, k) == h.(sp := h.sp + 16 * k, x := Restored(h.x, Words(h.mem, h.sp, 30), k))
  {
    hide Load, Words, Room, Restored;
    var w := Words(h.mem, h.sp, 30);
    if k > 0 {
      PopsEffect(h, k - 1);
      PairWords(h.mem, h.sp, k);
      RestoredTwo(h.x, w, k);
    } else {
      NothingRestored(h.x, w);
    }
  }

  lemma NothingRestored(x: Regs, w: seq<U64>)
    requires |w| == 30
    ensures Restored(x, w, 0) == x
  {
  }

  lemma EntryMemory(h: Core)
    requires Below(h, 256)
    ensures IrqEntry(h) == h.(sp := Lower(h, 16),
                              mem := Put(Put(h.mem, Lower(h, 15), h.x[1..31]), Lower(h, 16), [h.x[0]]))
  {
    hide Pushes;
    PushesEffect(h, |h.x| / 2);
    assert |h.x| / 2 == 15;
    OneStore(Put(h.mem, Lower(h, 15), h.x[1..31]), Lower(h, 16), h.x[0]);
  }

  lemma OneStore(mem: seq<U64>, addr: nat, v: U64)
    requires Room(mem, addr, 1)
    ensures Store(mem, addr, v) == Put(mem, addr, [v])
  {
  }

  /** The saved registers, and what lies above them. */
  lemma EntryWords(h: Core)
    requires Below(h, 256)
    ensures var e := IrqEntry(h);
      && e.sp == Lower(h, 16) && |e.mem| == |h.mem|
      && Words(e.mem, Lower(h, 16), 1) == [h.x[0]] && Words(e.mem, Lower(h, 15), 30) == h.x[1..31]
      && forall k | h.sp / 8 <= k < |h.mem| :: e.mem[k] == h.mem[k]
  {
    hide IrqEntry;
    EntryMemory(h);
    var m := Put(h.mem, Lower(h, 15), h.x[1..31]);
    PutBack(h.mem, Lower(h, 15), h.x[1..31]);
    PutBack(m, Lower(h, 16), [h.x[0]]);
    SameWords(m, Lower(h, 16), [h.x[0]], Lower(h, 15), 30);
  }

  /** The trampoline restores x0..x30 and SP_EL1 if the handler keeps the frame. */
  lemma IrqBalanced(h: Core, g: Core)
    requires Below(h, 256) && g.sp == IrqEntry(h).sp && FrameKept(h, g)
    ensures IrqExit(g) == g.(sp := h.sp, x := h.x)
  {
    hide Pops, IrqEntry, Words, Put, Restored;
    EntryWords(h);
    var g1 := g.(sp := Plus(g.sp, 16), x := g.x[0 := Load(g.mem, g.sp)]);
    assert g1.sp == Lower(h, 15);
    PopsEffect(g1, |g1.x| / 2);
    assert |g1.x| / 2 == 15;
    FirstWord(g.mem, g.sp);
    AllRestored(g.x, h.x);
  }

  /** The handler leaves the saved words alone. */
  ghost predicate FrameKept(h: Core, g: Core)
    requires Below(h, 256)
  {
    && |g.mem| == |h.mem|
    && Words(g.mem, Lower(h, 16), 1) == Words(IrqEntry(h).mem, Lower(h, 16), 1)
    && Words(g.mem, Lower(h, 15), 30) == Words(IrqEntry(h).mem, Lower(h, 15), 30)
  }

  lemma FirstWord(mem: seq<U64>, addr: nat)
    requires Room(mem, addr, 1)
    ensures Load(mem, addr) == Words(mem, addr, 1)[0]
  {
  }

  lemma AllRestored(y: Regs, x: Regs)
    ensures Restored(y[0 := x[0]], x[1..31], 15) == x
  {
  }

  // ---------------------------------------------------------------------------
  // The call
  // ---------------------------------------------------------------------------

  /** The instructions of `hal_arm64_wfi`, and being back in the caller. */
  datatype Place = Entry | Retry | At | Done | Reload | Ret | Back

  /** What is left to do. */
  function Rank(p: Place): nat {
    match p
    case Entry => 6
    case Retry => 5
    case At => 4
    case Done => 3
    case Reload => 2
    case Ret => 1
    case Back => 0
  }

  /** `masked` is DAIF.I; `pending` IRQs wait at the interrupt controller and at most
      `coming` more will; `served` says that one was taken during the call; `link` is
      where the caller continues. */
  datatype Call = Call(core: Core, place: Place, masked: bool, pending: nat, coming: nat, served: bool, link: U64)

  /** The core runs on, a waiting `wfi` completes of itself, a device raises an IRQ, or an
      IRQ is taken with the return address `reported` and the handler leaves the core as
      `left`. */
  datatype Action = Proceed | Wake | Raise | Interrupt(reported: Place, left: Core)

  /** The core runs on unless it waits; `wfi` being a hint, the wait may end by itself,
      but need not. An IRQ is taken only unmasked, between `daifclr` and `daifset`; the
      address reported may be that of any instruction from Retry through At, or of Done. */
  ghost predicate Enabled(s: Call, a: Action) {
    match a
    case Proceed => s.place != Back && !Blocked(s)
    case Wake => Blocked(s)
    case Raise => s.coming > 0
    case Interrupt(reported, left) =>
      && !s.masked && s.pending > 0 && (reported.Retry? || reported.At? || reported.Done?)
      && Below(s.core, 256) && left.sp == IrqEntry(s.core).sp && FrameKept(s.core, left)
      && Load(left.mem, s.core.sp) == Load(s.core.mem, s.core.sp)
  }

  /** The core waits in `wfi` while nothing is pending. */
  predicate Blocked(s: Call) {
    s.place == At && s.pending == 0
  }

  /** `redirect` is what `common_interrupt_entry` does to an ELR from Retry through At. */
  function Step(s: Call, a: Action, redirect: bool): Call {
    match a
    case Raise => if s.coming > 0 then s.(coming := s.coming - 1, pending := s.pending + 1) else s
    case Interrupt(reported, left) =>
      if s.pending > 0 then
        s.(core := IrqExit(left), place := if redirect && !reported.Done? then Done else reported,
           pending := s.pending - 1, served := true)
      else s
    case Wake => s.(place := Done)
    case Proceed =>
      match s.place
      case Entry => s.(core := s.core.(sp := Plus(s.core.sp, -16), mem := Store(s.core.mem, Plus(s.core.sp, -16), s.core.x[X30])),
                       place := Retry)
      case Retry => s.(masked := false, place := At)
      case At => s.(place := Done)
      case Done => s.(masked := true, place := Reload)
      case Reload => s.(core := s.core.(x := s.core.x[X30 := Load(s.core.mem, s.core.sp)], sp := Plus(s.core.sp, 16)), place := Ret)
      case Ret => s.(place := Back, link := s.core.x[X30])
      case Back => s
  }

  /** A call as the caller makes it. */
  predicate Called(s: Call) {
    s.place == Entry && s.masked && !s.served && s.core.sp % 16 == 0 && 272 <= s.core.sp && s.core.sp / 8 <= |s.core.mem|
  }

  /** What holds at every point of the call `c`. */
  ghost predicate During(c: Call, s: Call) {
    && |s.core.mem| == |c.core.mem|
    && s.core.x == c.core.x
    && s.core.sp == (if s.place.Retry? || s.place.At? || s.place.Done? || s.place.Reload? then c.core.sp - 16 else c.core.sp)
    && (s.place.Retry? || s.place.At? || s.place.Done? || s.place.Reload? ==>
          Load(s.core.mem, c.core.sp - 16) == c.core.x[X30])
    && (s.masked <==> !(s.place.At? || s.place.Done?))
    && (s.served ==> Rank(s.place) <= 3)
    && (s.place.Back? ==> s.link == c.core.x[X30])
    && (!s.served ==> s.pending + s.coming == c.pending + c.coming)
  }

  lemma Proceeds(c: Call, s: Call)
    requires Called(c) && During(c, s) && Enabled(s, Proceed)
    ensures During(c, Step(s, Proceed, true))
  {
    hide Load, Store;
    StoredThere(s.core.mem, c.core.sp - 16, c.core.x[X30]);
    SameRegister(c.core.x, X30, c.core.x[X30]);
  }

  lemma SameRegister(x: Regs, i: nat, v: U64)
    requires i < 31 && v == x[i]
    ensures x[i := v] == x
  {
  }

  lemma StoredThere(mem: seq<U64>, addr: nat, v: U64)
    requires Room(mem, addr, 1)
    ensures Load(Store(mem, addr, v), addr) == v
  {
  }

  lemma Interrupts(c: Call, s: Call, a: Action)
    requires Called(c) && During(c, s) && Enabled(s, a) && a.Interrupt?
    ensures During(c, Step(s, a, true))
  {
    hide Load, IrqEntry, IrqExit, FrameKept;
    IrqBalanced(s.core, a.left);
    FrameLength(s.core, a.left);
  }

  lemma FrameLength(h: Core, g: Core)
    requires Below(h, 256) && FrameKept(h, g)
    ensures |g.mem| == |h.mem|
  {
  }

  lemma DuringKept(c: Call, s: Call, a: Action)
    requires Called(c) && During(c, s) && Enabled(s, a)
    ensures During(c, Step(s, a, true))
  {
    hide Load, IrqEntry, IrqExit, Store, FrameKept;
    match a
    case Proceed => Proceeds(c, s);
    case Wake =>
    case Raise =>
    case Interrupt(_, _) => Interrupts(c, s, a);
  }

  /** Interrupts to come weigh two, waiting ones one. */
  function Weight(s: Call): nat {
    2 * s.coming + s.pending
  }

  /** Every step makes progress: fewer interrupts outstanding, or fewer instructions left. */
  lemma EveryStepProgresses(c: Call, s: Call, a: Action)
    requires Called(c) && During(c, s) && Enabled(s, a)
    ensures var t := Step(s, a, true);
      Weight(t) < Weight(s) || (Weight(t) == Weight(s) && Rank(t.place) < Rank(s.place))
  {
  }

  function Run(s: Call, actions: seq<Action>, redirect: bool): Call {
    if actions == [] then s
    else Step(Run(s, actions[..|actions| - 1], redirect), actions[|actions| - 1], redirect)
  }

  ghost predicate Possible(s: Call, actions: seq<Action>, redirect: bool) {
    forall k | 0 <= k < |actions| :: Enabled(Run(s, actions[..k], redirect), actions[k])
  }

  lemma {:induction false} RunKept(c: Call, actions: seq<Action>)
    requires Called(c) && Possible(c, actions, true)
    ensures During(c, Run(c, actions, true))
    decreases |actions|
  {
    hide During, Step, Enabled, Called;
    if actions == [] {
      Starts(c);
    } else {
      var n := |actions| - 1;
      assert forall k | 0 <= k < n :: actions[..n][..k] == actions[..k] && actions[..n][k] == actions[k];
      RunKept(c, actions[..n]);
      assert actions[..n + 1] == actions;
      DuringKept(c, Run(c, actions[..n], true), actions[n]);
    }
  }

  lemma Starts(c: Call)
    requires Called(c)
    ensures During(c, c)
  {
  }

  /** Under every interleaving of nested IRQs: a call that is back came back to its
      caller with SP_EL1, x0..x30 and the mask as they were; one that has been served
      is past the `wfi` for good; one that waits has not been served, so a served call
      that is not yet back can run on, and waiting unserved is the only way not to. */
  lemma {:induction false} WfiReturnsOnce(c: Call, actions: seq<Action>)
    requires Called(c) && Possible(c, actions, true)
    ensures var s := Run(c, actions, true);
      && (s.place.Back? ==> s.link == c.core.x[X30] && s.core.sp == c.core.sp && s.core.x == c.core.x && s.masked)
      && (s.served ==> Rank(s.place) <= Rank(Done))
      && (Blocked(s) ==> !s.served)
      && (s.served && !s.place.Back? ==> Enabled(s, Proceed))
      && (!Enabled(s, Proceed) <==> s.place.Back? || (Blocked(s) && !s.served))
  {
    hide Run, Possible, IrqEntry, IrqExit, Load;
    RunKept(c, actions);
  }

  /** The IRQs raised in the course of a run. */
  function Raises(actions: seq<Action>): nat {
    if actions == [] then 0
    else Raises(actions[..|actions| - 1]) + (if actions[|actions| - 1].Raise? then 1 else 0)
  }

  lemma {:induction false} RaisesCome(c: Call, actions: seq<Action>)
    requires Possible(c, actions, true)
    ensures Run(c, actions, true).coming + Raises(actions) == c.coming
    decreases |actions|
  {
    hide Step, Enabled;
    if actions != [] {
      var n := |actions| - 1;
      assert forall k | 0 <= k < n :: actions[..n][..k] == actions[..k] && actions[..n][k] == actions[k];
      RaisesCome(c, actions[..n]);
      RaiseComes(Run(c, actions[..n], true), actions[n]);
    }
  }

  lemma RaiseComes(s: Call, a: Action)
    requires Enabled(s, a)
    ensures Step(s, a, true).coming + (if a.Raise? then 1 else 0) == s.coming
  {
    hide IrqExit, IrqEntry, FrameKept, Load, Store;
  }

  /** A call that was served, or that found an IRQ pending, or in whose course one was
      raised, comes back: where it cannot run on, it is in its caller, once, and it
      cannot run on for ever. A call that cannot run on without any of these waits for
      its first IRQ. */
  lemma {:induction false} WfiReturns(c: Call, actions: seq<Action>)
    requires Called(c) && Possible(c, actions, true) && !Enabled(Run(c, actions, true), Proceed)
    ensures var s := Run(c, actions, true);
      && (s.place.Back? || (Blocked(s) && !s.served && c.pending + Raises(actions) == 0))
      && (s.served || c.pending + Raises(actions) > 0 ==>
            s.place.Back? && s.link == c.core.x[X30] && s.core.sp == c.core.sp && s.core.x == c.core.x && s.masked)
      && |actions| <= 7 * Weight(c) + 6
  {
    hide Run, Possible, IrqEntry, IrqExit, Load, FrameKept;
    RunKept(c, actions);
    RaisesCome(c, actions);
    WfiTerminates(c, actions);
  }

  /** No run of a call is longer than the interrupts and instructions allow. */
  lemma {:induction false} WfiTerminates(c: Call, actions: seq<Action>)
    requires Called(c) && Possible(c, actions, true)
    ensures |actions| + 7 * Weight(Run(c, actions, true)) + Rank(Run(c, actions, true).place) <= 7 * Weight(c) + 6
    decreases |actions|
  {
    hide Called, Enabled, During, Step;
    if actions == [] {
      assert Rank(c.place) <= 6;
    } else {
      var n := |actions| - 1;
      assert forall k | 0 <= k < n :: actions[..n][..k] == actions[..k] && actions[..n][k] == actions[k];
      WfiTerminates(c, actions[..n]);
      RunKept(c, actions[..n]);
      assert Enabled(Run(c, actions[..n], true), actions[n]);
      EveryStepProgresses(c, Run(c, actions[..n], true), actions[n]);
      assert Rank(Run(c, actions, true).place) <= 6;
    }
  }

  /** Without the redirect, the same call can wait again for an IRQ that was served, and
      cannot run on. */
  lemma WithoutRedirectBlocks(c: Call) returns (actions: seq<Action>)
    requires Called(c) && c.pending == 1
    ensures Possible(c, actions, false)
    ensures var s := Run(c, actions, false);
      s.served && Blocked(s) && !Enabled(s, Proceed)
  {
    hide Store, IrqEntry, IrqExit, Load, FrameKept, Run, Possible;
    var s2 := Step(Step(c, Proceed, false), Proceed, false);
    var take := Interrupt(At, IrqEntry(s2.core));
    TakenAtWfi(s2);
    RunThree(c, Proceed, Proceed, take, false);
    actions := [Proceed, Proceed, take];
  }

  /** At the `wfi`, a waiting IRQ can be taken with that address reported. */
  lemma TakenAtWfi(s: Call)
    requires s.place == At && !s.masked && s.pending > 0 && Below(s.core, 256) && s.core.sp / 8 < |s.core.mem|
    ensures Enabled(s, Interrupt(At, IrqEntry(s.core)))
  {
    hide IrqEntry;
    EntryWords(s.core);
  }

  lemma RunThree(c: Call, a: Action, b: Action, d: Action, redirect: bool)
    ensures Run(c, [a, b, d], redirect) == Step(Step(Step(c, a, redirect), b, redirect), d, redirect)
    ensures Enabled(c, a) && Enabled(Step(c, a, redirect), b) && Enabled(Step(Step(c, a, redirect), b, redirect), d)
      ==> Possible(c, [a, b, d], redirect)
  {
    hide Step, Enabled;
    var all := [a, b, d];
    assert all[..0] == [] && all[..1] == [a] && all[..2] == [a, b] && [a, b][..1] == [a] && [a][..0] == [];
    assert Run(c, [a], redirect) == Step(c, a, redirect);
    assert Run(c, [a, b], redirect) == Step(Step(c, a, redirect), b, redirect);
  }
}
