/** Exceptions from EL0 on AArch64: the EL0 trampolines, the common entry functions
    and the context save/restore code of hal/hal-arm64/src/cpu.rs, run instruction by
    instruction on one core. */
module Aarch64Trap {
  import opened Bits
  import opened Options
  import opened Threads
  import opened WordMemory

  type Reg = r: nat | r <= 30

  const X9: Reg := 9
  const X30: Reg := 30

  /** x0..x30, SP_EL1 (`sp`), SP_EL0, the exception registers, and memory by words.
      `top` is `__boot_stack_top`. */
  datatype Core = Core(x: Regs, sp: U64, spEl0: U64, elr: U64, spsr: U64, ttbr0: U64, pc: U64, pstate: U64,
                       top: U64, mem: seq<U64>)

  /** PSTATE.M of an SPSR value: 0 is EL0t, 5 is EL1h. */
  predicate IsEl0(spsr: U64) {
    spsr % 16 == 0
  }

  predicate IsEl1(spsr: U64) {
    spsr % 16 == 5
  }

  /** PSTATE in an exception handler: EL1h with D, A, I and F masked. */
  const EL1H_MASKED: U64 := 0x3C5

  datatype Base = Sp | Ctx

  datatype Sys = SpEl0 | Elr | Spsr | Ttbr0

  /** Offsets are from SP_EL1 (`Sp`) or from the context in x30 (`Ctx`). */
  datatype Instr =
    | AddSp(imm: int)
    | Stp(a: Reg, b: Reg, off: nat)
    | Str(src: Reg, off: nat)
    | Ldp(a: Reg, b: Reg, base: Base, off: nat)
    | Ldr(dst: Reg, base: Base, off: nat)
    | Zero(reg: Reg)
    | Msr(sys: Sys, from: Reg)
    | StackTop(dst: Reg)
    | MovSp(from: Reg)

  function At(h: Core, base: Base): U64 {
    if base.Sp? then h.sp else h.x[X30]
  }

  function SetSys(h: Core, sys: Sys, v: U64): Core {
    match sys
    case SpEl0 => h.(spEl0 := v)
    case Elr => h.(elr := v)
    case Spsr => h.(spsr := v)
    case Ttbr0 => h.(ttbr0 := v)
  }

  function Step(h: Core, i: Instr): Core {
    match i
    case AddSp(imm) => h.(sp := Plus(h.sp, imm))
    case Stp(a, b, off) => h.(mem := Store(Store(h.mem, h.sp + off, h.x[a]), h.sp + off + 8, h.x[b]))
    case Str(src, off) => h.(mem := Store(h.mem, h.sp + off, h.x[src]))
    case Ldp(a, b, base, off) =>
      h.(x := h.x[a := Load(h.mem, At(h, base) + off)][b := Load(h.mem, At(h, base) + off + 8)])
    case Ldr(dst, base, off) => h.(x := h.x[dst := Load(h.mem, At(h, base) + off)])
    case Zero(reg) => h.(x := h.x[reg := 0])
    case Msr(sys, from) => SetSys(h, sys, h.x[from])
    case StackTop(dst) => h.(x := h.x[dst := h.top])
    case MovSp(from) => h.(sp := h.x[from])
  }

  function Exec(h: Core, code: seq<Instr>): Core {
    if code == [] then h else Step(Exec(h, code[..|code| - 1]), code[|code| - 1])
  }

  lemma {:induction false} ExecTwo(h: Core, a: seq<Instr>, b: seq<Instr>)
    ensures Exec(h, a + b) == Exec(Exec(h, a), b)
    decreases |b|
  {
    if b == [] {
      assert a + b == a;
    } else {
      assert (a + b)[..|a + b| - 1] == a + b[..|b| - 1];
      ExecTwo(h, a, b[..|b| - 1]);
    }
  }

  lemma ExecLast(h: Core, code: seq<Instr>, i: Instr)
    ensures Exec(h, code + [i]) == Step(Exec(h, code), i)
  {
    assert (code + [i])[..|code|] == code;
  }

  lemma OneInstr(h: Core, i: Instr)
    ensures Exec(h, [i]) == Step(h, i)
  {
    assert [i][..0] == [];
  }

  function Eret(h: Core): Core {
    h.(pc := h.elr, pstate := h.spsr)
  }

  // ---------------------------------------------------------------------------
  // The assembly
  // ---------------------------------------------------------------------------

  /** stp x0, x1 at 0, x2, x3 at 16, .. of sp. */
  function PairStores(k: nat): seq<Instr>
    requires k <= 15
  {
    if k == 0 then [] else PairStores(k - 1) + [Stp(2 * k - 2, 2 * k - 1, 16 * (k - 1))]
  }

  /** ldp from the same places, off sp or a context. */
  function PairLoads(base: Base, k: nat): seq<Instr>
    requires k <= 15
  {
    if k == 0 then [] else PairLoads(base, k - 1) + [Ldp(2 * k - 2, 2 * k - 1, base, 16 * (k - 1))]
  }

  function EntryCode(): seq<Instr> {
    [AddSp(-256)] + PairStores(15) + [Str(30, 240)]
  }

  function ReturnCode(): seq<Instr> {
    PairLoads(Sp, 15) + [Ldr(30, Sp, 240)] + [AddSp(256)]
  }

  /** ldr x9 from the context; msr it. */
  function SysLoad(sys: Sys, off: nat): seq<Instr> {
    [Ldr(X9, Ctx, off)] + [Msr(sys, X9)]
  }

  /** The system registers and the stack reset both restores start with. */
  function SysLoads(): seq<Instr> {
    (SysLoad(SpEl0, 248) + SysLoad(Elr, 256)) + (SysLoad(Spsr, 264) + SysLoad(Ttbr0, 272)) + ([StackTop(X9)] + [MovSp(X9)])
  }

  function RestoreCode(): seq<Instr> {
    SysLoads() + (PairLoads(Ctx, 15) + [Ldr(30, Ctx, 240)])
  }

  /** mov x2, xzr .. mov x18, xzr. */
  function Zeroing(k: nat): seq<Instr>
    requires k <= 17
  {
    if k == 0 then [] else Zeroing(k - 1) + [Zero(k + 1)]
  }

  /** ldp x19, x20 at 152 .. ldp x27, x28 at 216. */
  function CalleePairs(k: nat): seq<Instr>
    requires k <= 5
  {
    if k == 0 then [] else CalleePairs(k - 1) + [Ldp(17 + 2 * k, 18 + 2 * k, Ctx, 136 + 16 * k)]
  }

  function FastRestoreCode(): seq<Instr> {
    SysLoads() + ([Ldp(0, 1, Ctx, 0)] + Zeroing(17) + CalleePairs(5) + [Ldr(29, Ctx, 232)] + [Ldr(30, Ctx, 240)])
  }

  // ---------------------------------------------------------------------------
  // What the assembly does
  // ---------------------------------------------------------------------------

  lemma Slot(mem: seq<U64>, addr: nat, i: nat, off: nat)
    requires Room(mem, addr, 31) && i < 31 && off == 8 * i
    ensures Load(mem, addr + off) == Words(mem, addr, 31)[i]
  {
    SlotWord(mem, addr, i + 1);
  }

  lemma PutTwoMore(mem: seq<U64>, addr: nat, x: Regs, k: nat)
    requires k + 2 <= 31 && Room(mem, addr, 31)
    ensures Store(Store(Put(mem, addr, x[..k]), addr + 8 * k, x[k]), addr + 8 * k + 8, x[k + 1]) == Put(mem, addr, x[..k + 2])
  {
    assert (addr + 8 * k) / 8 == addr / 8 + k && (addr + 8 * k + 8) / 8 == addr / 8 + k + 1;
  }

  /** One store of two registers. */
  lemma StoreTwo(h: Core, k: nat)
    requires 0 < k <= 15 && Room(h.mem, h.sp, 31)
    ensures Step(h.(mem := Put(h.mem, h.sp, h.x[..2 * k - 2])), Stp(2 * k - 2, 2 * k - 1, 16 * (k - 1)))
      == h.(mem := Put(h.mem, h.sp, h.x[..2 * k]))
  {
    hide Put, Store;
    PutTwoMore(h.mem, h.sp, h.x, 2 * k - 2);
  }

  lemma {:induction false} PairStoresEffect(h: Core, k: nat)
    requires k <= 15 && Room(h.mem, h.sp, 31)
    ensures Exec(h, PairStores(k)) == h.(mem := Put(h.mem, h.sp, h.x[..2 * k]))
  {
    hide Put, Exec, Step;
    if k == 0 {
      NoCode(h);
      PutNothing(h.mem, h.sp, h.x[..0]);
    } else {
      PairStoresEffect(h, k - 1);
      ExecLast(h, PairStores(k - 1), Stp(2 * k - 2, 2 * k - 1, 16 * (k - 1)));
      StoreTwo(h, k);
    }
  }

  lemma PutNothing(mem: seq<U64>, addr: nat, w: seq<U64>)
    requires w == [] && Room(mem, addr, 0)
    ensures Put(mem, addr, w) == mem
  {
  }

  /** Two more registers of `w`. */
  lemma UptoTwo(w: Regs, x: Regs, k: nat)
    requires k + 2 <= 31
    ensures Upto(w, x, k)[k := w[k]][k + 1 := w[k + 1]] == Upto(w, x, k + 2)
  {
  }

  /** One load of two registers. */
  lemma LoadTwo(h: Core, base: Base, k: nat)
    requires 0 < k <= 15 && Room(h.mem, At(h, base), 31)
    ensures var w := Words(h.mem, At(h, base), 31);
      Step(h.(x := Upto(w, h.x, 2 * k - 2)), Ldp(2 * k - 2, 2 * k - 1, base, 16 * (k - 1))) == h.(x := Upto(w, h.x, 2 * k))
  {
    hide Upto, Words, Room, Load;
    var w := Words(h.mem, At(h, base), 31);
    Slot(h.mem, At(h, base), 2 * k - 2, 16 * (k - 1));
    Slot(h.mem, At(h, base), 2 * k - 1, 16 * (k - 1) + 8);
    UptoTwo(w, h.x, 2 * k - 2);
  }

  lemma {:induction false} PairLoadsEffect(h: Core, base: Base, k: nat)
    requires k <= 15 && Room(h.mem, At(h, base), 31)
    ensures Exec(h, PairLoads(base, k)) == h.(x := Upto(Words(h.mem, At(h, base), 31), h.x, 2 * k))
  {
    hide Upto, Words, Room, Exec, Step, At;
    if k == 0 {
      UptoEnds(Words(h.mem, At(h, base), 31), h.x);
      NoCode(h);
    } else {
      PairLoadsEffect(h, base, k - 1);
      ExecLast(h, PairLoads(base, k - 1), Ldp(2 * k - 2, 2 * k - 1, base, 16 * (k - 1)));
      LoadTwo(h, base, k);
    }
  }

  lemma NoCode(h: Core)
    ensures Exec(h, []) == h
  {
  }

  /** All 31 registers, the last one on its own. */
  lemma AllLoadsEffect(h: Core, base: Base)
    requires Room(h.mem, At(h, base), 31)
    ensures Exec(h, PairLoads(base, 15) + [Ldr(30, base, 240)]) == h.(x := Words(h.mem, At(h, base), 31))
  {
    hide Upto, Words, Room, Load, Exec, PairLoads;
    var w := Words(h.mem, At(h, base), 31);
    PairLoadsEffect(h, base, 15);
    ExecLast(h, PairLoads(base, 15), Ldr(30, base, 240));
    Slot(h.mem, At(h, base), 30, 240);
    UptoNext(w, h.x, 31);
    UptoEnds(w, h.x);
  }

  /** SP_EL1 leaves room for a frame below it. */
  predicate StackReady(h: Core) {
    256 <= h.sp && h.sp % 8 == 0 && h.sp / 8 <= |h.mem|
  }

  lemma EntryEffect(h: Core)
    requires StackReady(h)
    ensures var f := h.sp - 256;
      Room(h.mem, f, 31) && Exec(h, EntryCode()) == h.(sp := f, mem := Put(h.mem, f, h.x))
  {
    hide PairStores, Put, Exec;
    var f := h.sp - 256;
    var h1 := h.(sp := f);
    OneInstr(h, AddSp(-256));
    ExecTwo(h, [AddSp(-256)], PairStores(15));
    PairStoresEffect(h1, 15);
    ExecLast(h, [AddSp(-256)] + PairStores(15), Str(30, 240));
    LastSlot(h.mem, f, h.x);
  }

  lemma LastSlot(mem: seq<U64>, addr: nat, x: Regs)
    requires Room(mem, addr, 31)
    ensures Store(Put(mem, addr, x[..30]), addr + 240, x[30]) == Put(mem, addr, x)
  {
    assert (addr + 240) / 8 == addr / 8 + 30;
  }

  lemma ReturnEffect(h: Core)
    requires Room(h.mem, h.sp, 31)
    ensures Exec(h, ReturnCode()) == h.(x := Words(h.mem, h.sp, 31), sp := Plus(h.sp, 256))
  {
    hide PairLoads, Words, Exec;
    AllLoadsEffect(h, Sp);
    ExecLast(h, PairLoads(Sp, 15) + [Ldr(30, Sp, 240)], AddSp(256));
  }

  lemma SysWords(mem: seq<U64>, addr: nat)
    requires Room(mem, addr, 40)
    ensures var w := Words(mem, addr, 40);
      && Load(mem, addr + 248) == w[31] && Load(mem, addr + 256) == w[32]
      && Load(mem, addr + 264) == w[33] && Load(mem, addr + 272) == w[34]
  {
    assert (addr + 248) / 8 == addr / 8 + 31 && (addr + 256) / 8 == addr / 8 + 32;
    assert (addr + 264) / 8 == addr / 8 + 33 && (addr + 272) / 8 == addr / 8 + 34;
  }

  /** Each system register from its own slot, and SP_EL1 back at the stack top. */
  lemma SysLoadsEffect(h: Core)
    requires Room(h.mem, h.x[X30], 40)
    ensures var w, g := Words(h.mem, h.x[X30], 40), Exec(h, SysLoads());
      g == h.(x := g.x, spEl0 := w[31], elr := w[32], spsr := w[33], ttbr0 := w[34], sp := h.top) && g.x[X30] == h.x[X30]
  {
    hide Exec, Load, Room, Words, SysLoad, SetSys;
    SysWords(h.mem, h.x[X30]);
    var ab, cd := SysLoad(SpEl0, 248) + SysLoad(Elr, 256), SysLoad(Spsr, 264) + SysLoad(Ttbr0, 272);
    SysPair(h, SpEl0, 248, Elr, 256);
    SysPair(Exec(h, ab), Spsr, 264, Ttbr0, 272);
    ExecTwo(h, ab, cd);
    var at: nat := h.x[X30];
    SetFour(h, Load(h.mem, at + 248), Load(h.mem, at + 256), Load(h.mem, at + 264), Load(h.mem, at + 272),
            Exec(h, ab).x, Exec(h, ab + cd).x);
    var g := Exec(h, ab + cd);
    ExecTwo(h, ab + cd, [StackTop(X9)] + [MovSp(X9)]);
    OneInstr(g, StackTop(X9));
    ExecLast(g, [StackTop(X9)], MovSp(X9));
  }

  lemma SetFour(h: Core, a: U64, b: U64, c: U64, d: U64, x1: Regs, x2: Regs)
    ensures var g := SetSys(SetSys(h, SpEl0, a), Elr, b).(x := x1);
      SetSys(SetSys(g, Spsr, c), Ttbr0, d).(x := x2) == h.(spEl0 := a, elr := b, spsr := c, ttbr0 := d, x := x2)
      && g.mem == h.mem
  {
  }

  lemma SysPair(h: Core, s: Sys, off: nat, t: Sys, off': nat)
    ensures var g := Exec(h, SysLoad(s, off) + SysLoad(t, off'));
      && g == SetSys(SetSys(h, s, Load(h.mem, h.x[X30] + off)), t, Load(h.mem, h.x[X30] + off')).(x := g.x)
      && g.x[X30] == h.x[X30]
  {
    hide Exec, Load, SysLoad;
    SysLoadEffect(h, s, off);
    SysLoadEffect(Exec(h, SysLoad(s, off)), t, off');
    ExecTwo(h, SysLoad(s, off), SysLoad(t, off'));
  }

  lemma SysLoadEffect(h: Core, sys: Sys, off: nat)
    ensures var g := Exec(h, SysLoad(sys, off));
      g == SetSys(h, sys, Load(h.mem, h.x[X30] + off)).(x := g.x) && g.x[X30] == h.x[X30]
  {
    hide Exec, Load;
    OneInstr(h, Ldr(X9, Ctx, off));
    ExecLast(h, [Ldr(X9, Ctx, off)], Msr(sys, X9));
  }

  /** A core running from a restored context. */
  function Resumed(h: Core, x: Regs, w: seq<U64>): Core
    requires |w| == 40
  {
    h.(x := x, spEl0 := w[31], elr := w[32], spsr := w[33], ttbr0 := w[34], sp := h.top, pc := w[32], pstate := w[33])
  }

  lemma ContextRegs(mem: seq<U64>, addr: nat)
    requires Room(mem, addr, 40)
    ensures Room(mem, addr, 31) && Words(mem, addr, 31) == Words(mem, addr, 40)[..31]
  {
  }

  lemma RestoreEffect(h: Core)
    requires Room(h.mem, h.x[X30], 40)
    ensures var w := Words(h.mem, h.x[X30], 40);
      Eret(Exec(h, RestoreCode())) == Resumed(h, w[..31], w)
  {
    hide Exec, SysLoads, PairLoads, Words, Room;
    SysLoadsEffect(h);
    ExecTwo(h, SysLoads(), PairLoads(Ctx, 15) + [Ldr(30, Ctx, 240)]);
    ContextRegs(h.mem, h.x[X30]);
    AllLoadsEffect(Exec(h, SysLoads()), Ctx);
  }

  /** x0, x1, x19..x30, SP_EL0 (31) and PSTATE (32): what the IPC fast path keeps. */
  predicate Kept(i: nat) {
    i <= 1 || 19 <= i
  }

  function IpcAbi(): Abi {
    Abi((i: nat) => Kept(i), 0, 1)
  }

  /** The registers the fast restore leaves. */
  function FastRegs(w: Regs): (z: Regs)
    ensures forall i | 0 <= i < 31 :: z[i] == if Kept(i) then w[i] else 0
  {
    Merge(IpcAbi().kept, w, Zeros(31))
  }

  lemma {:induction false} ZeroingEffect(h: Core, z: Regs, x: Regs, k: nat)
    requires k <= 17 && h.x == Upto(z, x, 2) && forall i | 2 <= i < 19 :: z[i] == 0
    ensures Exec(h, Zeroing(k)) == h.(x := Upto(z, x, 2 + k))
  {
    hide Upto, Exec;
    if k == 0 {
      NoCode(h);
    } else {
      ZeroingEffect(h, z, x, k - 1);
      ExecLast(h, Zeroing(k - 1), Zero(k + 1));
      UptoNext(z, x, 2 + k);
    }
  }

  lemma {:induction false} CalleePairsEffect(h: Core, z: Regs, x: Regs, k: nat)
    requires k <= 5 && h.x == Upto(z, x, 19) && Room(h.mem, x[X30], 31)
    requires forall i | 19 <= i < 31 :: z[i] == Words(h.mem, x[X30], 31)[i]
    ensures Exec(h, CalleePairs(k)) == h.(x := Upto(z, x, 19 + 2 * k))
  {
    hide Upto, Exec, Words, Room, Load;
    if k == 0 {
      NoCode(h);
    } else {
      CalleePairsEffect(h, z, x, k - 1);
      ExecLast(h, CalleePairs(k - 1), Ldp(17 + 2 * k, 18 + 2 * k, Ctx, 136 + 16 * k));
      Slot(h.mem, x[X30], 17 + 2 * k, 136 + 16 * k);
      Slot(h.mem, x[X30], 18 + 2 * k, 136 + 16 * k + 8);
      UptoTwo(z, x, 17 + 2 * k);
    }
  }

  lemma FastLoadsEffect(h: Core)
    requires Room(h.mem, h.x[X30], 31)
    ensures Exec(h, [Ldp(0, 1, Ctx, 0)] + Zeroing(17) + CalleePairs(5) + [Ldr(29, Ctx, 232)] + [Ldr(30, Ctx, 240)])
      == h.(x := FastRegs(Words(h.mem, h.x[X30], 31)))
  {
    hide Upto, Exec, Words, Room, Load, Zeroing, CalleePairs, FastRegs;
    var w, first := Words(h.mem, h.x[X30], 31), [Ldp(0, 1, Ctx, 0)];
    var z := FastRegs(w);
    OneInstr(h, Ldp(0, 1, Ctx, 0));
    Slot(h.mem, h.x[X30], 0, 0);
    Slot(h.mem, h.x[X30], 1, 8);
    UptoEnds(z, h.x);
    UptoTwo(z, h.x, 0);
    var h1 := Exec(h, first);
    ZeroingEffect(h1, z, h.x, 17);
    ExecTwo(h, first, Zeroing(17));
    var h2 := Exec(h, first + Zeroing(17));
    CalleePairsEffect(h2, z, h.x, 5);
    ExecTwo(h, first + Zeroing(17), CalleePairs(5));
    ExecLast(h, first + Zeroing(17) + CalleePairs(5), Ldr(29, Ctx, 232));
    ExecLast(h, first + Zeroing(17) + CalleePairs(5) + [Ldr(29, Ctx, 232)], Ldr(30, Ctx, 240));
    Slot(h.mem, h.x[X30], 29, 232);
    Slot(h.mem, h.x[X30], 30, 240);
    UptoNext(z, h.x, 30);
    UptoNext(z, h.x, 31);
  }

  /** The fast restore depends on the context alone. */
  lemma FastRestoreEffect(h: Core)
    requires Room(h.mem, h.x[X30], 40)
    ensures var w := Words(h.mem, h.x[X30], 40);
      Eret(Exec(h, FastRestoreCode())) == Resumed(h, FastRegs(w[..31]), w)
  {
    hide Exec, SysLoads, Zeroing, CalleePairs, Words, Room, FastRegs;
    SysLoadsEffect(h);
    ExecTwo(h, SysLoads(),
            [Ldp(0, 1, Ctx, 0)] + Zeroing(17) + CalleePairs(5) + [Ldr(29, Ctx, 232)] + [Ldr(30, Ctx, 240)]);
    ContextRegs(h.mem, h.x[X30]);
    FastLoadsEffect(Exec(h, SysLoads()));
  }

  // ---------------------------------------------------------------------------
  // The common entry functions
  // ---------------------------------------------------------------------------

  datatype TrapOutcome =
    | Resume(ret: U64)
    | Resume2(r0: U64, r1: U64)
    | SwitchTo(save: U64, into: U64)
    | SwitchToFast(save: U64, into: U64)
    | Terminate(into: U64)

  /** The words of a saved context after its registers. */
  const SP_EL0_SLOT: nat := 31
  const ELR_SLOT: nat := 32
  const SPSR_SLOT: nat := 33
  const TTBR0_SLOT: nat := 34

  /** Exceptions from EL0: by ESR_EL1.EC for the synchronous ones, by the interrupt the
      controller reports for the others. */
  datatype Cause = Sync(esr: U64) | Device(intid: nat)

  datatype Kind = Svc | Undefined | OtherSync | Irq(timer: bool)

  /** The exception classes as the Arm architecture numbers them in ESR_EL1 bits 31..26
      (svc from AArch64 0x15, unknown reason 0), and the EL1 timer's interrupt, PPI 30. */
  function ClassOf(cause: Cause): Kind {
    match cause
    case Device(intid) => Irq(intid == 30)
    case Sync(esr) =>
      match esr / 0x400_0000 % 64
      case 0x15 => Svc
      case 0x00 => Undefined
      case _ => OtherSync
  }

  const ESR_EC_SVC_AARCH64: nat := 0x15
  const ESR_EC_UNKNOWN_AARCH64: nat := 0x00
  const TIMER_PPI_INTID: nat := 30

  lemma ClassField(esr: U64)
    ensures And(Shr(esr, 26), 0x3F) == esr / 0x400_0000 % 64
  {
    hide And, Shr;
    assert Pow2(6) == 64;
    assert Pow2(13) == 0x2000;
    Pow2Add(13, 13);
    ShrBy(esr, 26, 0x400_0000);
    AndBy(esr / 0x400_0000, 6, 64);
  }

  /** Where the trampoline ends: on its own epilogue, in another context's EL0, or in
      the fatal dump. */
  datatype Ending = Returns(core: Core) | Away(core: Core) | Halts

  function RestoreFull(h: Core, into: U64): Core {
    Eret(Exec(h.(x := h.x[X30 := into]), RestoreCode()))
  }

  function RestoreFast(h: Core, into: U64): Core {
    Eret(Exec(h.(x := h.x[X30 := into]), FastRestoreCode()))
  }

  function Into(h: Core, into: U64, fast: bool): Ending {
    Away(if fast then RestoreFast(h, into) else RestoreFull(h, into))
  }

  /** The four words after the registers: SP_EL0, the given ELR, and SPSR and TTBR0 as
      they are now. */
  function LiveWords(h: Core, resume: U64): (w: seq<U64>)
    ensures |w| == 4
  {
    [h.spEl0, resume, h.spsr, h.ttbr0]
  }

  function SaveFull(h: Core, frame: nat, resume: U64, dst: nat): Core {
    if Room(h.mem, frame, 31) && Room(h.mem, dst, 40)
    then h.(mem := Put(h.mem, dst, Words(h.mem, frame, 31) + LiveWords(h, resume))) else h
  }

  function SaveFast(h: Core, frame: nat, resume: U64, dst: nat): Core {
    if Room(h.mem, frame, 31) && Room(h.mem, dst, 40)
    then h.(mem := Put(h.mem, dst, Merge(IpcAbi().kept, Words(h.mem, frame, 31), Words(h.mem, dst, 31)) + LiveWords(h, resume)))
    else h
  }

  /** `common_sync_entry` and `common_irq_el0_entry`; `elr` and `spsr` were read on
      entry, `outcome` is None when no handler is registered. Only a system call's
      Resume writes them back. */
  function Common(h: Core, frame: nat, kind: Kind, elr: U64, spsr: U64, outcome: Option<TrapOutcome>): Ending {
    match kind
    case OtherSync => Halts
    case Irq(timer) => if !timer || outcome.None? then Returns(h) else Switch(h, frame, elr, outcome.value, false)
    case Undefined => if outcome.None? then Halts else Switch(h, frame, elr, outcome.value, true)
    case Svc =>
      match outcome
      case None => Halts
      case Some(Resume(ret)) => Returns(h.(mem := Store(h.mem, frame, ret), elr := elr, spsr := spsr))
      case Some(Resume2(r0, r1)) =>
        Returns(h.(mem := Store(Store(h.mem, frame, r0), frame + 8, r1), elr := elr, spsr := spsr))
      case Some(SwitchTo(save, into)) => Into(SaveFull(h, frame, elr, save), into, false)
      case Some(SwitchToFast(save, into)) => Into(SaveFast(h, frame, elr, save), into, true)
      case Some(Terminate(into)) => Into(h, into, false)
  }

  /** The arms of the fault and tick handlers; only a fault delivers results. */
  function Switch(h: Core, frame: nat, elr: U64, outcome: TrapOutcome, fault: bool): Ending {
    match outcome
    case Resume(ret) => Returns(if fault then h.(mem := Store(h.mem, frame, ret)) else h)
    case Resume2(r0, r1) => Returns(if fault then h.(mem := Store(Store(h.mem, frame, r0), frame + 8, r1)) else h)
    case SwitchTo(save, into) => Into(SaveFull(h, frame, elr, save), into, false)
    case SwitchToFast(save, into) => Into(SaveFull(h, frame, elr, save), into, false)
    case Terminate(into) => Into(h, into, false)
  }

  datatype Poke = Poke(ctx: nat, a0: U64, a1: U64)

  function PokeAt(mem: seq<U64>, p: Poke): (m: seq<U64>)
    ensures |m| == |mem|
  {
    Store(Store(mem, p.ctx, p.a0), p.ctx + 8, p.a1)
  }

  function PokeAll(mem: seq<U64>, pokes: seq<Poke>): (m: seq<U64>)
    ensures |m| == |mem|
  {
    if pokes == [] then mem else PokeAt(PokeAll(mem, pokes[..|pokes| - 1]), pokes[|pokes| - 1])
  }

  /** What the last nested IRQ left in ELR_EL1 and SPSR_EL1: it interrupted EL1. */
  datatype Nested = Nested(elr: U64, spsr: U64)

  /** What a handler may do before it answers: write x0 and x1 into saved contexts, and,
      if it idled in `wfi`, take any number of nested IRQs. It returns with its own
      register values and SP_EL1 as it was. */
  datatype Handled = Handled(pokes: seq<Poke>, nested: seq<Nested>, scratch: Regs)

  function AfterHandler(h: Core, e: Handled): Core {
    var h1 := h.(mem := PokeAll(h.mem, e.pokes), x := e.scratch);
    if e.nested == [] then h1 else h1.(elr := e.nested[|e.nested| - 1].elr, spsr := e.nested[|e.nested| - 1].spsr)
  }

  /** What the exception itself does; an `svc` returns behind the instruction. */
  function Taken(h: Core, kind: Kind): Core {
    h.(elr := if kind.Svc? then Plus(h.pc, 4) else h.pc, spsr := h.pstate, pstate := EL1H_MASKED)
  }

  /** An exception from EL0, from its entry to EL0 again. */
  function Trap(h: Core, kind: Kind, e: Handled, outcome: Option<TrapOutcome>): Option<Core> {
    var entered := Exec(Taken(h, kind), EntryCode());
    match Common(AfterHandler(entered, e), entered.sp, kind, entered.elr, entered.spsr, outcome)
    case Halts => None
    case Away(g) => Some(g)
    case Returns(g) => Some(Eret(Exec(g, ReturnCode())))
  }

  /** Exceptions that end in the fatal dump: synchronous ones of any class but 0x15 and 0,
      for which nothing can be registered, and those two when nothing is. */
  predicate Fatal(cause: Cause, outcome: Option<TrapOutcome>) {
    match cause
    case Device(_) => false
    case Sync(esr) => outcome.None? || esr / 0x400_0000 % 64 !in {0x15, 0}
  }

  /** The machine halts on an exception from EL0 exactly when it is fatal. */
  lemma TrapHalts(h: Core, cause: Cause, e: Handled, outcome: Option<TrapOutcome>)
    ensures Trap(h, ClassOf(cause), e, outcome).None? <==> Fatal(cause, outcome)
  {
    hide EntryCode, ReturnCode, RestoreCode, FastRestoreCode, Exec, Store, SaveFull, SaveFast, PokeAll, Taken;
  }

  // ---------------------------------------------------------------------------
  // System calls by number
  // ---------------------------------------------------------------------------

  /** Results go to words that are none of the frame's 31. */
  predicate Misses(pokes: seq<Poke>, frame: nat) {
    forall k | 0 <= k < |pokes| ::
      pokes[k].ctx % 8 == 0 && (pokes[k].ctx + 16 <= frame || frame + 248 <= pokes[k].ctx)
  }

  lemma {:induction false} PokesMissFrame(mem: seq<U64>, pokes: seq<Poke>, frame: nat)
    requires Room(mem, frame, 31) && Misses(pokes, frame)
    ensures Words(PokeAll(mem, pokes), frame, 31) == Words(mem, frame, 31)
  {
    hide PokeAt;
    if pokes != [] {
      var n := |pokes| - 1;
      PokesMissFrame(mem, pokes[..n], frame);
      PokeMissesFrame(PokeAll(mem, pokes[..n]), pokes[n], frame);
    }
  }

  lemma PokeMissesFrame(mem: seq<U64>, p: Poke, frame: nat)
    requires Room(mem, frame, 31) && p.ctx % 8 == 0 && (p.ctx + 16 <= frame || frame + 248 <= p.ctx)
    ensures Words(PokeAt(mem, p), frame, 31) == Words(mem, frame, 31)
  {
  }

  /** The core when the handler answers. */
  function AtAnswer(h: Core, kind: Kind, e: Handled): Core {
    AfterHandler(Exec(Taken(h, kind), EntryCode()), e)
  }

  lemma HandlerEntered(h: Core, kind: Kind, e: Handled)
    requires StackReady(h) && Misses(e.pokes, h.sp - 256)
    ensures var g, entered := AtAnswer(h, kind, e), Exec(Taken(h, kind), EntryCode());
      && Room(g.mem, h.sp - 256, 31) && |g.mem| == |h.mem| && Words(g.mem, h.sp - 256, 31) == h.x
      && g.sp == entered.sp == h.sp - 256 && g.spEl0 == h.spEl0 && g.ttbr0 == h.ttbr0 && g.top == h.top
      && entered.elr == (if kind.Svc? then Plus(h.pc, 4) else h.pc) && entered.spsr == h.pstate
      && (e.nested == [] ==> g.elr == entered.elr && g.spsr == h.pstate)
  {
    hide Exec, EntryCode, PokeAll, Put, Words;
    var f := h.sp - 256;
    EntryEffect(Taken(h, kind));
    PutBack(h.mem, f, h.x);
    PokesMissFrame(Put(h.mem, f, h.x), e.pokes, f);
  }

  lemma FrameSlotStored(mem: seq<U64>, f: nat, slot: nat, v: U64)
    requires Room(mem, f, 31) && slot < 31
    ensures var m := Store(mem, f + 8 * slot, v);
      Room(m, f, 31) && Words(m, f, 31) == Words(mem, f, 31)[slot := v]
  {
    assert (f + 8 * slot) / 8 == f / 8 + slot;
  }

  /** Back at EL0 as the thread was, at `pc`, with the registers `x`. */
  predicate Answered(h: Core, g: Core, pc: nat, x: Regs) {
    g.pc == pc && g.x == x && g.spEl0 == h.spEl0 && g.pstate == h.pstate && g.ttbr0 == h.ttbr0 && g.sp == h.sp
  }

  /** A system call (class 0x15) that answers goes on behind its svc with its results in x0
      and x1 and everything else as it was, however many IRQs were nested in it. */
  lemma SvcAnswers(h: Core, esr: U64, e: Handled, r0: U64, r1: U64)
    requires StackReady(h) && Misses(e.pokes, h.sp - 256) && esr / 0x400_0000 % 64 == 0x15
    ensures var r := Trap(h, ClassOf(Sync(esr)), e, Some(Resume(r0)));
      r.Some? && Answered(h, r.value, (h.pc + 4) % TWO64, h.x[0 := r0])
    ensures var r := Trap(h, ClassOf(Sync(esr)), e, Some(Resume2(r0, r1)));
      r.Some? && Answered(h, r.value, (h.pc + 4) % TWO64, h.x[0 := r0][1 := r1])
  {
    hide Exec, EntryCode, ReturnCode, Store, AfterHandler, Taken, Words;
    var g, f := AtAnswer(h, Svc, e), h.sp - 256;
    HandlerEntered(h, Svc, e);
    var m1 := Store(g.mem, f, r0);
    var m2 := Store(m1, f + 8, r1);
    FrameSlotStored(g.mem, f, 0, r0);
    FrameSlotStored(m1, f, 1, r1);
    ReturnEffect(g.(mem := m1, elr := Plus(h.pc, 4), spsr := h.pstate));
    ReturnEffect(g.(mem := m2, elr := Plus(h.pc, 4), spsr := h.pstate));
  }

  /** What the number of a cause settles: whether the machine halts, and where an answered
      system call goes on. */
  lemma ByNumber(h: Core, cause: Cause, e: Handled, outcome: Option<TrapOutcome>)
    requires StackReady(h)
    ensures var r := Trap(h, ClassOf(cause), e, outcome);
      && (r.None? <==> Fatal(cause, outcome))
      && (cause.Sync? && cause.esr / 0x400_0000 % 64 == 0x15 && outcome.Some? && outcome.value.Resume? && Misses(e.pokes, h.sp - 256) ==>
            r.Some? && Answered(h, r.value, (h.pc + 4) % TWO64, h.x[0 := outcome.value.ret]))
  {
    hide Trap, Misses, Answered, ClassOf;
    TrapHalts(h, cause, e, outcome);
    if cause.Sync? && cause.esr / 0x400_0000 % 64 == 0x15 && outcome.Some? && outcome.value.Resume? && Misses(e.pokes, h.sp - 256) {
      SvcAnswers(h, cause.esr, e, outcome.value.ret, 0);
    }
  }

  // ---------------------------------------------------------------------------
  // Nested interrupts
  // ---------------------------------------------------------------------------

  /** A system call that resumes its caller does so at the ELR and SPSR of its entry,
      however many IRQs were nested in it. */
  lemma ResumeIgnoresNested(h: Core, e: Handled, outcome: TrapOutcome)
    requires StackReady(h) && (outcome.Resume? || outcome.Resume2?)
    ensures var r := Trap(h, Svc, e, Some(outcome));
      r.Some? && r.value.pc == Plus(h.pc, 4) && r.value.pstate == h.pstate && r.value.ttbr0 == h.ttbr0 && r.value.spEl0 == h.spEl0
  {
    hide EntryCode, ReturnCode, Exec, Store, Words;
    EntryEffect(Taken(h, Svc));
    var entered := Exec(Taken(h, Svc), EntryCode());
    var g := Common(AfterHandler(entered, e), entered.sp, Svc, entered.elr, entered.spsr, Some(outcome)).core;
    RoomKept(entered.mem, g.mem, entered.sp, 31);
    ReturnEffect(g);
  }

  lemma RoomKept(a: seq<U64>, b: seq<U64>, addr: nat, n: nat)
    requires |a| == |b|
    ensures Room(a, addr, n) <==> Room(b, addr, n)
  {
  }

  /** A switch of any kind, with either save, stores SPSR as it stands: it is the
      caller's exactly when no IRQ was nested, since a nested one leaves the EL1h it
      interrupted. */
  lemma SwitchNeedsQuiet(h: Core, kind: Kind, e: Handled, save: U64, fast: bool)
    requires StackReady(h) && IsEl0(h.pstate) && Room(h.mem, save, 40)
    requires forall k | 0 <= k < |e.nested| :: IsEl1(e.nested[k].spsr)
    ensures var entered := Exec(Taken(h, kind), EntryCode());
      var h1 := AfterHandler(entered, e);
      var g := if fast then SaveFast(h1, entered.sp, entered.elr, save) else SaveFull(h1, entered.sp, entered.elr, save);
      && Room(g.mem, save, 40)
      && Words(g.mem, save, 40)[ELR_SLOT] == Taken(h, kind).elr
      && (Words(g.mem, save, 40)[SPSR_SLOT] == h.pstate <==> e.nested == [])
      && (IsEl0(Words(g.mem, save, 40)[SPSR_SLOT]) <==> e.nested == [])
  {
    hide EntryCode, Exec, Merge;
    EntryEffect(Taken(h, kind));
    var entered := Exec(Taken(h, kind), EntryCode());
    var h1 := AfterHandler(entered, e);
    assert |h1.mem| == |h.mem|;
    SavesLive(h1, entered.sp, entered.elr, save, fast);
    assert e.nested != [] ==> IsEl1(e.nested[|e.nested| - 1].spsr);
  }

  /** Either save writes the ELR it is given and SPSR as it stands. */
  lemma SavesLive(h: Core, frame: nat, resume: U64, dst: nat, fast: bool)
    requires Room(h.mem, frame, 31) && Room(h.mem, dst, 40)
    ensures var g := if fast then SaveFast(h, frame, resume, dst) else SaveFull(h, frame, resume, dst);
      && |g.mem| == |h.mem| && Room(g.mem, dst, 40)
      && Words(g.mem, dst, 40)[ELR_SLOT] == resume && Words(g.mem, dst, 40)[SPSR_SLOT] == h.spsr
  {
    hide Put, Merge, Words;
    var regs := if fast then Merge(IpcAbi().kept, Words(h.mem, frame, 31), Words(h.mem, dst, 31)) else Words(h.mem, frame, 31);
    var w := regs + LiveWords(h, resume);
    ContextWords(h.mem, dst, w);
    var c := Words(Put(h.mem, dst, w), dst, 40);
    assert c[ELR_SLOT] == c[..35][ELR_SLOT] && c[SPSR_SLOT] == c[..35][SPSR_SLOT];
  }

  lemma ContextWords(mem: seq<U64>, at: nat, w: seq<U64>)
    requires Room(mem, at, 40) && |w| == 35
    ensures Room(Put(mem, at, w), at, 40) && Words(Put(mem, at, w), at, 40)[..35] == w
  {
  }

  /** `init_user_context`: zero registers, EL0t with interrupts unmasked, and the given
      root (0 keeps the live one). */
  function FreshContext(ttbr0: U64, entry: U64, stackTop: U64, rootFrame: U64): (w: seq<U64>)
    ensures |w| == 35
  {
    Zeros(31) + [stackTop, entry, 0, if rootFrame != 0 then rootFrame else ttbr0]
  }

  // ---------------------------------------------------------------------------
  // The code as it runs: one core, memory in place
  // ---------------------------------------------------------------------------

  class Processor {
    var x: Regs
    var sp: U64
    var spEl0: U64
    var elr: U64
    var spsr: U64
    var ttbr0: U64
    var pc: U64
    var pstate: U64
    const top: U64
    const mem: array<U64>

    constructor (x: Regs, sp: U64, ttbr0: U64, top: U64, mem: array<U64>)
      ensures this.mem == mem && State() == Core(x, sp, 0, 0, 0, ttbr0, 0, EL1H_MASKED, top, mem[..])
    {
      this.x, this.sp, this.ttbr0, this.top, this.mem := x, sp, ttbr0, top, mem;
      spEl0, elr, spsr, pc, pstate := 0, 0, 0, 0, EL1H_MASKED;
    }

    ghost function State(): Core
      reads this, mem
    {
      Core(x, sp, spEl0, elr, spsr, ttbr0, pc, pstate, top, mem[..])
    }

    method StoreWord(addr: nat, v: U64)
      modifies mem
      ensures mem[..] == Store(old(mem[..]), addr, v)
    {
      if addr % 8 == 0 && addr / 8 < mem.Length {
        mem[addr / 8] := v;
      }
    }

    method WriteSys(sys: Sys, v: U64)
      modifies this
      ensures State() == SetSys(old(State()), sys, v)
    {
      match sys
      case SpEl0 => spEl0 := v;
      case Elr => elr := v;
      case Spsr => spsr := v;
      case Ttbr0 => ttbr0 := v;
    }

    method ExecuteOne(i: Instr)
      modifies this, mem
      ensures State() == Step(old(State()), i)
    {
      hide Store, Load, SetSys, Plus;
      match i
      case AddSp(imm) => sp := Plus(sp, imm);
      case Stp(a, b, off) =>
        StoreWord(sp + off, x[a]);
        StoreWord(sp + off + 8, x[b]);
      case Str(src, off) => StoreWord(sp + off, x[src]);
      case Ldp(a, b, base, off) =>
        var at := if base.Sp? then sp else x[X30];
        x := x[a := Load(mem[..], at + off)][b := Load(mem[..], at + off + 8)];
      case Ldr(dst, base, off) => x := x[dst := Load(mem[..], (if base.Sp? then sp else x[X30]) + off)];
      case Zero(reg) => x := x[reg := 0];
      case Msr(sys, from) => WriteSys(sys, x[from]);
      case StackTop(dst) => x := x[dst := top];
      case MovSp(from) => sp := x[from];
    }

    method Execute(code: seq<Instr>)
      modifies this, mem
      ensures State() == Exec(old(State()), code)
    {
      hide Step;
      ghost var h := State();
      assert code[..0] == [] && code[..|code|] == code;
      for k := 0 to |code|
        invariant State() == Exec(h, code[..k])
      {
        assert code[..k + 1][..k] == code[..k] && code[..k + 1][k] == code[k];
        ExecuteOne(code[k]);
      }
    }

    method StoreWords(addr: nat, w: seq<U64>)
      requires Room(mem[..], addr, |w|)
      modifies mem
      ensures mem[..] == Put(old(mem[..]), addr, w)
    {
      ghost var m := mem[..];
      assert w[..0] == [] && w[..|w|] == w && Put(m, addr, []) == m;
      for i := 0 to |w|
        invariant mem[..] == Put(m, addr, w[..i])
      {
        PutAppend(m, addr, w[..i], w[i], w[..i + 1]);
        mem[addr / 8 + i] := w[i];
      }
    }

    /** `save_frame_as_user_context`. */
    method SaveFrameAsUserContext(frame: U64, resume: U64, dst: U64)
      requires Room(mem[..], frame, 31) && Room(mem[..], dst, 40)
      modifies mem
      ensures State() == SaveFull(old(State()), frame, resume, dst)
    {
      hide Put;
      ghost var m := mem[..];
      var regs := mem[frame / 8..frame / 8 + 31];
      assert regs == Words(m, frame, 31);
      StoreWords(dst, regs);
      StoreWords(dst + 248, [spEl0, resume, spsr, ttbr0]);
      PutTwice(m, dst, regs, dst + 248, [spEl0, resume, spsr, ttbr0]);
    }

    /** `save_ipc_fast_context`: writes the kept slots only. */
    method SaveIpcFastContext(frame: U64, resume: U64, dst: U64)
      requires Room(mem[..], frame, 31) && Room(mem[..], dst, 40)
      requires frame + 256 <= dst || dst + 320 <= frame
      modifies mem
      ensures State() == SaveFast(old(State()), frame, resume, dst)
    {
      hide Put;
      ghost var m := mem[..];
      var regs := mem[frame / 8..frame / 8 + 31];
      assert regs == Words(m, frame, 31);
      StoreWords(dst, regs[..2]);
      StoreWords(dst + 152, regs[19..29]);
      StoreWords(dst + 232, regs[29..31]);
      StoreWords(dst + 248, [spEl0, resume, spsr, ttbr0]);
      FastWritten(m, dst, regs, [spEl0, resume, spsr, ttbr0]);
    }

    /** `poke_saved_a0_a1`. */
    method PokeSavedA0A1(p: Poke)
      modifies mem
      ensures mem[..] == PokeAt(old(mem[..]), p)
    {
      StoreWord(p.ctx, p.a0);
      StoreWord(p.ctx + 8, p.a1);
    }

    /** `init_user_context`: the context is cleared and its fields set one by one. */
    method InitUserContext(dst: U64, entry: U64, stackTop: U64, rootFrame: U64)
      requires Room(mem[..], dst, 40)
      modifies mem
      ensures mem[..] == Put(old(mem[..]), dst, FreshContext(ttbr0, entry, stackTop, rootFrame))
    {
      hide Put;
      ghost var m := mem[..];
      var c := dst / 8;
      StoreWords(dst, Zeros(35));
      mem[c + SP_EL0_SLOT] := stackTop;
      mem[c + ELR_SLOT] := entry;
      mem[c + SPSR_SLOT] := 0;
      mem[c + TTBR0_SLOT] := if rootFrame != 0 then rootFrame else ttbr0;
      FreshWritten(m, dst, entry, stackTop, if rootFrame != 0 then rootFrame else ttbr0);
    }

    /** `enter_user`: leaves SP_EL1 where it is. */
    method EnterUser(entry: U64, stackTop: U64)
      modifies this
      ensures State() == Eret(old(State()).(spEl0 := stackTop, elr := entry, spsr := 0))
    {
      spEl0, elr, spsr := stackTop, entry, 0;
      pc, pstate := elr, spsr;
    }

    /** `restore_user_and_eret`, or the fast restore. */
    method RestoreAndEret(blob: U64, fast: bool)
      modifies this, mem
      ensures State() == if fast then RestoreFast(old(State()), blob) else RestoreFull(old(State()), blob)
    {
      x := x[X30 := blob];
      Execute(if fast then FastRestoreCode() else RestoreCode());
      pc, pstate := elr, spsr;
    }

    /** `common_sync_entry` and `common_irq_el0_entry`, once the handler has answered. */
    method CommonEntry(frame: U64, cause: Cause, elrRead: U64, spsrRead: U64, outcome: Option<TrapOutcome>)
      returns (halted: bool, away: bool)
      requires Writable(mem[..], frame, outcome)
      modifies this, mem
      ensures var e := Common(old(State()), frame, ClassOf(cause), elrRead, spsrRead, outcome);
        && halted == e.Halts? && away == e.Away? && (!halted ==> State() == e.core)
    {
      hide Exec, Put, And, Shr;
      halted, away := false, false;
      match cause
      case Device(intid) =>
        if intid == TIMER_PPI_INTID && outcome.Some? {
          away := SwitchFully(frame, elrRead, outcome.value, false);
        }
      case Sync(esr) =>
        var ec := And(Shr(esr, 26), 0x3F);
        ClassField(esr);
        if ec == ESR_EC_SVC_AARCH64 && outcome.Some? {
          away := AnswerCall(frame, elrRead, spsrRead, outcome.value);
        } else if ec == ESR_EC_UNKNOWN_AARCH64 && outcome.Some? {
          away := SwitchFully(frame, elrRead, outcome.value, true);
        } else {
          halted := true;
        }
    }

    /** The arms of the `svc` handler. */
    method AnswerCall(frame: U64, elrRead: U64, spsrRead: U64, outcome: TrapOutcome) returns (away: bool)
      requires Writable(mem[..], frame, Some(outcome))
      modifies this, mem
      ensures var e := Common(old(State()), frame, Svc, elrRead, spsrRead, Some(outcome));
        !e.Halts? && away == e.Away? && State() == e.core
    {
      hide Exec, Put;
      away := true;
      match outcome
      case Resume(ret) =>
        StoreWord(frame, ret);
        elr, spsr, away := elrRead, spsrRead, false;
      case Resume2(r0, r1) =>
        StoreWord(frame, r0);
        StoreWord(frame + 8, r1);
        elr, spsr, away := elrRead, spsrRead, false;
      case SwitchTo(save, into) =>
        SaveFrameAsUserContext(frame, elrRead, save);
        RestoreAndEret(into, false);
      case SwitchToFast(save, into) =>
        SaveIpcFastContext(frame, elrRead, save);
        RestoreAndEret(into, true);
      case Terminate(into) =>
        RestoreAndEret(into, false);
    }

    /** The arms of the fault and tick handlers. */
    method SwitchFully(frame: U64, resume: U64, outcome: TrapOutcome, fault: bool) returns (away: bool)
      requires Writable(mem[..], frame, Some(outcome))
      modifies this, mem
      ensures var e := Switch(old(State()), frame, resume, outcome, fault);
        !e.Halts? && away == e.Away? && State() == e.core
    {
      hide Exec, Put;
      away := true;
      match outcome
      case Resume(ret) =>
        away := false;
        if fault {
          StoreWord(frame, ret);
        }
      case Resume2(r0, r1) =>
        away := false;
        if fault {
          StoreWord(frame, r0);
          StoreWord(frame + 8, r1);
        }
      case SwitchTo(save, into) =>
        SaveFrameAsUserContext(frame, resume, save);
        RestoreAndEret(into, false);
      case SwitchToFast(save, into) =>
        SaveFrameAsUserContext(frame, resume, save);
        RestoreAndEret(into, false);
      case Terminate(into) =>
        RestoreAndEret(into, false);
    }

    /** What the handler does before it answers. */
    method RunHandler(e: Handled)
      modifies this, mem
      ensures State() == AfterHandler(old(State()), e)
    {
      hide PokeAt;
      ghost var m := mem[..];
      x := e.scratch;
      assert e.pokes[..0] == [] && e.pokes[..|e.pokes|] == e.pokes;
      for k := 0 to |e.pokes|
        invariant mem[..] == PokeAll(m, e.pokes[..k])
        invariant x == e.scratch && sp == old(sp) && spEl0 == old(spEl0) && elr == old(elr) && spsr == old(spsr)
        invariant ttbr0 == old(ttbr0) && pc == old(pc) && pstate == old(pstate)
      {
        assert e.pokes[..k + 1][..k] == e.pokes[..k];
        PokeSavedA0A1(e.pokes[k]);
      }
      if e.nested != [] {
        elr, spsr := e.nested[|e.nested| - 1].elr, e.nested[|e.nested| - 1].spsr;
      }
    }

    /** A whole exception: its entry, the trampoline, the handler, the exit. */
    method TakeException(cause: Cause, e: Handled, outcome: Option<TrapOutcome>) returns (halted: bool)
      requires StackReady(State()) && Writable(mem[..], sp - 256, outcome)
      modifies this, mem
      ensures var r := Trap(old(State()), ClassOf(cause), e, outcome);
        halted == r.None? && (!halted ==> State() == r.value)
      ensures halted <==> Fatal(cause, outcome)
      ensures (cause.Sync? && cause.esr / 0x400_0000 % 64 == 0x15 && outcome.Some? && outcome.value.Resume?
               && Misses(e.pokes, old(sp) - 256)) ==>
        Answered(old(State()), State(), (old(pc) + 4) % TWO64, old(x)[0 := outcome.value.ret])
    {
      hide EntryCode, ReturnCode, Common, Writable, Exec, PokeAll, ClassOf, Misses, Fatal, Answered;
      ByNumber(State(), cause, e, outcome);
      elr, spsr, pstate := if ClassOf(cause).Svc? then Plus(pc, 4) else pc, pstate, EL1H_MASKED;
      EntryEffect(State());
      Execute(EntryCode());
      var frame, elrRead, spsrRead := sp, elr, spsr;
      RunHandler(e);
      WritableKept(mem.Length, frame, outcome);
      var away;
      halted, away := CommonEntry(frame, cause, elrRead, spsrRead, outcome);
      if !halted && !away {
        Execute(ReturnCode());
        pc, pstate := elr, spsr;
      }
    }
  }

  /** A cleared context with its four fields set. */
  lemma FreshWritten(m: seq<U64>, dst: nat, entry: U64, stackTop: U64, root: U64)
    requires Room(m, dst, 40)
    ensures var c := dst / 8;
      Put(m, dst, Zeros(35))[c + SP_EL0_SLOT := stackTop][c + ELR_SLOT := entry][c + SPSR_SLOT := 0][c + TTBR0_SLOT := root]
        == Put(m, dst, Zeros(31) + [stackTop, entry, 0, root])
  {
  }

  /** The frame exists, and the contexts an outcome writes to, apart from it. */
  predicate Writable(mem: seq<U64>, frame: nat, outcome: Option<TrapOutcome>) {
    && Room(mem, frame, 31)
    && match outcome
       case Some(SwitchTo(save, _)) => Room(mem, save, 40)
       case Some(SwitchToFast(save, _)) => Room(mem, save, 40) && (frame + 256 <= save || save + 320 <= frame)
       case _ => true
  }

  lemma WritableKept(n: nat, frame: nat, outcome: Option<TrapOutcome>)
    ensures forall a: seq<U64>, b: seq<U64> | |a| == |b| :: Writable(a, frame, outcome) <==> Writable(b, frame, outcome)
  {
  }

  lemma PutTwice(m: seq<U64>, addr: nat, a: seq<U64>, addr': nat, b: seq<U64>)
    requires Room(m, addr, |a| + |b|) && addr' == addr + 8 * |a|
    ensures Put(Put(m, addr, a), addr', b) == Put(m, addr, a + b)
  {
    assert addr' / 8 == addr / 8 + |a|;
  }

  /** The three runs of kept registers, word by word. */
  lemma KeptWritten(m: seq<U64>, dst: nat, regs: Regs)
    requires Room(m, dst, 40)
    ensures var d, c := dst / 8, Put(Put(Put(m, dst, regs[..2]), dst + 152, regs[19..29]), dst + 232, regs[29..31]);
      forall k | 0 <= k < |m| :: c[k] == if d <= k < d + 31 && Kept(k - d) then regs[k - d] else m[k]
  {
    hide Put;
    var d := dst / 8;
    var a := Put(m, dst, regs[..2]);
    var b := Put(a, dst + 152, regs[19..29]);
    PutWords(m, dst, d, 0, regs[..2]);
    PutWords(a, dst + 152, d, 19, regs[19..29]);
    PutWords(b, dst + 232, d, 29, regs[29..31]);
  }

  lemma FastWritten(m: seq<U64>, dst: nat, regs: Regs, sys: seq<U64>)
    requires Room(m, dst, 40) && |sys| == 4
    ensures var a := Put(Put(m, dst, regs[..2]), dst + 152, regs[19..29]);
      Put(Put(a, dst + 232, regs[29..31]), dst + 248, sys) == Put(m, dst, Merge(IpcAbi().kept, regs, Words(m, dst, 31)) + sys)
  {
    hide Put, Merge, Kept;
    var d := dst / 8;
    var z := Merge(IpcAbi().kept, regs, Words(m, dst, 31));
    var c := Put(Put(Put(m, dst, regs[..2]), dst + 152, regs[19..29]), dst + 232, regs[29..31]);
    KeptWritten(m, dst, regs);
    PutWords(c, dst + 248, d, 31, sys);
    PutWords(m, dst, d, 0, z + sys);
    forall k | 0 <= k < |m| ensures Put(c, dst + 248, sys)[k] == Put(m, dst, z + sys)[k] {
      assert d <= k < d + 31 ==> z[k - d] == if Kept(k - d) then regs[k - d] else m[k];
    }
  }
}
