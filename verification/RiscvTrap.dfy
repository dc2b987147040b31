/** Supervisor traps and U-mode thread switching on RISC-V: the trap vector and the
    context save/restore code of hal/hal-riscv64/src/cpu.rs, run instruction by
    instruction on a hart, refined to threads with private register files. */
module RiscvTrap {
  import opened Bits
  import opened Options
  import opened Threads
  import opened WordMemory

  // ---------------------------------------------------------------------------
  // The hart
  // ---------------------------------------------------------------------------

  /** x1..x31. */
  type Reg = r: nat | 1 <= r <= 31 witness 1

  const SP: Reg := 2
  const T5: Reg := 30
  const T6: Reg := 31
  const A0: nat := 9
  const A1: nat := 10

  /** The words of a saved context after its registers. */
  const SEPC_SLOT: nat := 31
  const SSTATUS_SLOT: nat := 32
  const SATP_SLOT: nat := 33

  /** `mem` is memory by 8-byte words; `umode` tells U-mode from S-mode. */
  datatype Hart = Hart(x: Regs, pc: U64, sepc: U64, sstatus: U64, satp: U64, umode: bool, mem: seq<U64>)

  datatype Csr = Sstatus | Sepc | Satp

  datatype Instr =
    | Addi(rd: Reg, rs: Reg, imm: int)
    | Sd(src: Reg, off: nat, base: Reg)
    | Ld(dst: Reg, off: nat, base: Reg)
    | Zero(reg: Reg)
    | Csrw(csr: Csr, from: Reg)

  function Step(h: Hart, i: Instr): Hart {
    match i
    case Addi(rd, rs, imm) => h.(x := h.x[rd - 1 := Plus(h.x[rs - 1], imm)])
    case Sd(src, off, base) => h.(mem := Store(h.mem, h.x[base - 1] + off, h.x[src - 1]))
    case Ld(dst, off, base) => h.(x := h.x[dst - 1 := Load(h.mem, h.x[base - 1] + off)])
    case Zero(reg) => h.(x := h.x[reg - 1 := 0])
    case Csrw(Sstatus, from) => h.(sstatus := h.x[from - 1])
    case Csrw(Sepc, from) => h.(sepc := h.x[from - 1])
    case Csrw(Satp, from) => h.(satp := h.x[from - 1])
  }

  function Exec(h: Hart, code: seq<Instr>): Hart {
    if code == [] then h else Step(Exec(h, code[..|code| - 1]), code[|code| - 1])
  }

  lemma {:induction false} ExecTwo(h: Hart, a: seq<Instr>, b: seq<Instr>)
    ensures Exec(h, a + b) == Exec(Exec(h, a), b)
    decreases |b|
  {
    if b == [] {
      assert a + b == a;
    } else {
      assert (a + b)[..|a + b| - 1] == a + b[..|b| - 1];
      ExecTwo(h, a, b[..|b| - 1]);
    }
  }

  // sstatus: SIE is bit 1, SPIE bit 5, SPP bit 8.

  predicate FromUser(sstatus: U64) {
    sstatus / 256 % 2 == 0
  }

  /** What taking a trap from U-mode does to sstatus: SPP and SIE clear, SPIE = SIE. */
  function TrapStatus(s: U64): (r: U64)
    ensures FromUser(r)
  {
    var hi, low := s / 512, s % 256;
    Rebuilt(hi, low - low / 32 % 2 * 32 - low / 2 % 2 * 2 + low / 2 % 2 * 32)
  }

  /** What `sret` does to it: SIE = SPIE, SPIE set, SPP clear. */
  function SretStatus(s: U64): (r: U64)
    ensures FromUser(r)
  {
    var hi, low := s / 512, s % 256;
    Rebuilt(hi, low - low / 2 % 2 * 2 + low / 32 % 2 * 2 - low / 32 % 2 * 32 + 32)
  }

  /** What a nested trap and its `sret` leave behind: SPP and SIE clear, SPIE set. */
  function WaitedStatus(s: U64): (r: U64)
    ensures FromUser(r)
  {
    var hi, low := s / 512, s % 256;
    Rebuilt(hi, low - low / 2 % 2 * 2 - low / 32 % 2 * 32 + 32)
  }

  function Rebuilt(hi: nat, low: int): (r: U64)
    ensures FromUser(r)
  {
    if 0 <= low < 256 && hi < 0x80_0000_0000_0000 then hi * 512 + low else 0
  }

  // ---------------------------------------------------------------------------
  // The assembly
  // ---------------------------------------------------------------------------

  /** sd x1..xk at 0, 8, .. of sp. */
  function Stores(k: nat): (c: seq<Instr>)
    requires k <= 31
    ensures |c| == k
  {
    if k == 0 then [] else Stores(k - 1) + [Sd(k, 8 * (k - 1), SP)]
  }

  /** ld x1..xk from 0, 8, .. of the context in t6. */
  function Loads(k: nat): (c: seq<Instr>)
    requires k <= 31
    ensures |c| == k
  {
    if k == 0 then [] else Loads(k - 1) + [Ld(k, 8 * (k - 1), T6)]
  }

  /** The return path of the trap vector: as `Loads`, from sp and without x2. */
  function Reloads(k: nat): seq<Instr>
    requires k <= 31
  {
    if k == 0 then [] else if k == SP then Reloads(k - 1) else Reloads(k - 1) + [Ld(k, 8 * (k - 1), SP)]
  }

  /** ra, sp, gp, tp, s0, s1, a0, a1, s2..s11: what the IPC fast path keeps. */
  predicate Kept(r: nat) {
    r <= 4 || 8 <= r <= 11 || 18 <= r <= 27
  }

  /** The fast path's loads: x1..xk in order, the registers not kept set to zero. */
  function FastLoads(k: nat): (c: seq<Instr>)
    requires k <= 31
    ensures |c| == k
  {
    if k == 0 then [] else FastLoads(k - 1) + [if Kept(k) then Ld(k, 8 * (k - 1), T6) else Zero(k)]
  }

  function CsrLoads(): seq<Instr> {
    [Ld(T5, 256, T6), Csrw(Sstatus, T5), Ld(T5, 248, T6), Csrw(Sepc, T5), Ld(T5, 264, T6), Csrw(Satp, T5)]
  }

  function EntryCode(): seq<Instr> {
    [Addi(SP, SP, -248)] + Stores(31)
  }

  function ReturnCode(): seq<Instr> {
    Reloads(31) + [Addi(SP, SP, 248)]
  }

  function RestoreCode(): seq<Instr> {
    CsrLoads() + Loads(31)
  }

  function FastRestoreCode(): seq<Instr> {
    CsrLoads() + FastLoads(31)
  }

  /** `sret` goes to the mode SPP names. */
  function Sret(h: Hart): Hart {
    h.(pc := h.sepc, umode := FromUser(h.sstatus), sstatus := SretStatus(h.sstatus))
  }

  // ---------------------------------------------------------------------------
  // Contexts in memory
  // ---------------------------------------------------------------------------

  /** The register words of a full snapshot: the trap frame with the true sp. */
  function SnapshotRegs(frame: Regs, frameAddr: U64): Regs {
    frame[SP - 1 := Plus(frameAddr, 248)]
  }

  function FullContext(h: Hart, frame: nat, resume: U64): (w: seq<U64>)
    requires Room(h.mem, frame, 31) && frame < TWO64
    ensures |w| == 40
  {
    SnapshotRegs(Words(h.mem, frame, 31), frame) + [resume, h.sstatus, h.satp] + [0, 0, 0, 0, 0, 0]
  }

  function FastContext(h: Hart, frame: nat, resume: U64, dst: nat): (w: seq<U64>)
    requires Room(h.mem, frame, 31) && frame < TWO64 && Room(h.mem, dst, 40)
    ensures |w| == 40
  {
    var old_ := Words(h.mem, dst, 40);
    Merge(IpcAbi().kept, SnapshotRegs(Words(h.mem, frame, 31), frame), old_[..31]) + [resume, h.sstatus, h.satp] + old_[34..]
  }

  /** The fast path's registers by their place in the register file. */
  function IpcAbi(): Abi {
    Abi((i: nat) => Kept(i + 1), A0, A1)
  }

  // ---------------------------------------------------------------------------
  // What the assembly does
  // ---------------------------------------------------------------------------

  lemma {:induction false} StoresEffect(h: Hart, k: nat)
    requires k <= 31 && Room(h.mem, h.x[SP - 1], 31)
    ensures Room(h.mem, h.x[SP - 1], k)
    ensures Exec(h, Stores(k)) == h.(mem := Put(h.mem, h.x[SP - 1], h.x[..k]))
  {
    RoomForFewer(h.mem, h.x[SP - 1], k);
    if k == 0 {
      PutNone(h.mem, h.x[SP - 1], h.x);
    } else {
      hide Put, Room, Exec, Step;
      StoresEffect(h, k - 1);
      ExecLast(h, Stores(k - 1), Sd(k, 8 * (k - 1), SP));
      StoreNext(h, k);
    }
  }

  lemma StoreNext(h: Hart, k: nat)
    requires 0 < k <= 31 && Room(h.mem, h.x[SP - 1], 31)
    ensures Step(h.(mem := Put(h.mem, h.x[SP - 1], h.x[..k - 1])), Sd(k, 8 * (k - 1), SP))
      == h.(mem := Put(h.mem, h.x[SP - 1], h.x[..k]))
  {
    hide Put, Store;
    PutOneMore(h.mem, h.x[SP - 1], h.x, k);
  }

  lemma RoomForFewer(mem: seq<U64>, addr: nat, k: nat)
    requires k <= 31 && Room(mem, addr, 31)
    ensures Room(mem, addr, k)
  {
  }

  lemma PutNone(mem: seq<U64>, addr: nat, x: Regs)
    requires Room(mem, addr, 31)
    ensures Put(mem, addr, x[..0]) == mem
  {
  }

  lemma PutOneMore(mem: seq<U64>, addr: nat, x: Regs, k: nat)
    requires 0 < k <= 31 && Room(mem, addr, 31)
    ensures Store(Put(mem, addr, x[..k - 1]), addr + 8 * (k - 1), x[k - 1]) == Put(mem, addr, x[..k])
  {
    assert (addr + 8 * (k - 1)) / 8 == addr / 8 + k - 1;
  }

  lemma {:induction false} LoadsEffect(h: Hart, k: nat)
    requires k <= 31 && Room(h.mem, h.x[T6 - 1], 31)
    ensures Exec(h, Loads(k)) == h.(x := Upto(Words(h.mem, h.x[T6 - 1], 31), h.x, k))
  {
    hide Upto, Load, Words, Room;
    var w := Words(h.mem, h.x[T6 - 1], 31);
    UptoEnds(w, h.x);
    if k > 0 {
      LoadsEffect(h, k - 1);
      assert Loads(k)[..k - 1] == Loads(k - 1);
      SlotWord(h.mem, h.x[T6 - 1], k);
      UptoNext(w, h.x, k);
    }
  }

  lemma MergedSlot(v: Regs, k: nat)
    requires 0 < k <= 31
    ensures Merge(IpcAbi().kept, v, Zeros(31))[k - 1] == if Kept(k) then v[k - 1] else 0
  {
    hide Kept;
  }

  lemma {:induction false} FastLoadsEffect(h: Hart, k: nat)
    requires k <= 31 && Room(h.mem, h.x[T6 - 1], 31)
    ensures Exec(h, FastLoads(k)) == h.(x := Upto(Merge(IpcAbi().kept, Words(h.mem, h.x[T6 - 1], 31), Zeros(31)), h.x, k))
  {
    hide Upto, Load, Words, Room, Kept, Merge, Zeros, IpcAbi;
    var w := Merge(IpcAbi().kept, Words(h.mem, h.x[T6 - 1], 31), Zeros(31));
    UptoEnds(w, h.x);
    if k > 0 {
      FastLoadsEffect(h, k - 1);
      MergedSlot(Words(h.mem, h.x[T6 - 1], 31), k);
      assert FastLoads(k)[..k - 1] == FastLoads(k - 1);
      SlotWord(h.mem, h.x[T6 - 1], k);
      UptoNext(w, h.x, k);
    }
  }

  lemma {:induction false} ReloadsEffect(h: Hart, k: nat)
    requires k <= 31 && Room(h.mem, h.x[SP - 1], 31)
    ensures Exec(h, Reloads(k)) == h.(x := Upto(Words(h.mem, h.x[SP - 1], 31)[SP - 1 := h.x[SP - 1]], h.x, k))
  {
    hide Upto, Words, Room, Exec, Step;
    var w := Words(h.mem, h.x[SP - 1], 31)[SP - 1 := h.x[SP - 1]];
    if k == 0 {
      UptoEnds(w, h.x);
      NoCode(h);
    } else {
      ReloadsEffect(h, k - 1);
      ReloadOne(h, k, w);
      if k != SP {
        ExecLast(h, Reloads(k - 1), Ld(k, 8 * (k - 1), SP));
      }
    }
  }

  lemma NoCode(h: Hart)
    ensures Exec(h, []) == h
  {
  }

  /** One more register, sp itself being as it was. */
  lemma ReloadOne(h: Hart, k: nat, w: Regs)
    requires 0 < k <= 31 && Room(h.mem, h.x[SP - 1], 31)
    requires w == Words(h.mem, h.x[SP - 1], 31)[SP - 1 := h.x[SP - 1]]
    ensures k != SP ==> Step(h.(x := Upto(w, h.x, k - 1)), Ld(k, 8 * (k - 1), SP)) == h.(x := Upto(w, h.x, k))
    ensures k == SP ==> Upto(w, h.x, k - 1) == Upto(w, h.x, k)
  {
    hide Upto, Load, Words, Room;
    UptoNext(w, h.x, k);
    if k == SP {
      assert Upto(w, h.x, k - 1)[k - 1 := w[k - 1]] == Upto(w, h.x, k - 1);
    } else {
      SlotWord(h.mem, h.x[SP - 1], k);
    }
  }

  /** The true stack pointer leaves room for a trap frame below it. */
  predicate StackReady(h: Hart) {
    var sp := h.x[SP - 1];
    248 <= sp && sp % 8 == 0 && sp / 8 <= |h.mem|
  }

  /** The entry path pushes x1..x31, with sp already moved. */
  lemma EntryEffect(h: Hart)
    requires StackReady(h)
    ensures var f := h.x[SP - 1] - 248;
      var x := h.x[SP - 1 := f];
      && Room(h.mem, f, 31)
      && Exec(h, EntryCode()) == h.(x := x, mem := Put(h.mem, f, x))
  {
    hide Stores, Put, Exec;
    ExecTwo(h, [Addi(SP, SP, -248)], Stores(31));
    OneInstr(h, Addi(SP, SP, -248));
    var h1 := Exec(h, [Addi(SP, SP, -248)]);
    StoresEffect(h1, 31);
    assert h1.x[..31] == h1.x;
  }

  /** The return path reloads the frame and steps sp back over it. */
  lemma ReturnEffect(h: Hart)
    requires Room(h.mem, h.x[SP - 1], 31)
    ensures Exec(h, ReturnCode())
      == h.(x := Words(h.mem, h.x[SP - 1], 31)[SP - 1 := Plus(h.x[SP - 1], 248)])
  {
    hide Reloads, Words;
    var w := Words(h.mem, h.x[SP - 1], 31)[SP - 1 := h.x[SP - 1]];
    ReloadsEffect(h, 31);
    UptoEnds(w, h.x);
    ExecTwo(h, Reloads(31), [Addi(SP, SP, 248)]);
    OneInstr(Exec(h, Reloads(31)), Addi(SP, SP, 248));
    assert w[SP - 1 := Plus(h.x[SP - 1], 248)] == Words(h.mem, h.x[SP - 1], 31)[SP - 1 := Plus(h.x[SP - 1], 248)];
  }

  lemma OneInstr(h: Hart, i: Instr)
    ensures Exec(h, [i]) == Step(h, i)
  {
    assert [i][..0] == [];
  }

  lemma CsrLoadsEffect(h: Hart)
    requires Room(h.mem, h.x[T6 - 1], 40)
    ensures var w, g := Words(h.mem, h.x[T6 - 1], 40), Exec(h, CsrLoads());
      && g.sepc == w[31] && g.sstatus == w[32] && g.satp == w[33]
      && g.mem == h.mem && g.pc == h.pc && g.x[T6 - 1] == h.x[T6 - 1]
  {
    hide Exec, Load, Room, Words;
    var c, b := CsrLoads(), h.x[T6 - 1];
    CsrWords(h.mem, b);
    assert c[..1] + [c[1]] == c[..2] && c[..2] + [c[2]] == c[..3] && c[..3] + [c[3]] == c[..4];
    assert c[..4] + [c[4]] == c[..5] && c[..5] + [c[5]] == c && c[..1] == [c[0]];
    OneInstr(h, c[0]);
    ExecLast(h, c[..1], c[1]);
    ExecLast(h, c[..2], c[2]);
    ExecLast(h, c[..3], c[3]);
    ExecLast(h, c[..4], c[4]);
    ExecLast(h, c[..5], c[5]);
  }

  lemma ExecLast(h: Hart, code: seq<Instr>, i: Instr)
    ensures Exec(h, code + [i]) == Step(Exec(h, code), i)
  {
    assert (code + [i])[..|code|] == code;
  }

  lemma CsrWords(mem: seq<U64>, addr: nat)
    requires Room(mem, addr, 40)
    ensures var w := Words(mem, addr, 40);
      Load(mem, addr + 256) == w[32] && Load(mem, addr + 248) == w[31] && Load(mem, addr + 264) == w[33]
  {
    assert (addr + 256) / 8 == addr / 8 + 32 && (addr + 248) / 8 == addr / 8 + 31 && (addr + 264) / 8 == addr / 8 + 33;
  }

  /** A hart running from a restored context. */
  function Resumed(h: Hart, x: Regs, w: seq<U64>): Hart
    requires |w| == 40
  {
    h.(x := x, pc := w[31], sepc := w[31], sstatus := SretStatus(w[32]), satp := w[33], umode := FromUser(w[32]))
  }

  lemma ContextRegs(mem: seq<U64>, addr: nat)
    requires Room(mem, addr, 40)
    ensures Room(mem, addr, 31) && Words(mem, addr, 31) == Words(mem, addr, 40)[..31]
  {
  }

  lemma RestoreEffect(h: Hart)
    requires Room(h.mem, h.x[T6 - 1], 40)
    ensures var w := Words(h.mem, h.x[T6 - 1], 40);
      Sret(Exec(h, RestoreCode())) == Resumed(h, w[..31], w)
  {
    hide Exec, CsrLoads, Loads, Words, Room, SretStatus;
    ExecTwo(h, CsrLoads(), Loads(31));
    CsrLoadsEffect(h);
    var g := Exec(h, CsrLoads());
    ContextRegs(h.mem, h.x[T6 - 1]);
    LoadsEffect(g, 31);
    UptoEnds(Words(g.mem, g.x[T6 - 1], 31), g.x);
  }

  /** The fast restore depends on the context alone: kept registers from it, zero elsewhere. */
  lemma FastRestoreEffect(h: Hart)
    requires Room(h.mem, h.x[T6 - 1], 40)
    ensures var w := Words(h.mem, h.x[T6 - 1], 40);
      Sret(Exec(h, FastRestoreCode())) == Resumed(h, Merge(IpcAbi().kept, w[..31], Zeros(31)), w)
  {
    hide Exec, CsrLoads, FastLoads, Words, Room, SretStatus, Kept;
    ExecTwo(h, CsrLoads(), FastLoads(31));
    CsrLoadsEffect(h);
    var g := Exec(h, CsrLoads());
    ContextRegs(h.mem, h.x[T6 - 1]);
    FastLoadsEffect(g, 31);
    UptoEnds(Merge(IpcAbi().kept, Words(g.mem, g.x[T6 - 1], 31), Zeros(31)), g.x);
  }

  // ---------------------------------------------------------------------------
  // common_trap_entry
  // ---------------------------------------------------------------------------

  /** What a handler tells the trap vector to do; contexts by address. */
  datatype TrapOutcome =
    | Resume(ret: U64)
    | Resume2(r0: U64, r1: U64)
    | SwitchTo(save: U64, into: U64)
    | SwitchToFast(save: U64, into: U64)
    | Terminate(into: U64)

  datatype Kind = Tick | OtherInterrupt | Ecall | Exception

  /** The supervisor causes as the RISC-V Privileged Architecture numbers them: bit 63
      tells interrupts (timer 5) from exceptions (environment call from U-mode 8). */
  function CauseOf(scause: U64): Kind {
    match (scause / 0x8000_0000_0000_0000, scause % 0x8000_0000_0000_0000)
    case (1, 5) => Tick
    case (1, _) => OtherInterrupt
    case (_, 8) => Ecall
    case _ => Exception
  }

  const CAUSE_ECALL_FROM_U: nat := 8
  const CAUSE_TIMER_INTERRUPT: nat := 5

  /** `scause as isize`. */
  function Signed(scause: U64): int {
    if scause < 0x8000_0000_0000_0000 then scause else scause - TWO64
  }

  /** `scause & !(1 << 63)`. */
  function CauseCode(scause: U64): nat {
    And(scause, Not(Shl(1, 63)))
  }

  lemma CauseCodeIsLow(scause: U64)
    ensures CauseCode(scause) == scause % 0x8000_0000_0000_0000
  {
    hide And;
    Powers();
    Pow2Add(30, 30);
    Pow2Add(60, 3);
    assert Pow2(3) == 8;
    ShlBy(1, 63, 0x8000_0000_0000_0000);
    AndBy(scause, 63, 0x8000_0000_0000_0000);
  }

  /** Where the trap vector ends: on its own return path, in another context's
      U-mode, or in the fatal dump. */
  datatype Ending = Returns(hart: Hart) | Runs(hart: Hart) | Halts

  function RestoreFull(h: Hart, into: U64): Hart {
    Sret(Exec(h.(x := h.x[T6 - 1 := into]), RestoreCode()))
  }

  function RestoreFast(h: Hart, into: U64): Hart {
    Sret(Exec(h.(x := h.x[T6 - 1 := into]), FastRestoreCode()))
  }

  function SaveFull(h: Hart, frame: nat, resume: U64, dst: nat): Hart {
    if Room(h.mem, frame, 31) && frame < TWO64 && Room(h.mem, dst, 40)
    then h.(mem := Put(h.mem, dst, FullContext(h, frame, resume))) else h
  }

  function SaveFast(h: Hart, frame: nat, resume: U64, dst: nat): Hart {
    if Room(h.mem, frame, 31) && frame < TWO64 && Room(h.mem, dst, 40)
    then h.(mem := Put(h.mem, dst, FastContext(h, frame, resume, dst))) else h
  }

  /** `outcome` is None when no handler is registered; `sepc` was read on entry. */
  function Common(h: Hart, frame: nat, kind: Kind, sepc: U64, outcome: Option<TrapOutcome>): Ending {
    match kind
    case OtherInterrupt => Returns(h)
    case Tick => if !FromUser(h.sstatus) || outcome.None? then Returns(h) else Switch(h, frame, sepc, outcome.value)
    case Exception => if !FromUser(h.sstatus) || outcome.None? then Halts else Switch(h, frame, sepc, outcome.value)
    case Ecall =>
      match outcome
      case None => Halts
      case Some(Resume(ret)) => Returns(h.(mem := Store(h.mem, frame + 72, ret), sepc := Plus(sepc, 4)))
      case Some(Resume2(r0, r1)) =>
        Returns(h.(mem := Store(Store(h.mem, frame + 72, r0), frame + 80, r1), sepc := Plus(sepc, 4)))
      case Some(SwitchTo(save, into)) => Into(SaveFull(h, frame, Plus(sepc, 4), save), into, false)
      case Some(SwitchToFast(save, into)) => Into(SaveFast(h, frame, Plus(sepc, 4), save), into, true)
      case Some(Terminate(into)) => Into(h, into, false)
  }

  /** A tick or fault resumes at the interrupted instruction and always switches fully. */
  function Switch(h: Hart, frame: nat, sepc: U64, outcome: TrapOutcome): Ending {
    match outcome
    case Resume(_) => Returns(h)
    case Resume2(_, _) => Returns(h)
    case SwitchTo(save, into) => Into(SaveFull(h, frame, sepc, save), into, false)
    case SwitchToFast(save, into) => Into(SaveFull(h, frame, sepc, save), into, false)
    case Terminate(into) => Into(h, into, false)
  }

  function Into(h: Hart, into: U64, fast: bool): Ending {
    Ending.Runs(if fast then RestoreFast(h, into) else RestoreFull(h, into))
  }

  /** What a handler may do to the hart before it answers: write a0/a1 into saved
      contexts, and, if it idled in `wfi`, take nested interrupts, which leave sepc
      inside the kernel and SPIE set. It returns with its own register values. */
  datatype Handled = Handled(pokes: seq<Poke>, nested: Option<U64>, scratch: Regs)

  datatype Poke = Poke(ctx: nat, a0: U64, a1: U64)

  function PokeAt(mem: seq<U64>, p: Poke): (m: seq<U64>)
    ensures |m| == |mem|
  {
    Store(Store(mem, p.ctx + 72, p.a0), p.ctx + 80, p.a1)
  }

  function PokeAll(mem: seq<U64>, pokes: seq<Poke>): (m: seq<U64>)
    ensures |m| == |mem|
  {
    if pokes == [] then mem else PokeAt(PokeAll(mem, pokes[..|pokes| - 1]), pokes[|pokes| - 1])
  }

  function AfterHandler(h: Hart, e: Handled): Hart {
    var h1 := h.(mem := PokeAll(h.mem, e.pokes), x := e.scratch[SP - 1 := h.x[SP - 1]]);
    match e.nested
    case None => h1
    case Some(pc) => h1.(sepc := pc, sstatus := WaitedStatus(h1.sstatus))
  }

  /** What the hardware does on a trap from U-mode. */
  function Taken(h: Hart): Hart {
    h.(sepc := h.pc, sstatus := TrapStatus(h.sstatus), umode := false)
  }

  /** A trap taken from U-mode, from the hardware's entry to U-mode again. */
  function Trap(h: Hart, scause: U64, e: Handled, outcome: Option<TrapOutcome>): Option<Hart> {
    var entered := Exec(Taken(h), EntryCode());
    var frame := entered.x[SP - 1];
    match Common(AfterHandler(entered, e), frame, CauseOf(scause), entered.sepc, outcome)
    case Halts => None
    case Runs(g) => Some(g)
    case Returns(g) => Some(Sret(Exec(g, ReturnCode())))
  }

  /** On a stack with room for the frame, the machine halts on a trap from U-mode exactly
      when it is no interrupt and has no handler; in every other case some thread runs on. */
  lemma TrapHalts(h: Hart, scause: U64, e: Handled, outcome: Option<TrapOutcome>)
    requires StackReady(h)
    ensures Trap(h, scause, e, outcome).None? <==> outcome.None? && scause < 0x8000_0000_0000_0000
  {
    hide Stores, Exec, EntryCode, ReturnCode, RestoreCode, FastRestoreCode, TrapStatus, WaitedStatus, PokeAll, Store, SaveFull, SaveFast,
      FromUser;
    EntryEffect(Taken(h));
  }

  /** Results go to words that are none of the frame's 31. */
  predicate Misses(pokes: seq<Poke>, frame: nat) {
    forall k | 0 <= k < |pokes| ::
      pokes[k].ctx % 8 == 0 && (pokes[k].ctx + 88 <= frame || frame + 248 <= pokes[k].ctx + 72)
  }

  lemma {:induction false} PokesMissFrame(mem: seq<U64>, pokes: seq<Poke>, frame: nat)
    requires Room(mem, frame, 31) && Misses(pokes, frame)
    ensures Words(PokeAll(mem, pokes), frame, 31) == Words(mem, frame, 31)
  {
    hide PokeAt;
    if pokes != [] {
      var n := |pokes| - 1;
      PokesMissFrame(mem, pokes[..n], frame);
      PokeMissesFrame(PokeAll(mem, pokes[..n]), pokes[n], frame);
    }
  }

  lemma PokeMissesFrame(mem: seq<U64>, p: Poke, frame: nat)
    requires Room(mem, frame, 31) && p.ctx % 8 == 0 && (p.ctx + 88 <= frame || frame + 248 <= p.ctx + 72)
    ensures Words(PokeAt(mem, p), frame, 31) == Words(mem, frame, 31)
  {
  }

  /** The hart when the handler answers. */
  function AtAnswer(h: Hart, e: Handled): Hart {
    AfterHandler(Exec(Taken(h), EntryCode()), e)
  }

  lemma HandlerEntered(h: Hart, e: Handled)
    requires StackReady(h) && Misses(e.pokes, h.x[SP - 1] - 248)
    ensures var g, f, entered := AtAnswer(h, e), h.x[SP - 1] - 248, Exec(Taken(h), EntryCode());
      && Room(g.mem, f, 31) && |g.mem| == |h.mem| && Words(g.mem, f, 31) == h.x[SP - 1 := f]
      && g.x[SP - 1] == f && g.satp == h.satp && FromUser(g.sstatus)
      && entered.sepc == h.pc && entered.x[SP - 1] == f
      && g.sepc == if e.nested.None? then h.pc else e.nested.value
  {
    hide Exec, EntryCode, PokeAll, Put, Words, WaitedStatus, TrapStatus, FromUser;
    var f := h.x[SP - 1] - 248;
    var x := h.x[SP - 1 := f];
    EntryEffect(Taken(h));
    PutBack(h.mem, f, x);
    PokesMissFrame(Put(h.mem, f, x), e.pokes, f);
  }

  /** A system call (cause 8) that answers goes on behind its ecall with its results in
      a0 and a1, x10 and x11, and everything else as it was. */
  lemma EcallAnswers(h: Hart, e: Handled, r0: U64, r1: U64)
    requires StackReady(h) && Misses(e.pokes, h.x[SP - 1] - 248)
    ensures var r := Trap(h, 8, e, Some(Resume(r0)));
      r.Some? && Answered(h, r.value, h.x[9 := r0])
    ensures var r := Trap(h, 8, e, Some(Resume2(r0, r1)));
      r.Some? && Answered(h, r.value, h.x[9 := r0][10 := r1])
  {
    hide Exec, EntryCode, ReturnCode, Store, WaitedStatus, TrapStatus, SretStatus, FromUser, AfterHandler;
    var g, f := AtAnswer(h, e), h.x[SP - 1] - 248;
    HandlerEntered(h, e);
    var m1 := Store(g.mem, f + 72, r0);
    var m2 := Store(m1, f + 80, r1);
    FrameSlotStored(g.mem, f, 9, r0);
    FrameSlotStored(m1, f, 10, r1);
    ReturnEffect(g.(mem := m1, sepc := Plus(h.pc, 4)));
    ReturnEffect(g.(mem := m2, sepc := Plus(h.pc, 4)));
    assert h.x[SP - 1 := f][9 := r0][SP - 1 := f + 248] == h.x[9 := r0];
    assert h.x[SP - 1 := f][9 := r0][10 := r1][SP - 1 := f + 248] == h.x[9 := r0][10 := r1];
  }

  lemma ByNumber(h: Hart, scause: U64, e: Handled, outcome: Option<TrapOutcome>)
    requires StackReady(h)
    ensures var r := Trap(h, scause, e, outcome);
      && (r.None? <==> outcome.None? && scause < 0x8000_0000_0000_0000)
      && (scause == 8 && outcome.Some? && outcome.value.Resume? && Misses(e.pokes, h.x[SP - 1] - 248) ==>
            r.Some? && Answered(h, r.value, h.x[9 := outcome.value.ret]))
  {
    hide Trap, Misses, Answered;
    TrapHalts(h, scause, e, outcome);
    if scause == 8 && outcome.Some? && outcome.value.Resume? && Misses(e.pokes, h.x[SP - 1] - 248) {
      EcallAnswers(h, e, outcome.value.ret, 0);
    }
  }

  /** Back in U-mode, four bytes on, with the registers `x`. */
  predicate Answered(h: Hart, g: Hart, x: Regs) {
    g.umode && g.pc == (h.pc + 4) % TWO64 && g.x == x && g.satp == h.satp
  }

  lemma FrameSlotStored(mem: seq<U64>, f: nat, slot: nat, v: U64)
    requires Room(mem, f, 31) && slot < 31
    ensures var m := Store(mem, f + 8 * slot, v);
      Room(m, f, 31) && Words(m, f, 31) == Words(mem, f, 31)[slot := v]
  {
    assert (f + 8 * slot) / 8 == f / 8 + slot;
  }

  /** `init_user_context`: zero registers but sp, a U-mode sstatus from the live one,
      and the satp of `rootFrame` (0 keeps the live satp). */
  function FreshContext(sstatus: U64, satp: U64, entry: U64, stackTop: U64, rootFrame: U64): (w: seq<U64>)
    ensures |w| == 40
  {
    Zeros(31)[SP - 1 := stackTop] + [entry, FreshStatus(sstatus), FreshSatp(satp, rootFrame)] + [0, 0, 0, 0, 0, 0]
  }

  function FreshStatus(s: U64): U64 {
    Or(And(s, Not(256)), 32)
  }

  function FreshSatp(live: U64, rootFrame: U64): U64 {
    if rootFrame == 0 then live
    else
      SatpIsSum(rootFrame);
      Or(Shl(8, 60), Shr(rootFrame, 12))
  }

  /** The mode and the page number do not overlap. */
  lemma SatpIsSum(rootFrame: U64)
    ensures Or(Shl(8, 60), Shr(rootFrame, 12)) == 0x8000_0000_0000_0000 + rootFrame / 4096
  {
    hide And, Or;
    Powers();
    Pow2Add(30, 30);
    ShlBy(8, 60, 0x1000_0000_0000_0000);
    ShrBy(rootFrame, 12, 4096);
    MulMod(8, 0x1000_0000_0000_0000);
    OrDisjoint(0x8000_0000_0000_0000, rootFrame / 4096, 60);
  }

  /** Bit by bit: SPIE set, SPP clear, the others as they are live. */
  lemma FreshStatusBits(s: U64, k: nat)
    requires k < 64
    ensures FreshStatus(s) / Pow2(k) % 2 == (if k == 5 then 1 else if k == 8 then 0 else s / Pow2(k) % 2)
  {
    hide And, Or, Shr;
    WordSize();
    PowerBit(8, k);
    PowerBit(5, k);
    ComplementBit(256, 64, k);
    AndBitAt(s, Not(256), k);
    OrBitAt(And(s, Not(256)), 32, k);
    ShrDivides(s, k);
    ShrDivides(FreshStatus(s), k);
    assert Pow2(8) == 256 && Pow2(5) == 32;
  }

  /** `sret` with it enters U-mode with interrupts on (SIE, bit 1). */
  lemma FreshStatusIsUser(s: U64)
    ensures FromUser(FreshStatus(s)) && SretStatus(FreshStatus(s)) / 2 % 2 == 1
  {
    hide FreshStatus, SretStatus;
    FreshStatusBits(s, 8);
    FreshStatusBits(s, 5);
    assert Pow2(8) == 256 && Pow2(5) == 32;
    SretEnables(FreshStatus(s));
  }

  lemma SretEnables(s: U64)
    requires s / 32 % 2 == 1
    ensures SretStatus(s) / 2 % 2 == 1
  {
    hide Rebuilt;
    var hi, low := s / 512, s % 256;
    assert low / 32 % 2 == 1 by {
      assert s == 256 * (s / 256) + low;
    }
    var now := low - low / 2 % 2 * 2 + 2;
    assert SretStatus(s) == Rebuilt(hi, now);
    assert low == 4 * (low / 4) + 2 * (low / 2 % 2) + low % 2;
    RebuiltLow(hi, now, low / 4, low % 2);
  }

  lemma RebuiltLow(hi: nat, low: int, q: nat, b: nat)
    requires low == 4 * q + 2 + b && b < 2 && low < 256 && hi < 0x80_0000_0000_0000
    ensures Rebuilt(hi, low) / 2 % 2 == 1
  {
    assert Rebuilt(hi, low) == 4 * (128 * hi + q) + 2 + b;
  }

  /** Sv39 mode and the root's page number. */
  lemma FreshSatpFields(live: U64, rootFrame: U64)
    requires rootFrame != 0
    ensures FreshSatp(live, rootFrame) / 0x1000_0000_0000_0000 == 8
    ensures FreshSatp(live, rootFrame) % 0x1000_0000_0000_0000 == rootFrame / 4096
  {
    hide Or, Shl, Shr;
    SatpIsSum(rootFrame);
  }

  // ---------------------------------------------------------------------------
  // The code as it runs: one hart, memory in place
  // ---------------------------------------------------------------------------

  class Core {
    var x: Regs
    var pc: U64
    var sepc: U64
    var sstatus: U64
    var satp: U64
    var umode: bool
    const mem: array<U64>

    constructor (x: Regs, pc: U64, sstatus: U64, satp: U64, umode: bool, mem: array<U64>)
      ensures this.mem == mem && State() == Hart(x, pc, 0, sstatus, satp, umode, mem[..])
    {
      this.x, this.pc, this.sepc, this.sstatus, this.satp, this.umode, this.mem := x, pc, 0, sstatus, satp, umode, mem;
    }

    ghost function State(): Hart
      reads this, mem
    {
      Hart(x, pc, sepc, sstatus, satp, umode, mem[..])
    }

    method StoreWord(addr: nat, v: U64)
      modifies mem
      ensures mem[..] == Store(old(mem[..]), addr, v)
    {
      if addr % 8 == 0 && addr / 8 < mem.Length {
        mem[addr / 8] := v;
      }
    }

    method ExecuteOne(i: Instr)
      modifies this, mem
      ensures State() == Step(old(State()), i)
    {
      hide Load, Store, Plus;
      match i
      case Addi(rd, rs, imm) => x := x[rd - 1 := Plus(x[rs - 1], imm)];
      case Sd(src, off, base) => StoreWord(x[base - 1] + off, x[src - 1]);
      case Ld(dst, off, base) => x := x[dst - 1 := Load(mem[..], x[base - 1] + off)];
      case Zero(reg) => x := x[reg - 1 := 0];
      case Csrw(Sstatus, from) => sstatus := x[from - 1];
      case Csrw(Sepc, from) => sepc := x[from - 1];
      case Csrw(Satp, from) => satp := x[from - 1];
    }

    method Execute(code: seq<Instr>)
      modifies this, mem
      ensures State() == Exec(old(State()), code)
    {
      hide Step;
      ghost var h := State();
      assert code[..0] == [] && code[..|code|] == code;
      for k := 0 to |code|
        invariant State() == Exec(h, code[..k])
      {
        assert code[..k + 1][..k] == code[..k] && code[..k + 1][k] == code[k];
        ExecuteOne(code[k]);
      }
    }

    method StoreWords(addr: nat, w: seq<U64>)
      requires Room(mem[..], addr, |w|)
      modifies mem
      ensures mem[..] == Put(old(mem[..]), addr, w)
    {
      ghost var m := mem[..];
      assert w[..0] == [] && w[..|w|] == w && Put(m, addr, []) == m;
      for i := 0 to |w|
        invariant mem[..] == Put(m, addr, w[..i])
      {
        PutAppend(m, addr, w[..i], w[i], w[..i + 1]);
        mem[addr / 8 + i] := w[i];
      }
    }

    /** `save_trap_frame_as_user_context`. */
    method SaveTrapFrameAsUserContext(frame: U64, resume: U64, dst: U64)
      requires Room(mem[..], frame, 31) && Room(mem[..], dst, 40)
      modifies mem
      ensures State() == SaveFull(old(State()), frame, resume, dst)
    {
      hide Put;
      ghost var m := mem[..];
      var regs := mem[frame / 8..frame / 8 + 31];
      StoreWords(dst, regs);
      mem[dst / 8 + 1] := Plus(frame, 248);
      assert mem[..] == Put(m, dst, regs)[dst / 8 + 1 := Plus(frame, 248)];
      StoreWords(dst + 248, [resume, sstatus, satp] + [0, 0, 0, 0, 0, 0]);
      ContextWritten(m, dst, regs, Plus(frame, 248), [resume, sstatus, satp], [0, 0, 0, 0, 0, 0]);
    }

    /** Copies words `lo..hi` of the frame into a context. */
    method CopySlots(frame: U64, dst: U64, lo: nat, hi: nat)
      requires lo <= hi <= 31 && Room(mem[..], frame, 31) && Room(mem[..], dst, 40)
      requires frame + 248 <= dst || dst + 320 <= frame
      modifies mem
      ensures mem[..] == Put(old(mem[..]), dst + 8 * lo, old(Words(mem[..], frame, 31))[lo..hi])
    {
      assert (dst + 8 * lo) / 8 == dst / 8 + lo;
      var regs := mem[frame / 8..frame / 8 + 31];
      assert regs == Words(mem[..], frame, 31);
      StoreWords(dst + 8 * lo, regs[lo..hi]);
    }

    /** `save_ipc_fast_context`: writes the kept slots only. */
    method SaveIpcFastContext(frame: U64, resume: U64, dst: U64)
      requires Room(mem[..], frame, 31) && Room(mem[..], dst, 40)
      requires frame + 248 <= dst || dst + 320 <= frame
      modifies mem
      ensures State() == SaveFast(old(State()), frame, resume, dst)
    {
      hide Put;
      ghost var m, regs := mem[..], Words(mem[..], frame, 31);
      CopySlots(frame, dst, 0, 1);
      StoreWords(dst + 8, [Plus(frame, 248)]);
      FrameApart(m, frame, dst, 0, regs[..1]);
      FrameApart(Put(m, dst, regs[..1]), frame, dst, 1, [Plus(frame, 248)]);
      assert dst + 8 * 0 == dst && regs[0..1] == regs[..1];
      ghost var m1 := mem[..];
      CopySlots(frame, dst, 2, 4);
      FrameApart(m1, frame, dst, 2, regs[2..4]);
      ghost var m2 := mem[..];
      CopySlots(frame, dst, 7, 11);
      FrameApart(m2, frame, dst, 7, regs[7..11]);
      ghost var m3 := mem[..];
      CopySlots(frame, dst, 17, 27);
      StoreWords(dst + 248, [resume, sstatus, satp]);
      FastWritten(m, dst, regs, Plus(frame, 248), [resume, sstatus, satp], SnapshotRegs(regs, frame));
    }

    /** `poke_saved_a0_a1`. */
    method PokeSavedA0A1(p: Poke)
      modifies mem
      ensures mem[..] == PokeAt(old(mem[..]), p)
    {
      StoreWord(p.ctx + 72, p.a0);
      StoreWord(p.ctx + 80, p.a1);
    }

    /** `init_user_context`: the context is cleared and its fields set one by one. */
    method InitUserContext(dst: U64, entry: U64, stackTop: U64, rootFrame: U64)
      requires Room(mem[..], dst, 40)
      modifies mem
      ensures mem[..] == Put(old(mem[..]), dst, FreshContext(sstatus, satp, entry, stackTop, rootFrame))
    {
      hide Put, Or, And, Shl, Shr;
      ghost var m := mem[..];
      var c := dst / 8;
      StoreWords(dst, Zeros(40));
      mem[c + SP - 1] := stackTop;
      mem[c + SEPC_SLOT] := entry;
      if rootFrame != 0 {
        SatpIsSum(rootFrame);
        mem[c + SATP_SLOT] := Or(Shl(8, 60), Shr(rootFrame, 12));
      } else {
        mem[c + SATP_SLOT] := satp;
      }
      mem[c + SSTATUS_SLOT] := Or(And(sstatus, Not(256)), 32);
      FreshWritten(m, dst, entry, stackTop, FreshStatus(sstatus), FreshSatp(satp, rootFrame));
    }

    /** `restore_user_and_sret`, or the fast restore. */
    method RestoreAndSret(blob: U64, fast: bool)
      modifies this, mem
      ensures State() == if fast then RestoreFast(old(State()), blob) else RestoreFull(old(State()), blob)
    {
      x := x[T6 - 1 := blob];
      Execute(if fast then FastRestoreCode() else RestoreCode());
      pc, umode, sstatus := sepc, FromUser(sstatus), SretStatus(sstatus);
    }

    /** `common_trap_entry`, once the handler has answered. */
    method CommonTrapEntry(frame: U64, scause: U64, sepcRead: U64, outcome: Option<TrapOutcome>)
      returns (halted: bool, away: bool)
      requires Room(mem[..], frame, 31) && Writable(mem[..], frame, outcome)
      modifies this, mem
      ensures var e := Common(old(State()), frame, CauseOf(scause), sepcRead, outcome);
        && halted == e.Halts? && away == e.Runs? && (!halted ==> State() == e.hart)
    {
      hide Exec, FullContext, FastContext, Put, CauseCode;
      CauseCodeIsLow(scause);
      halted, away := false, true;
      var isInterrupt, causeCode := Signed(scause) < 0, CauseCode(scause);
      if isInterrupt {
        if causeCode == CAUSE_TIMER_INTERRUPT && FromUser(sstatus) && outcome.Some? {
          away := SwitchFully(frame, sepcRead, outcome.value);
        } else {
          away := false;
        }
      } else if causeCode == CAUSE_ECALL_FROM_U {
        match outcome
        case None =>
          halted, away := true, false;
        case Some(Resume(ret)) =>
          StoreWord(frame + 72, ret);
          sepc, away := Plus(sepcRead, 4), false;
        case Some(Resume2(r0, r1)) =>
          StoreWord(frame + 72, r0);
          StoreWord(frame + 80, r1);
          sepc, away := Plus(sepcRead, 4), false;
        case Some(SwitchTo(save, into)) =>
          SaveTrapFrameAsUserContext(frame, Plus(sepcRead, 4), save);
          RestoreAndSret(into, false);
        case Some(SwitchToFast(save, into)) =>
          SaveIpcFastContext(frame, Plus(sepcRead, 4), save);
          RestoreAndSret(into, true);
        case Some(Terminate(into)) =>
          RestoreAndSret(into, false);
      } else if FromUser(sstatus) && outcome.Some? {
        away := SwitchFully(frame, sepcRead, outcome.value);
      } else {
        halted, away := true, false;
      }
    }

    /** The arms of the tick and fault handlers. */
    method SwitchFully(frame: U64, resume: U64, outcome: TrapOutcome) returns (away: bool)
      requires Room(mem[..], frame, 31) && Writable(mem[..], frame, Some(outcome))
      modifies this, mem
      ensures var e := Switch(old(State()), frame, resume, outcome);
        !e.Halts? && away == e.Runs? && State() == e.hart
    {
      hide Exec, FullContext, FastContext, Put;
      away := true;
      match outcome
      case Resume(_) =>
        away := false;
      case Resume2(_, _) =>
        away := false;
      case SwitchTo(save, into) =>
        SaveTrapFrameAsUserContext(frame, resume, save);
        RestoreAndSret(into, false);
      case SwitchToFast(save, into) =>
        SaveTrapFrameAsUserContext(frame, resume, save);
        RestoreAndSret(into, false);
      case Terminate(into) =>
        RestoreAndSret(into, false);
    }

    /** What the handler does before it answers. */
    method RunHandler(e: Handled)
      modifies this, mem
      ensures State() == AfterHandler(old(State()), e)
    {
      hide WaitedStatus, PokeAt;
      ghost var m := mem[..];
      x := e.scratch[SP - 1 := x[SP - 1]];
      assert e.pokes[..0] == [] && e.pokes[..|e.pokes|] == e.pokes;
      for k := 0 to |e.pokes|
        invariant mem[..] == PokeAll(m, e.pokes[..k])
        invariant x == old(e.scratch[SP - 1 := x[SP - 1]]) && pc == old(pc) && satp == old(satp)
        invariant sepc == old(sepc) && sstatus == old(sstatus) && umode == old(umode)
      {
        assert e.pokes[..k + 1][..k] == e.pokes[..k];
        PokeSavedA0A1(e.pokes[k]);
      }
      if e.nested.Some? {
        sepc, sstatus := e.nested.value, WaitedStatus(sstatus);
      }
    }

    /** A whole trap: the hardware's entry, the trampoline, the handler, the exit. */
    method TakeTrap(scause: U64, e: Handled, outcome: Option<TrapOutcome>) returns (halted: bool)
      requires StackReady(State()) && Writable(mem[..], x[SP - 1] - 248, outcome)
      modifies this, mem
      ensures var r := Trap(old(State()), scause, e, outcome);
        halted == r.None? && (!halted ==> State() == r.value)
      ensures halted <==> outcome.None? && scause < 0x8000_0000_0000_0000
      ensures scause == 8 && outcome.Some? && outcome.value.Resume? && Misses(e.pokes, old(x[SP - 1]) - 248) ==>
        umode && pc == (old(pc) + 4) % TWO64 && x == old(x)[9 := outcome.value.ret] && satp == old(satp)
    {
      hide EntryCode, ReturnCode, Common, Writable, TrapStatus, SretStatus, Exec, PokeAll, WaitedStatus, CauseOf, Misses;
      ByNumber(State(), scause, e, outcome);
      sepc, sstatus, umode := pc, TrapStatus(sstatus), false;
      EntryEffect(State());
      Execute(EntryCode());
      var frame, sepcRead := x[SP - 1], sepc;
      RunHandler(e);
      WritableKept(mem.Length, frame, outcome);
      var away;
      halted, away := CommonTrapEntry(frame, scause, sepcRead, outcome);
      if !halted && !away {
        Execute(ReturnCode());
        pc, umode, sstatus := sepc, FromUser(sstatus), SretStatus(sstatus);
      }
    }
  }

  /** Contexts an outcome writes to exist and do not overlap the trap frame. */
  predicate Writable(mem: seq<U64>, frame: nat, outcome: Option<TrapOutcome>) {
    match outcome
    case Some(SwitchTo(save, _)) => Room(mem, save, 40)
    case Some(SwitchToFast(save, _)) => Room(mem, save, 40) && (frame + 248 <= save || save + 320 <= frame)
    case _ => true
  }

  lemma WritableKept(n: nat, frame: nat, outcome: Option<TrapOutcome>)
    ensures forall a: seq<U64>, b: seq<U64> | |a| == |b| :: Writable(a, frame, outcome) <==> Writable(b, frame, outcome)
  {
  }

  /** A cleared context with its four fields set. */
  lemma FreshWritten(m: seq<U64>, dst: nat, entry: U64, stackTop: U64, status: U64, root: U64)
    requires Room(m, dst, 40)
    ensures var c := dst / 8;
      Put(m, dst, Zeros(40))[c + SP - 1 := stackTop][c + SEPC_SLOT := entry][c + SATP_SLOT := root][c + SSTATUS_SLOT := status]
        == Put(m, dst, Zeros(31)[SP - 1 := stackTop] + [entry, status, root] + [0, 0, 0, 0, 0, 0])
  {
  }

  lemma ContextWritten(m: seq<U64>, dst: nat, regs: Regs, sp: U64, csrs: seq<U64>, rest: seq<U64>)
    requires Room(m, dst, 40) && |csrs| == 3 && |rest| == 6
    ensures Put(Put(m, dst, regs)[dst / 8 + 1 := sp], dst + 248, csrs + rest) == Put(m, dst, regs[1 := sp] + csrs + rest)
  {
    assert (dst + 248) / 8 == dst / 8 + 31;
  }

  /** Writing into a context leaves a frame elsewhere alone. */
  lemma FrameApart(m: seq<U64>, frame: nat, dst: nat, lo: nat, w: seq<U64>)
    requires Room(m, frame, 31) && Room(m, dst, 40) && lo + |w| <= 40
    requires frame + 248 <= dst || dst + 320 <= frame
    ensures Words(Put(m, dst + 8 * lo, w), frame, 31) == Words(m, frame, 31)
  {
    assert (dst + 8 * lo) / 8 == dst / 8 + lo;
  }

  /** The context at word `d` with its kept slots below `n` written. */
  function FastUpto(m: seq<U64>, d: nat, s: Regs, n: nat): (z: seq<U64>)
    requires n <= 31
    ensures |z| == |m|
    ensures forall k | 0 <= k < |m| :: z[k] == FastSlot(m, d, s, n, k)
  {
    seq(|m|, k requires 0 <= k < |m| => FastSlot(m, d, s, n, k))
  }

  function FastSlot(m: seq<U64>, d: nat, s: Regs, n: nat, k: nat): U64
    requires n <= 31 && k < |m|
  {
    if d <= k < d + n && Kept(k - d + 1) then s[k - d] else m[k]
  }

  lemma FastMore(m: seq<U64>, dst: nat, s: Regs, n: nat, lo: nat, hi: nat, w: seq<U64>)
    requires Room(m, dst, 40) && n <= lo <= hi <= 31 && w == s[lo..hi]
    requires forall r | n < r <= hi :: Kept(r) <==> lo < r
    ensures Put(FastUpto(m, dst / 8, s, n), dst + 8 * lo, w) == FastUpto(m, dst / 8, s, hi)
  {
    assert (dst + 8 * lo) / 8 == dst / 8 + lo;
  }

  lemma FastWritten(m: seq<U64>, dst: nat, regs: Regs, sp: U64, csrs: seq<U64>, snapshot: Regs)
    requires Room(m, dst, 40) && |csrs| == 3 && snapshot == regs[1 := sp]
    ensures var m1 := Put(Put(m, dst, regs[..1]), dst + 8, [sp]);
      var m2 := Put(Put(m1, dst + 16, regs[2..4]), dst + 56, regs[7..11]);
      var old_ := Words(m, dst, 40);
      Put(Put(m2, dst + 136, regs[17..27]), dst + 248, csrs) == Put(m, dst, Merge(IpcAbi().kept, snapshot, old_[..31]) + csrs + old_[34..])
  {
    hide Put, FastUpto;
    var d := dst / 8;
    assert FastUpto(m, d, snapshot, 0) == m;
    FastMore(m, dst, snapshot, 0, 0, 1, regs[..1]);
    FastMore(m, dst, snapshot, 1, 1, 2, [sp]);
    FastMore(m, dst, snapshot, 2, 2, 4, regs[2..4]);
    FastMore(m, dst, snapshot, 4, 7, 11, regs[7..11]);
    FastMore(m, dst, snapshot, 11, 17, 27, regs[17..27]);
    FastEnds(m, dst, snapshot, csrs);
  }

  lemma FastEnds(m: seq<U64>, dst: nat, s: Regs, csrs: seq<U64>)
    requires Room(m, dst, 40) && |csrs| == 3
    ensures var old_ := Words(m, dst, 40);
      Put(FastUpto(m, dst / 8, s, 27), dst + 248, csrs) == Put(m, dst, Merge(IpcAbi().kept, s, old_[..31]) + csrs + old_[34..])
  {
    hide Put, FastUpto, Merge;
    var d, old_ := dst / 8, Words(m, dst, 40);
    var z := Merge(IpcAbi().kept, s, old_[..31]);
    assert forall i | 0 <= i < 31 :: z[i] == if Kept(i + 1) then s[i] else m[d + i];
    PutWords(FastUpto(m, d, s, 27), dst + 248, d, 31, csrs);
    PutWords(m, dst, d, 0, z + csrs + old_[34..]);
    forall k | 0 <= k < |m|
      ensures Put(FastUpto(m, d, s, 27), dst + 248, csrs)[k] == Put(m, dst, z + csrs + old_[34..])[k]
    {
      assert d <= k < d + 31 ==> z[k - d] == if Kept(k - d + 1) then s[k - d] else m[k];
    }
  }
}
