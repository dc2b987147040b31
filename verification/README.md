# Simurgh OS hardware layer: a verified model

The hardware abstraction layer of Simurgh OS builds translation tables, takes traps,
switches processes, waits for interrupts, programs a timer, loads the kernel image and
hands messages and tokens between processes. This project models that code in Dafny, in
the form it has (methods with loops over raw frames, machine code as instruction lists
run by an interpreter, parsers and codecs as functions), and proves what it is for.

**Translation tables.** `PageTree` is the algorithm all three mappers of the repository
share, on 512-word frames, for any word format and depth: descend, link a pool frame
where a table is missing, write the leaf. An ownership map from frames to paths is the
invariant; from it follow unchanged walks elsewhere, exact frame accounting, an exact
condition for failure, and a proper tree over any run. `Sv39`, `Aarch64Paging` and
`EarlyTables` hold the three mappers as methods on an array of frames, each proved to
compute that algorithm with its own bit patterns (`Bits`), next to a hardware walker
written from the architecture (sections 4.3.2 and 4.4 of the RISC-V Privileged
Architecture; section D5.3 of the Arm Architecture Reference Manual for VMSAv8-64,
shared in `Vmsa`). The walkers, not the mappers, say what a table means.
`PagingSimulation` runs the Sv39 and AArch64 mappers in lockstep.

**Traps and process switches.** `Threads` is the abstract machine: independent threads,
each with a private register file. `RiscvTrap` and `Aarch64Trap` interpret the assembly
of the trap vectors and of the full and fast context paths, and hold the Rust handlers
as classes over registers and memory. `RiscvThreads` and `Aarch64Threads` prove that any
run of traps, nested interrupts, switches and user code on the machine is a run of the
abstract threads. On RISC-V the trap vector pushes its frame on the stack of the thread
it interrupts; `RiscvStack` says exactly when that does no harm to another thread, and
`RiscvExactly` exactly which traps are steps of the threads. `Aarch64Nesting` says which
exceptions are, when interrupts are nested in their handlers. `RiscvCauses` and
`Aarch64Causes` say what each cause does by its architectural number.
`Wfi` is the wait-for-interrupt protocol under every interleaving of nested interrupts.

**Supporting cores.** `GenericTimer` (ticks and nanoseconds), `ElfLoader` and
`KernelLoader` (the image parser and the segment loader), `IpcMessages`, `IpcCodec`,
`IpcShapes` and `IpcWire` (the twelve message codecs against one table of shapes and one
of word positions), `Manifest` and `FirmwareMap` (the firmware memory map to the boot
manifest) and `SignedToken` (capability tokens).

Machine words are natural numbers below 2^64; every wrap, truncation and mask is written
out. `LittleEndian` and `WordMemory` are byte and word access, `Options` the missing value.

## Model

| member | source | states |
|---|---|---|
| PageTree.DescendKeeps | hal/hal-riscv64/src/cpu.rs:1667-1703 | walking down, with tables linked on the way, keeps the tree owned, changes no walk, and takes exactly the frames of the tables that were missing; when the pool runs out exactly the first missing ones are linked |
| PageTree.MapPageKeeps | hal/hal-riscv64/src/cpu.rs:1667-1710 | one page: its walk ends on the new leaf and every other walk where it did; a superpage refuses it untouched; otherwise frames used equal tables missing, and it fails only when the pool is short |
| PageTree.MapPagesKeeps | hal/hal-riscv64/src/cpu.rs:1648-1713 | a whole range: success if and only if no superpage covers a page and the missing tables fit the pool, the count is then the number of distinct missing tables, and the served prefix is the only change |
| PageTree.MissingIsUnowned | hal/hal-riscv64/src/cpu.rs:1667-1703 | the tables that accounting counts are those no walk from the root reaches |
| PageTree.ServedAll | hal/hal-riscv64/src/cpu.rs:1661-1713 | every page was served exactly when the call succeeded |
| PageTree.FailureIsFinal | hal/hal-riscv64/src/cpu.rs:1673-1704 | after the first failing page nothing more is written |
| PageTree.CoveredStays | hal/hal-riscv64/src/cpu.rs:1678-1699 | superpages are neither overwritten nor created by any range, in both directions |
| PageTree.RunKeepsTree | hal/hal-riscv64/src/cpu.rs:1639-1714 | over any run of calls with disjoint fresh pools the tables stay a proper tree: old tables keep their place, new ones come from the pools only |
| PageTree.OneLinkPerTable | hal/hal-riscv64/src/cpu.rs:1667-1703 | in such a tree no table is linked from two slots and the root from none |
| PageTree.TablesAreOwned | hal/hal-riscv64/src/cpu.rs:1667-1703 | a path is owned if and only if the walk from the root reaches a table there |
| Va39.CountIsSmall | hal/hal-riscv64/src/cpu.rs:1627-1713 | a successful count is at most 512 + 512*512, so it never reads as the error value |
| Va39.CountsTables | hal/hal-riscv64/src/cpu.rs:1656-1713 | a batch succeeds if and only if no superpage covers a page of it and the tables it needs and does not own fit the pool; it then uses exactly as many, the first frames of the pool |
| Va39.LatestOfRun | hal/hal-riscv64/src/cpu.rs:1661-1712 | the leaf a range asks for at a page is that of the last page of the range with the same three indices, and there is none if it has no such page, for ranges of any length anywhere |
| Va39.PathsAgree | hal/hal-riscv64/src/cpu.rs:1664-1666 | two pages share their three indices if and only if they are equal modulo 2^27 |
| Va39.CallKeeps | hal/hal-riscv64/src/cpu.rs:1639-1714 | an accepted call has the accounting, failure and framing of MapPagesKeeps, for either leaf format |
| Va39.GigapageStays | hal/hal-arm64/src/cpu.rs:2306-2322 | a gigapage of a bare root survives any run of calls, and the run leaves a proper tree |
| Va39.GigapageRefuses | hal/hal-riscv64/src/cpu.rs:1678-1679 | after any run, a call starting under a gigapage is refused and writes nothing |
| Sv39.NextTableAt | hal/hal-riscv64/src/cpu.rs:1667-1703 | one level of the loop follows or links a table exactly as the algorithm does |
| Sv39.MapOnePage | hal/hal-riscv64/src/cpu.rs:1659-1712 | one round of the loop on the array of frames is MapPage with the Sv39 leaf word |
| Sv39.MapRange | hal/hal-riscv64/src/cpu.rs:1639-1714 | a null root, an empty or an unaligned range answers 0xFFFF_FFFF and changes nothing; any other call answers something else if and only if no superpage covers a page and the tables the range needs and the tree lacks fit the pool, and then the number of those tables, which are the first frames of the pool |
| Sv39.MapRamIdentity | hal/hal-riscv64/src/cpu.rs:1354-1377 | the root holds identity gigapages below the limit, zero above, and no other frame changes |
| Sv39.WalkFinds | hal/hal-riscv64/src/cpu.rs:1639-1714 | the architecture's Sv39 walk of an owned tree ends where the abstract walk does, checks included |
| Sv39.TranslateFinds | hal/hal-riscv64/src/cpu.rs:1639-1714 | the same for whole translations, canonical check included |
| Sv39.LeafMeaning | hal/hal-riscv64/src/cpu.rs:1651-1655 | what the hardware makes of a packed leaf, for all permission words: the right frame, for exactly the accesses granted |
| Sv39.MappedPagesTranslate | hal/hal-riscv64/src/cpu.rs:1661-1713 | addresses of served pages, and their aliases modulo 2^27 pages, translate to their targets with the requested rights, all others as before |
| Sv39.CallTranslates | hal/hal-riscv64/src/cpu.rs:1639-1714 | the same for every accepted call at any address, failing ones included: a prefix is mapped, all of it exactly on success |
| Sv39.RangeTranslates | hal/hal-riscv64/src/cpu.rs:1639-1714 | within either canonical half a range has no other aliases: exactly its own addresses are translated anew, each to its own target |
| Sv39.GigapageMeaning | hal/hal-riscv64/src/cpu.rs:1354-1377 | an identity entry translates its whole GiB to itself for exactly the accesses its user bit allows |
| Sv39.IdentityIsPermanent | hal/hal-riscv64/src/cpu.rs:1354-1377 | after any sequence of later calls every canonical address below the limit still translates to itself |
| Sv39.IdentityRefuses | hal/hal-riscv64/src/cpu.rs:1678-1679 | and any call starting there is refused, leaving memory as it was |
| Aarch64Paging.MapOnePage | hal/hal-arm64/src/cpu.rs:2372-2426 | one round of the loop is MapPage with the VMSAv8-64 page descriptor |
| Aarch64Paging.MapRange | hal/hal-arm64/src/cpu.rs:2340-2428 | as Sv39.MapRange |
| Aarch64Paging.ComputeLeaf | hal/hal-arm64/src/cpu.rs:2352-2369 | the bits set one by one sum to the two attribute fields of the descriptor |
| Aarch64Paging.MapRamIdentity | hal/hal-arm64/src/cpu.rs:2306-2322 | as Sv39.MapRamIdentity |
| Aarch64Paging.TranslateFinds | hal/hal-arm64/src/cpu.rs:2340-2428 | the VMSAv8-64 walk of an owned tree ends where the abstract walk does |
| Aarch64Paging.LeafMeaning | hal/hal-arm64/src/cpu.rs:2352-2369 | what the hardware makes of a leaf for every permission word: the right frame, inner-shareable write-back memory, for exactly the accesses granted, PXN and UXN included |
| Aarch64Paging.MappedPagesTranslate | hal/hal-arm64/src/cpu.rs:2370-2428 | as Sv39.MappedPagesTranslate, over the 39-bit window |
| Aarch64Paging.CallTranslates | hal/hal-arm64/src/cpu.rs:2340-2428 | as Sv39.CallTranslates |
| Aarch64Paging.RangeTranslates | hal/hal-arm64/src/cpu.rs:2340-2428 | as Sv39.RangeTranslates, for ranges inside the window |
| Aarch64Paging.BlockMeaning | hal/hal-arm64/src/cpu.rs:2306-2322 | an identity block translates its whole GiB to itself, as inner-shareable write-back memory, for exactly the accesses its attributes allow |
| Aarch64Paging.IdentityIsPermanent | hal/hal-arm64/src/cpu.rs:2306-2322 | as Sv39.IdentityIsPermanent, for all 512 GiB |
| Aarch64Paging.IdentityRefuses | hal/hal-arm64/src/cpu.rs:2340-2428 | as Sv39.IdentityRefuses |
| Vmsa.WalkFinds | hal/hal-arm64/src/cpu.rs:2340-2428 | the descriptor walk, hierarchical permission limits included, agrees with the abstract walk at every level of a three- or four-level tree |
| Vmsa.DescriptorMeaning | hal/hal-arm64/src/memory.rs:600-607 | what the hardware makes of any descriptor, bit by bit: output address, accesses, and memory type through MAIR_EL1 and the shareability field |
| PagingSimulation.SamePages | hal/hal-arm64/src/cpu.rs:2340-2428 | any two word formats and corresponding leaves: both sides stop at the same page with the same count, and the tables correspond again, failing ranges included |
| PagingSimulation.LeavesAgree | hal/hal-arm64/src/cpu.rs:2352-2369 | the two leaf encodings allow the same accesses if and only if READ was asked for |
| PagingSimulation.GigapagesAgree | hal/hal-arm64/src/cpu.rs:2306-2322 | identity entries read alike except to a user fetch from a kernel-only one |
| PagingSimulation.CallInStep | hal/hal-arm64/src/cpu.rs:2340-2428 | one call on corresponding tables, for any correspondence the two leaves respect: same outcome, same count, corresponding tables |
| PagingSimulation.RunsInStep | hal/hal-arm64/src/cpu.rs:2340-2428 | the same over any run of calls |
| PagingSimulation.StepInRun | hal/hal-arm64/src/cpu.rs:2340-2428 | after any run, the next call agrees too |
| PagingSimulation.IdentityAlike | hal/hal-arm64/src/cpu.rs:2306-2322 | the two identity roots correspond |
| PagingSimulation.MappersAnswerAlike | hal/hal-arm64/src/cpu.rs:2340-2428 | from the identity tables, after any run, the next map_range has the same outcome and uses the same number of frames on both architectures, whatever permissions and addresses the calls have; by the contracts of both MapRange methods that outcome and number are what they answer |
| PagingSimulation.MappersTranslateAlike | hal/hal-arm64/src/cpu.rs:2306-2428 | every access below 2^38 is answered alike by both walkers, except exactly the user fetch from a kernel-only identity region |
| EarlyTables.StaticTables.AllocTable | hal/hal-arm64/src/memory.rs:367-378 | the next pool frame, or the error once sixteen are gone |
| EarlyTables.StaticTables.NextTable | hal/hal-arm64/src/memory.rs:405-418 | one level follows or links a table exactly as the algorithm does |
| EarlyTables.StaticTables.MapPage | hal/hal-arm64/src/memory.rs:393-429 | one page on the four-level tables is the specification's MapPage |
| EarlyTables.StaticTables.SetupIdentityMapping | hal/hal-arm64/src/memory.rs:555-575 | an empty region is an error and no change; otherwise the loop maps the pages of the region onto themselves and answers the aligned start, with exact accounting |
| EarlyTables.PermissionsToFlags | hal/hal-arm64/src/memory.rs:431-459 | the flags are the two attribute fields of the descriptor, the memory type in bits 4 to 2 with it: WRITABLE and READABLE leave no trace in them |
| EarlyTables.PagesOverlap | hal/hal-arm64/src/memory.rs:560-563 | the pages visited are exactly those the region overlaps |
| EarlyTables.AlignedDown | hal/hal-core/src/memory.rs:66-72 | the alignment mask is rounding down to a page |
| EarlyTables.NextCountsTables | hal/hal-arm64/src/memory.rs:362-378 | TABLE_POOL_NEXT is the number of distinct interior tables linked |
| EarlyTables.RegionSucceeds | hal/hal-arm64/src/memory.rs:555-575 | a region is mapped if and only if the missing tables fit what is left of the pool |
| EarlyTables.RemapIsFree | hal/hal-arm64/src/memory.rs:393-429 | mapping a mapped region again, with any permissions, succeeds and takes no table |
| EarlyTables.PageMeaning | hal/hal-arm64/src/memory.rs:431-459 | what the hardware allows on a mapped page, for every combination of permissions, and its memory type: Device-nGnRnE if and only if device_uncached was asked for, else inner-shareable write-back |
| EarlyTables.TranslateFinds | hal/hal-arm64/src/memory.rs:393-429 | the four-level walk ends where the abstract walk does |
| EarlyTables.RegionTranslates | hal/hal-arm64/src/memory.rs:555-575 | served pages translate to themselves with the granted accesses, as Device memory if and only if asked for, everything else as before; on success they are exactly the overlapped pages |
| Threads.Rests | hal/hal-riscv64/src/cpu.rs:449-682 | a trap leaves alone every thread that neither runs, runs next, nor is given a result |
| Threads.RestsThrough | hal/hal-riscv64/src/cpu.rs:449-682 | and so does any history of them |
| Threads.FullSwitchKeepsAll | hal/hal-riscv64/src/cpu.rs:956-1046 | from the trap that switches a thread out fully to the one that switches it in, whatever ran between: every register but for the last results written for it, its space and the right pc |
| Threads.HandoffKeeps | hal/hal-riscv64/src/cpu.rs:1089-1182 | with a handoff on either side, the kept registers but for the last results; after a handoff in, zero in all others |
| Threads.ComesBack | hal/hal-riscv64/src/cpu.rs:956-1182 | the general form of both: the thread comes back as the context it was parked in and the results written since |
| RiscvTrap.EntryEffect | hal/hal-riscv64/src/cpu.rs:185-230 | the entry assembly, instruction by instruction, stores x1 to x31 below the stack pointer, with sp already moved by 248 |
| RiscvTrap.ReturnEffect | hal/hal-riscv64/src/cpu.rs:232-263 | the return assembly reloads every register and steps sp back |
| RiscvTrap.RestoreEffect | hal/hal-riscv64/src/cpu.rs:956-1005 | the restore assembly and sret resume all 31 registers, sepc, sstatus and satp of the context, the pointer register last |
| RiscvTrap.FastRestoreEffect | hal/hal-riscv64/src/cpu.rs:1135-1181 | the fast restore is a function of the context alone, zero in every register it does not keep |
| RiscvTrap.FreshStatusIsUser | hal/hal-riscv64/src/cpu.rs:1466-1517 | returning with a new thread's sstatus enters U-mode with SIE set |
| RiscvTrap.FreshStatusBits | hal/hal-riscv64/src/cpu.rs:1503-1515 | of the live sstatus, bit 5 is set, bit 8 cleared and every other bit kept |
| RiscvTrap.FreshSatpFields | hal/hal-riscv64/src/cpu.rs:1466-1517 | a new thread's satp selects Sv39 and the root's page number |
| RiscvTrap.TrapHalts | hal/hal-riscv64/src/cpu.rs:451-682 | on a stack with room for the frame, a trap from U-mode halts the machine if and only if bit 63 of scause is clear and no handler is registered |
| RiscvTrap.EcallAnswers | hal/hal-riscv64/src/cpu.rs:544-579 | cause 8 with Resume or Resume2: back in U-mode at pc + 4, x10 and x11 holding the values, every other register and satp as they were, interrupts nested or not |
| RiscvTrap.Core.Execute | hal/hal-riscv64/src/cpu.rs:177-263 | running code on the registers and memory in place is the interpreter's result |
| RiscvTrap.Core.SaveTrapFrameAsUserContext | hal/hal-riscv64/src/cpu.rs:1019-1046 | the context receives the frame's registers with sp corrected, the resume pc, sstatus with SPP clear, satp, and nothing else changes |
| RiscvTrap.Core.SaveIpcFastContext | hal/hal-riscv64/src/cpu.rs:1089-1115 | only the kept slots and the system registers of the context change |
| RiscvTrap.Core.PokeSavedA0A1 | hal/hal-riscv64/src/cpu.rs:848-860 | only the a0 and a1 slots of the context change |
| RiscvTrap.Core.InitUserContext | hal/hal-riscv64/src/cpu.rs:1466-1517 | clearing the context and setting sp, sepc, satp by either branch, and sstatus bit by bit, makes the context of a thread at its entry point and touches nothing else |
| RiscvTrap.Core.CommonTrapEntry | hal/hal-riscv64/src/cpu.rs:451-682 | the sign test and top-bit mask on scause and the dispatch on cause and outcome, in place, do what the architecture's cause table calls for, arm by arm |
| RiscvTrap.Core.TakeTrap | hal/hal-riscv64/src/cpu.rs:177-682 | a whole trap, hardware entry to resumption, is the specification's; it halts if and only if scause has bit 63 clear and there is no handler, and an ecall (8) answered Resume goes on in U-mode 4 bytes on with the value in x10 and all else kept |
| RiscvThreads.TrueStackPointer | hal/hal-riscv64/src/cpu.rs:1019-1046 | the 248-byte correction recovers the register file the thread trapped with |
| RiscvThreads.FullParked | hal/hal-riscv64/src/cpu.rs:1019-1046 | a full save makes a context that resumes the thread with everything it had, in U-mode |
| RiscvThreads.FastParked | hal/hal-riscv64/src/cpu.rs:1089-1115 | a fast save makes one that resumes it with the kept registers |
| RiscvThreads.FreshIsResumable | hal/hal-riscv64/src/cpu.rs:1466-1517 | an initialised context resumes a new thread at its entry |
| RiscvThreads.SwitchRefines | hal/hal-riscv64/src/cpu.rs:580-609 | save and restore together are the abstract switch or handoff |
| RiscvThreads.AnswerRefines | hal/hal-riscv64/src/cpu.rs:566-579 | Resume and Resume2 deliver a0 and a1 and go on at sepc + 4, changing nothing else |
| RiscvThreads.KillRefines | hal/hal-riscv64/src/cpu.rs:610-622 | Terminate resumes the next thread and never the old one |
| RiscvThreads.UnchangedRefines | hal/hal-riscv64/src/cpu.rs:476-543 | a trap that changes nothing resumes the thread where it was if and only if sepc still names that place |
| RiscvThreads.CommonRefines | hal/hal-riscv64/src/cpu.rs:451-682 | every arm of the handler that resumes a thread is one abstract decision |
| RiscvThreads.TrapRefines | hal/hal-riscv64/src/cpu.rs:177-682 | on a clear stack, one undisturbed trap of any kind with any answer halts if and only if it is fatal and unhandled, and is one abstract step otherwise |
| RiscvThreads.HandledRefines | hal/hal-riscv64/src/cpu.rs:177-682 | on a clear stack, a trap that does not halt is one abstract step if and only if it answers, switches or kills, or sepc is as the trap left it |
| RiscvThreads.RunRefines | hal/hal-riscv64/src/cpu.rs:177-1182 | every run of user code and undisturbed traps on stacks clear of the contexts is a run of independent threads, always resumed in U-mode; it stops short if and only if a fatal trap has no handler |
| RiscvThreads.SuspendedThreadReturns | hal/hal-riscv64/src/cpu.rs:177-1182 | on the hart, from the trap that switches a thread out to the next that switches it in, x, satp and pc (+ 4 exactly if scause was 8) are those it trapped with, a0 and a1 being the last results written; handoffs keep their registers and zero the rest |
| RiscvThreads.BootedRunRefines | hal/hal-riscv64/src/cpu.rs:1466-1532 | from any number of initialised contexts, one of them resumed, such a run is a run of threads that start at their entries with zero registers but their stacks |
| RiscvStack.StackReadyExactly | hal/hal-riscv64/src/cpu.rs:185-223 | the 31 stores of the entry path fall in memory if and only if the stack pointer is aligned with room below it |
| RiscvStack.FinalWords | hal/hal-riscv64/src/cpu.rs:177-682 | every word a trap leaves in the context of a thread it did not interrupt, for any cause and answer and any stack pointer |
| RiscvStack.StackHarm | hal/hal-riscv64/src/cpu.rs:185-223 | after any trap another living thread is found in its context, registers, pc, space, U-mode and results, if and only if each frame word that falls on it writes what belongs there |
| RiscvStack.ClearIsHarmless | hal/hal-riscv64/src/cpu.rs:185-223 | a frame that misses a context is harmless to it |
| RiscvStack.HarmedTrapStrays | hal/hal-riscv64/src/cpu.rs:185-223 | a trap whose frame harms a living context it does not resume is no step of independent threads |
| RiscvStack.UnchangedTrapExactly | hal/hal-riscv64/src/cpu.rs:476-543 | a trap that changes nothing is a step of independent threads if and only if its frame is harmless to every context, the interrupted thread's own included |
| RiscvStack.StackInContext | hal/hal-riscv64/src/cpu.rs:185-223 | a stack pointer 248 bytes into another thread's context: a tick replaces that thread's registers by the trapping thread's |
| RiscvStack.HarmfulStack | hal/hal-riscv64/src/cpu.rs:185-223 | a concrete machine and two threads on which this happens |
| RiscvExactly.TrapExactly | hal/hal-riscv64/src/cpu.rs:177-682 | any trap that does not halt, of any kind, with any answer, results and stack with room: it is a step of independent threads if and only if its frame is harmless to the other living contexts and to what is kept of its own, the words still needed of it survive the results written, and sepc is undisturbed where it is used |
| RiscvExactly.WokenExactly | hal/hal-riscv64/src/cpu.rs:956-1182 | a restore of either kind runs the threads on if and only if every living one can be resumed from its context |
| RiscvExactly.ReturnedExactly | hal/hal-riscv64/src/cpu.rs:232-263 | the return path runs the thread on if and only if its frame, sepc and all contexts are right |
| RiscvCauses.SwitchByCause | hal/hal-riscv64/src/cpu.rs:463-667 | a switch on cause 8, 2^63 + 5 or any other exception saves all registers, satp and pc + 4 for cause 8, pc for the others, and runs what the next context holds; SwitchToFast does the same for all causes but 8 |
| RiscvCauses.EcallHandsOff | hal/hal-riscv64/src/cpu.rs:596-609 | a handoff out of cause 8, register by register: ra, sp, gp, tp, s0 to s11, a0 and a1 are saved and restored, the other slots keep what they held, the other registers come back zero |
| RiscvCauses.TerminateByCause | hal/hal-riscv64/src/cpu.rs:463-675 | Terminate writes no context and runs the next one |
| RiscvCauses.NothingByCause | hal/hal-riscv64/src/cpu.rs:463-643 | an interrupt other than 2^63 + 5 changes nothing whatever the handler would answer; nor does the timer unanswered, or any cause but 8 answered Resume |
| Aarch64Trap.EntryEffect | hal/hal-arm64/src/cpu.rs:313-332 | the EL0 entry assembly stores x0 to x30 below SP_EL1 |
| Aarch64Trap.ReturnEffect | hal/hal-arm64/src/cpu.rs:334-351 | the return assembly reloads them and SP_EL1 |
| Aarch64Trap.SysLoadsEffect | hal/hal-arm64/src/cpu.rs:1822-1865 | each system register is loaded from its own slot, and SP_EL1 goes back to the stack top |
| Aarch64Trap.RestoreEffect | hal/hal-arm64/src/cpu.rs:1822-1865 | the restore assembly and eret resume x0 to x30, SP_EL0, ELR, SPSR and TTBR0 of the context |
| Aarch64Trap.FastRestoreEffect | hal/hal-arm64/src/cpu.rs:1945-2006 | the fast restore is a function of the context alone, zero in every register it does not keep |
| Aarch64Trap.ResumeIgnoresNested | hal/hal-arm64/src/cpu.rs:1199-1274 | Resume and Resume2 return with the ELR, SPSR, TTBR0 and SP_EL0 of the entry after any number of nested IRQs |
| Aarch64Trap.SwitchNeedsQuiet | hal/hal-arm64/src/cpu.rs:1692-1918 | with either save and for any kind of exception, a switch saves the caller's SPSR, and an EL0 one at all, if and only if no IRQ was nested |
| Aarch64Trap.TrapHalts | hal/hal-arm64/src/cpu.rs:1169-1478 | an exception from EL0 halts the machine if and only if it is synchronous and its class, bits 31 to 26 of ESR_EL1, is neither 0x15 nor 0, or there is no handler |
| Aarch64Trap.SvcAnswers | hal/hal-arm64/src/cpu.rs:1207-1274 | class 0x15 with Resume or Resume2: back at EL0 at pc + 4, x0 and x1 holding the values, every other register, PSTATE, SP_EL0 and TTBR0 as they were, IRQs nested or not |
| Aarch64Trap.Processor.SaveFrameAsUserContext | hal/hal-arm64/src/cpu.rs:1692-1714 | the context receives the frame, the resume pc and the live system registers, and nothing else changes |
| Aarch64Trap.Processor.SaveIpcFastContext | hal/hal-arm64/src/cpu.rs:1895-1918 | only the kept slots and the system registers of the context change |
| Aarch64Trap.Processor.PokeSavedA0A1 | hal/hal-arm64/src/cpu.rs:2027-2034 | only the x0 and x1 slots of the context change |
| Aarch64Trap.Processor.InitUserContext | hal/hal-arm64/src/cpu.rs:826-861 | clearing the context and setting SP_EL0, ELR, SPSR and TTBR0 by either branch makes the context of a thread at its entry point and touches nothing else |
| Aarch64Trap.Processor.EnterUser | hal/hal-arm64/src/cpu.rs:801-824 | the first entry to EL0, leaving SP_EL1 where it is |
| Aarch64Trap.Processor.CommonEntry | hal/hal-arm64/src/cpu.rs:1169-1478 | the dispatch of both EL0 handlers, from the shifted and masked ESR_EL1 or the interrupt number, in place, does what the architecture's classes call for, arm by arm |
| Aarch64Trap.Processor.TakeException | hal/hal-arm64/src/cpu.rs:289-407 | a whole exception from EL0, by its syndrome or interrupt number, is the specification's; it halts exactly as TrapHalts says, and class 0x15 answered Resume goes on at pc + 4 with the value in x0 and all else kept |
| Aarch64Threads.FullParked | hal/hal-arm64/src/cpu.rs:1692-1714 | a full save makes a context that resumes the thread with everything it had |
| Aarch64Threads.FastParked | hal/hal-arm64/src/cpu.rs:1895-1918 | a fast save makes one that resumes it with the kept registers |
| Aarch64Threads.FreshIsResumable | hal/hal-arm64/src/cpu.rs:826-861 | an initialised context resumes a new thread at EL0 at its entry |
| Aarch64Threads.FirstEntry | hal/hal-arm64/src/cpu.rs:801-824 | enter_user starts the run and fixes the first place of SP_EL1 |
| Aarch64Threads.SwitchRefines | hal/hal-arm64/src/cpu.rs:1275-1300 | save and restore together are the abstract switch or handoff |
| Aarch64Threads.AnswerRefines | hal/hal-arm64/src/cpu.rs:1223-1274 | Resume and Resume2 deliver x0 and x1 and go on after the svc |
| Aarch64Threads.UnchangedRefines | hal/hal-arm64/src/cpu.rs:1412-1478 | an exception that changes nothing resumes the thread where it was if and only if ELR and SPSR are untouched |
| Aarch64Threads.CommonRefines | hal/hal-arm64/src/cpu.rs:1169-1478 | every arm of the handlers that resumes a thread is one abstract decision |
| Aarch64Threads.TrapRefines | hal/hal-arm64/src/cpu.rs:289-407 | one undisturbed exception of any kind with any answer halts if and only if it is fatal, and is one abstract step otherwise |
| Aarch64Threads.RunRefines | hal/hal-arm64/src/cpu.rs:158-2006 | every run of EL0 code and undisturbed exceptions is a run of independent threads, stops short if and only if it meets a fatal exception, and SP_EL1 at EL0 is always where it first entered EL0 or the boot stack top |
| Aarch64Threads.SuspendedThreadReturns | hal/hal-arm64/src/cpu.rs:158-2006 | on the core, from the exception that switches a thread out to the next that switches it in, x0 to x30, SP_EL0, PSTATE, TTBR0 and pc (+ 4 exactly for class 0x15) are those it trapped with, x0 and x1 being the last results written; handoffs keep their registers and zero the rest |
| Aarch64Threads.BootedRunRefines | hal/hal-arm64/src/cpu.rs:826-871 | the same from initialised contexts and resume_user, with SP_EL1 at the boot stack top whenever EL0 code runs |
| Aarch64Nesting.NestingExactly | hal/hal-arm64/src/cpu.rs:1169-1478 | any exception that does not halt, of any kind, with any answer and results: it is a step of independent threads if and only if no IRQ was nested in its handler, or it drops the thread, or is a system call's own return |
| Aarch64Causes.SwitchByCause | hal/hal-arm64/src/cpu.rs:1207-1478 | a switch on class 0x15, class 0 or interrupt 30 saves all registers, SP_EL0, TTBR0, the PSTATE if no IRQ was nested, and pc + 4 for class 0x15, pc for the others, and runs what the next context holds; SwitchToFast does the same but for class 0x15 |
| Aarch64Causes.SvcHandsOff | hal/hal-arm64/src/cpu.rs:1291-1300 | a handoff out of class 0x15, register by register: x0, x1 and x19 to x30 are saved and restored, the other slots keep what they held, the other registers come back zero |
| Aarch64Causes.TerminateByCause | hal/hal-arm64/src/cpu.rs:1207-1478 | Terminate writes no context and runs the next one |
| Aarch64Causes.NothingByCause | hal/hal-arm64/src/cpu.rs:1412-1478 | an interrupt other than 30 changes nothing whatever the handler would answer; nor does 30 unanswered or answered Resume |
| Aarch64Causes.FaultAnswers | hal/hal-arm64/src/cpu.rs:1312-1342 | class 0 with Resume or Resume2 goes to the fault handler: back at the faulting pc with x0 and x1 holding the values |
| Wfi.PushesEffect | hal/hal-arm64/src/cpu.rs:247-287 | the IRQ trampoline's pushes lay the registers out in order |
| Wfi.IrqBalanced | hal/hal-arm64/src/cpu.rs:247-287 | the IRQ trampoline restores x0 to x30 and SP_EL1 around any handler that keeps its frame |
| Wfi.DuringKept | hal/hal-arm64/src/cpu.rs:2100-2118 | every step of a wfi call, interrupts included, keeps its invariant |
| Wfi.EveryStepProgresses | hal/hal-arm64/src/cpu.rs:2100-2118 | every step lowers outstanding interrupts or instructions left |
| Wfi.WfiReturnsOnce | hal/hal-arm64/src/cpu.rs:420-447 | under every interleaving the call returns to its caller with registers, stack and mask restored; once an IRQ was served it never blocks and can run on until it is back; waiting for a first IRQ is the only state in which it cannot |
| Wfi.WfiReturns | hal/hal-arm64/src/cpu.rs:2100-2118 | a call that was served, found an IRQ pending or had one raised is in its caller wherever it cannot run on, and cannot run on for ever; any other that cannot run on waits for its first IRQ |
| Wfi.WfiTerminates | hal/hal-arm64/src/cpu.rs:2100-2118 | no run of a call is longer than its interrupts and instructions allow |
| Wfi.WithoutRedirectBlocks | hal/hal-arm64/src/cpu.rs:420-447 | without the redirect of ELR the same call can be stuck in wfi after its IRQ was served |
| GenericTimer.Timer.NowNs | hal/hal-arm64/src/timer.rs:196-199 | the time of one counter sample, truncated to 64 bits |
| GenericTimer.Timer.SetOneshot | hal/hal-arm64/src/timer.rs:201-222 | accepts exactly the deadlines after the sample; the comparator is on time if and only if the deadline's ticks fit 64 bits, and then fires at every time from the deadline on and never more than a tick before; a refusal leaves it alone |
| GenericTimer.Timer.CancelOneshot | hal/hal-arm64/src/timer.rs:224-237 | the comparator is the largest value |
| GenericTimer.WholeSeconds | hal/hal-arm64/src/timer.rs:184-199 | s seconds are s times the frequency in ticks and s times 10^9 nanoseconds, both ways |
| GenericTimer.TickIsRoundedUp | hal/hal-arm64/src/timer.rs:184-199 | the tick length in the timing promise is the least whole number of nanoseconds that covers a tick |
| GenericTimer.NotBeforeSample | hal/hal-arm64/src/timer.rs:184-222 | the comparator is not before the sample |
| GenericTimer.NotAfterDeadline | hal/hal-arm64/src/timer.rs:184-222 | time at the comparator reads at most the deadline |
| GenericTimer.ShortByATick | hal/hal-arm64/src/timer.rs:184-222 | and short of it by at most one tick, rounded up |
| GenericTimer.NeverLate | hal/hal-arm64/src/timer.rs:184-222 | once time reads the deadline the comparator has fired |
| GenericTimer.FiresAroundDeadline | hal/hal-arm64/src/timer.rs:184-222 | both bounds on the programmed 64-bit value |
| GenericTimer.OnTimeIffItFits | hal/hal-arm64/src/timer.rs:184-186 | the timing promise holds if and only if the tick count is not truncated |
| GenericTimer.NowIsMonotone | hal/hal-arm64/src/timer.rs:196-199 | time never goes back while it fits 64 bits |
| GenericTimer.NowFallsAtWrap | hal/hal-arm64/src/timer.rs:196-199 | and does at the first count where it does not |
| ElfLoader.ParseIsTotal | elf-loader/src/lib.rs:139-222 | on any bytes, entries of at least 48 bytes mean every read is in bounds |
| ElfLoader.ParsePanicsExactly | elf-loader/src/lib.rs:139-222 | an image makes the parser read outside its input if and only if its header is accepted, its table lies in the file and some entry needs bytes past the end, 48 if it is PT_LOAD and 4 otherwise |
| ElfLoader.HeaderAcceptedExactly | elf-loader/src/lib.rs:139-170 | byte by byte: a header is accepted if and only if it has 64 bytes, 0x7F E L F, class 2, data 1, type 2 and the expected machine, and the first of these to fail, in that order, is the error |
| ElfLoader.ShortEntriesPanic | elf-loader/src/lib.rs:198-211 | for every smaller entry size some accepted image makes it read outside |
| ElfLoader.HeaderParses | elf-loader/src/lib.rs:139-170 | the header of any printed image is accepted and read back |
| ElfLoader.EntryParses | elf-loader/src/lib.rs:198-219 | a printed program header is read back, and kept exactly if it is PT_LOAD |
| ElfLoader.ParseUndoesBuild | elf-loader/src/lib.rs:179-276 | parsing a printed image gives its entry and its PT_LOAD headers in order, for any machine and any headers |
| KernelLoader.Machine.AllocatePages | uefi-bootloader/src/main.rs:119-124 | a fixed-address allocation succeeds if and only if all its pages exist and are free |
| KernelLoader.Machine.CopySegment | uefi-bootloader/src/main.rs:131-150 | the segment holds its file bytes, then zeros, and no other byte changes |
| KernelLoader.PagesCounted | uefi-bootloader/src/main.rs:108-124 | the rounded-up page count from the first page asks for exactly the pages the segment's bytes touch |
| KernelLoader.Machine.LoadKernelSegments | uefi-bootloader/src/main.rs:75-158 | success if and only if the image parses and the 4096-byte pages that segments touch all exist, are free and are touched by one segment only; then every segment, not only the last, is in place, and earlier owners' memory is untouched whatever happens |
| IpcCodec.LabelFields | ipc-protocol/src/lib.rs:87-109 | what the shifts and masks of a label select |
| IpcCodec.LabelIsSum | ipc-protocol/src/lib.rs:101-103 | the label's three fields do not overlap |
| IpcShapes.OpcodeMeaning | ipc-protocol/src/codec.rs:104-112 | the head every decoder shares, and the label a re-encoding gives |
| IpcShapes.FsRequestMeets | ipc-protocol/src/codec.rs:67-162 | on every message the decoder reports the error the table calls for, or a value that re-encodes to the message's normal form |
| IpcShapes.FsResponseMeets | ipc-protocol/src/codec.rs:186-264 | the same |
| IpcShapes.DriverRequestMeets | ipc-protocol/src/codec.rs:282-364 | the same |
| IpcShapes.DriverResponseMeets | ipc-protocol/src/codec.rs:385-455 | the same |
| IpcShapes.DisplayRequestMeets | ipc-protocol/src/codec.rs:470-535 | the same |
| IpcShapes.DisplayResponseMeets | ipc-protocol/src/codec.rs:554-635 | the same |
| IpcShapes.MmRequestMeets | ipc-protocol/src/codec.rs:648-810 | the same; Register and UnregisterSwapRegion gain a zero word, an absent preference clears the kind |
| IpcShapes.MmResponseMeets | ipc-protocol/src/codec.rs:835-919 | the same |
| IpcShapes.NetBypassRequestMeets | ipc-protocol/src/codec.rs:932-973 | the same |
| IpcShapes.NetBypassResponseMeets | ipc-protocol/src/codec.rs:988-1037 | the same |
| IpcShapes.SecurityRequestMeets | ipc-protocol/src/codec.rs:1048-1096 | the same |
| IpcShapes.SecurityResponseMeets | ipc-protocol/src/codec.rs:1111-1150 | the same; words are checked before the opcode here only |
| IpcShapes.DecodersMeetTheTable | ipc-protocol/src/codec.rs:67-1150 | all twelve at once |
| IpcShapes.RoundTrip | ipc-protocol/src/codec.rs:67-1150 | decoding an encoded value of any of the twelve types gives it back |
| IpcShapes.DecodesExactly | ipc-protocol/src/codec.rs:67-1150 | acceptance and the first error are exactly the table's |
| IpcShapes.ReencodesToNormalForm | ipc-protocol/src/codec.rs:67-1150 | re-encoding a decoded message gives the explicit normal form: surplus words dropped, 32-bit fields masked, label bits 24 to 55 cleared |
| IpcShapes.AlikeIffSameNormalForm | ipc-protocol/src/codec.rs:67-1150 | two messages decode alike if and only if their normal forms agree |
| IpcShapes.NormalFormIsStable | ipc-protocol/src/codec.rs:67-1150 | a normal form decodes like its original and is its own normal form |
| IpcShapes.EncodedIffNormal | ipc-protocol/src/codec.rs:67-1150 | the messages encoders produce are exactly the accepted ones in normal form |
| IpcShapes.OneNamespaceAnswers | ipc-protocol/src/lib.rs:87-97 | at most one namespace's decoders get past the namespace check |
| IpcShapes.ForeignMessagesAreRefused | ipc-protocol/src/lib.rs:87-103 | an encoded message is refused as foreign by exactly the other namespaces |
| IpcWire.DecodedIsCarried | ipc-protocol/src/codec.rs:67-1150 | a decoded value is the one its message carries by number: namespace 1 to 6 in the top byte, version 1, the opcode in the low byte, each field whole or in 32 bits in its own word, error codes and kinds by their place in their lists |
| IpcWire.EncodedIsCarried | ipc-protocol/src/codec.rs:67-1150 | and an encoder puts each field there |
| Manifest.DescriptorIter.Next | hal/hal-arm64/src/memory.rs:135-154 | yields the map's entries in order, each once, and stops after the last whole one |
| Manifest.EntriesLeft | hal/hal-arm64/src/memory.rs:144-147 | the bytes left suffice exactly while entries are left |
| Manifest.Memory.FromUefiMemoryMap | hal/hal-arm64/src/memory.rs:482-528 | holds the first 256 regions of the map in order, marked if an SMMU was found, and counts the rest |
| FirmwareMap.PrintedMapIsHeld | hal/hal-arm64/src/memory.rs:92-131 | for a map printed from any descriptors (fields of 4, 4, 8, 8, 8, 8 bytes and any padding, entries of any size from 40), the regions held are the first 256 descriptors' in order, each with its physical start, 4096 bytes a page modulo 2^64, the kind for its UEFI type and the SMMU mark, and the others are counted |
| FirmwareMap.RegionsOfPrinted | hal/hal-arm64/src/memory.rs:482-505 | one region for each printed descriptor, whatever follows the map: Usable for types 1, 2, 3, 4, 7, AcpiReclaimable for 9, AcpiNvs for 10, Mmio for 11 and 12, Reserved for all others |
| FirmwareMap.ShortEntriesHoldNothing | hal/hal-arm64/src/memory.rs:144-147 | a map whose entries are under 40 bytes holds no region |
| Manifest.HardwareManifest.PushMemoryRegion | hal/hal-manifest/src/raw.rs:672-681 | appends or counts, and touches no other table |
| Manifest.HardwareManifest.PushComputeDevice | hal/hal-manifest/src/raw.rs:685-699 | the same, the device taking its slot's number |
| Manifest.HardwareManifest.PushPeripheralDevice | hal/hal-manifest/src/raw.rs:703-713 | the same |
| Manifest.HardwareManifest.PushPowerDomain | hal/hal-manifest/src/raw.rs:717-726 | as PushMemoryRegion |
| Manifest.PushKeepsAccount | hal/hal-manifest/src/raw.rs:672-681 | pushing one more keeps a table equal to the account of all offered so far |
| Manifest.NothingIsLost | hal/hal-manifest/src/raw.rs:603-634 | held plus dropped equals offered if and only if fewer than 2^32 were dropped; the held ones are the first, in order, as many as fit |
| Manifest.TwoStagesAreOne | hal/hal-arm64/src/memory.rs:678-684 | dropping in the scan and folding the count in later is one account |
| Manifest.BuiltHardwareManifest | hal/hal-arm64/src/memory.rs:657-693 | the manifest's four tables and their truncation counts from the memory scan and the device lists |
| Manifest.Discover | hal/hal-arm64/src/memory.rs:482-693 | scan and assembly together give the account of the map, and has_truncation says exactly whether something did not fit |
| Manifest.MapIsAccountedFor | hal/hal-arm64/src/memory.rs:678-684 | region count plus truncated count is the number of map entries, with the exact exception |
| SignedToken.EncodeSignedFields | hal/hal-direct/src/ed25519.rs:70-111 | the buffer filled in place holds the 49-byte layout |
| SignedToken.FieldsStandApart | hal/hal-direct/src/ed25519.rs:54-58 | where each field of the layout stands |
| SignedToken.SignedFieldsReadBack | hal/hal-direct/src/ed25519.rs:54-111 | the 49 bytes read back by offset: the domain name at 0, subject at 16, scope tag 0 to 3 at 24 with its numbers at 25 and 33 and zeros after, expiry at 41 |
| SignedToken.PayloadInjective | hal/hal-direct/src/ed25519.rs:80-103 | tag and payload determine the scope, zero padding notwithstanding |
| SignedToken.SignedFieldsInjective | hal/hal-direct/src/ed25519.rs:70-111 | equal signed bytes if and only if equal subject, scope and expiry |
| SignedToken.SignatureReadsBack | hal/hal-direct/src/lib.rs:186-200 | a signature is taken if and only if it has at most 64 bytes; the one just set is the one read, whatever an earlier one left behind |
| SignedToken.AcceptedExactly | hal/hal-direct/src/lib.rs:170-258 | a token made and signed by the constructors is accepted if and only if scope, expiry, the 64-byte length and the verifier all agree |
| SignedToken.SameBytesSameAnswer | hal/hal-direct/src/lib.rs:245-258 | equal signed bytes and equal signatures get equal answers, always |
| SignedToken.AcceptedWasIssued | hal/hal-direct/src/lib.rs:245-258 | under a verifier that accepts only messages of issued tokens, an accepted token claims exactly what an issued one does, for the scope asked, before its expiry |

## Left out

Where the code and its comments disagree the model follows the code:

- The comment on the signed layout says 41 bytes; the layout is 49.
- The ELF parser does not check the entry size, so an image with entries under 48 bytes can make it read outside its input.
- The comments speak of advancing past an `svc`; ELR already points after it and the code adds nothing.
- On AArch64 READ is never encoded: a page mapped without it is readable, where Sv39 makes it unreadable or reserved.
- The early AArch64 mapper has no read-only pages (AP_RW_EL1 is zero), and EL0 may fetch from an executable page.
- A comment in the early mapper calls device memory nGnRE; the MAIR it programs makes it nGnRnE.
- An AArch64 identity region that is not user-accessible can still be fetched from at EL0, where Sv39 refuses.

Weaker than the code, or assumed of callers:

- Sv39.MapRange: ranges whose addresses pass 2^64 are excluded; a debug build stops there.
- Sv39.CallTranslates: physical addresses below 2^56, a range below 2^64, a tree the mapper keeps and a fresh pool; higher addresses do not fit an entry. Neither mapper checks the virtual address, so a range above the window maps its aliases inside it, which the lemma states.
- Sv39.IdentityIsPermanent: later calls stay below 2^64 and bring disjoint fresh pools; addresses from 2^38 to 2^39 fault, being non-canonical.
- Aarch64Paging.MapRange: as Sv39.MapRange.
- Aarch64Paging.CallTranslates: as Sv39.CallTranslates, with physical addresses below 2^40, the size the table descriptors are programmed for.
- PagingSimulation.MappersAnswerAlike: ranges that pass 2^64 are excluded.
- PagingSimulation.MappersTranslateAlike: calls ask for READ and stay below physical 2^40, and supervisor access to user pages (SUM) is on.
- EarlyTables.StaticTables.SetupIdentityMapping: regions whose rounded end passes 2^64 are excluded.
- RiscvTrap.EntryEffect: the interrupted thread's stack pointer is 8-aligned and has 248 bytes of memory below it; U-mode sets it freely, and otherwise the entry path's own stores fault in S-mode, which is not modelled. StackReadyExactly shows the condition to be that of the stores. RiscvTrap.Core.TakeTrap and all of RiscvStack share it.
- RiscvThreads.RunRefines: at every trap the stack pointer of the interrupted thread is as for EntryEffect and the 248 bytes below it miss every context. The trap vector does not switch stacks and nothing else keeps a thread from pointing its stack at a context; StackHarm and TrapExactly show exactly when this does harm, and HarmfulStack that it can. Besides, the handler leaves contexts and the trap frame alone but for the results it pokes, leaves satp alone, names live threads, and where it changes nothing leaves sepc as it was, which HandledRefines and TrapExactly show to be needed. User code's own stores do not reach contexts, by page permissions.
- RiscvStack.StackHarm: exact for the 248-byte frame of the trap vector. The Rust handler's own frames lie below it on the same stack and are not modelled: a stack a little above a context lets them reach it too, and all results here assume they stay clear of the contexts. RiscvExactly.TrapExactly shares this.
- RiscvThreads.BootedRunRefines: as RiscvThreads.RunRefines.
- RiscvThreads.SuspendedThreadReturns: as RiscvThreads.RunRefines.
- RiscvThreads.TrapRefines: as RiscvThreads.RunRefines.
- Aarch64Threads.RunRefines: the handler leaves contexts and the exception frame, which lies on the kernel's own stack, alone but for the results it pokes, leaves TTBR0, SP_EL0 and SP_EL1 as they were, and names live threads. No IRQ is nested in a handler that switches a thread out, that changes nothing, or that answers a fault: those arms use ELR and SPSR as they stand, and NestingExactly shows the condition to be exact. User code keeps PSTATE at EL0.
- Aarch64Threads.TrapRefines: as Aarch64Threads.RunRefines.
- Aarch64Threads.BootedRunRefines: as Aarch64Threads.RunRefines.
- Aarch64Threads.SuspendedThreadReturns: as Aarch64Threads.RunRefines.
- Wfi.WfiReturnsOnce: interrupts are nested one at a time; a handler keeps the words its trampoline saved. The number of interrupts that come is any number fixed at the call. A waiting wfi may complete of itself but is not relied on to.
- GenericTimer.Timer.SetOneshot: a zero counter frequency, which divides by zero, is excluded.
- KernelLoader.Machine.LoadKernelSegments: segments are page-aligned and not empty, file data lies in the file and is no longer than the segment; the code panics or asks the firmware for nothing otherwise. The firmware allocator is the only way pages are taken.
- ElfLoader.ParseUndoesBuild: the segment list is collected at once where the code yields it lazily; the same reads are made.
- EarlyTables.RegionTranslates: regions below the output size the tables are programmed for; the mapper does not check it and beyond it the hardware faults.
- Manifest.Memory.FromUefiMemoryMap: lengths and counters wrap as in a release build; a debug build stops. The ACPI walk is a parameter.
- Manifest.BuiltHardwareManifest: the CPU, interrupt controller and timer fields are not modelled.
- Manifest.Discover: as BuiltHardwareManifest; the lists of devices are parameters, and what the scans themselves dropped before is not counted.
- SignedToken.AcceptedWasIssued: Ed25519 is a predicate on messages and signatures.
- IpcShapes.RoundTrip: OpenFlags values with undefined bits, which the type can only hold by force, are not values of the model.

Not modelled:

- Address translation of the memory traps and threads use: registers aside, a trap reads and writes one flat memory, whatever satp or TTBR0 is.
- Caches, TLB contents and barriers; `sfence.vma` and `tlbi` have no effect here.
- Activation of address spaces: SCTLR, TCR and IPS programming; MAIR_EL1 is the constant the early mapper writes.
- `context_switch` and `init_context` between kernel threads.
- The handlers behind traps: the kernel crates decide; here any decision is allowed.
- Faults taken at EL1 or in S-mode, and the diagnostic output before halting. Aborts from EL0, which the code answers by halting the machine, are modelled as that halt.
- Serial output, GIC registers, PCI and ACPI scans, feature detection, power domains, `set_tickless`, SBI calls and the jump to the kernel.
- `from_public_key_bytes`: checking a key is Ed25519's own.
