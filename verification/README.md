# v5gdb, modelled and verified

v5gdb is a GDB server that runs on the robot brain it debugs, a Cortex-A9. It plants breakpoints in
the very memory it runs from, borrows the processor's few debug registers for stepping, shares one
serial line with the program's own output, and edits the registers of sleeping tasks where the
scheduler keeps them. This project models those parts in Dafny and proves that each of them agrees
with a simple ideal, over every input and every run.

Check it with `dafny verify dfyconfig.toml`.

## What is modelled

**A debug session as a state machine.** Memory has a data view and an instruction-fetch view
(`CodeMemory`). On it sit the sixteen software breakpoint slots (`SoftwareBreakpoints`, in place
`SwBreakpointTable`), the breakpoint registers with their lock (`HardwareBreakpoints`, in place
`HwBreakpointManager`), the target that enters, leaves, steps and interrupts (`DebugTarget`, in place
`V5Target`), and the debugger that reacts to stops, runs the console and polls for Ctrl-C
(`DebugSession`, in place `Debugger`). `SessionRuns` puts these together with an arbitrary program
into runs of single events; `SessionTheorems` says what holds in every reachable moment, `SessionLaws`
what each stop and each request of the client comes to; `SessionRefinement` shows that one call of the
debugger object is such a run.

**Serial framing.** The device cuts two channels into stuffed packets (`Cobs`, `CobsEncoder`, `Mux`);
the host takes them apart again from reads of any size (`CobsDecoder`, `Demux`, `SerialHost`).

**Safe memory access.** The section walk over the first-level translation tables (`Vmsa`,
`MemoryAccess`) is compared with the architecture's account, byte by byte; `PowersOfTwo` relates masks,
shifts and the bitwise or to arithmetic.

**Register contexts.** The packet with all registers and single-register access (`RegisterViews`), and
the frame a sleeping task keeps on its stack (`SavedTasks`, `TaskRegisters`); `PacketLayout` and
`FrameLayout` say at which bytes each register lies; `Layout` is the theory of records as bytes.

**Two algorithms on buffers.** The word wrap of the panic report (`WordWrap`) and the trampoline that
redirects a function (`Trampoline`).

Objects that the source updates in place are classes here, with its loops; each of their methods is
proved equal to a function of the old state, and what the source promises is proved about that
function. Section numbers such as C3.3 or B3.5.5 refer to the ARM Architecture Reference Manual,
ARMv7-A and ARMv7-R edition (DDI 0406C).

## Where the code differs from what is said about it

The model follows the code; the members named here state these points.

- The window of a single step is not one address: stepping an ARM instruction at `p` also stays silent
  at `p + 2`, which a `bx` to Thumb code can reach (`SelectedAddresses`, `StepExecutesOne`). The step
  stops after one instruction exactly when the next address is outside the window or has a breakpoint.
- `write_registers` of a sleeping task checks the FPU flag word of the new frame before writing it, and
  panics with the stack pointer already moved if that stack word happens to be zero (`FreshStackPanics`); it
  succeeds exactly when both flag words are nonzero (`WriteRegistersSucceedsIff`).
- A register value of the wrong one of the two widths is refused for the current task and panics for
  another one (`WriteShowsInPacket`).
- A register packet cut short is refused, yet its complete fields are taken (`ShortPacketIsHalfTaken`).
- `write_memory` is documented to return whether any bytes were written; it writes all or nothing. Since
  the exclusive end saturates, neither it nor `read_memory` can reach the byte at 0xFFFF_FFFF
  (`AddressSpace.WriteMemory`, `AddressSpace.ReadMemory`).
- `remove_sw_breakpoint` is documented to remove all breakpoints at an address and to return whether
  anything changed; it clears one purpose, and returns true only if that frees the slot (`RemoveRefines`).
- A client's write over a tracked instruction is lost at the next resume, and exactly then
  (`WriteSurvivesIff`).
- The host says it discards a single byte after an error; when the failed packet began in an earlier
  read, what that read contributed is dropped unseen (`CutsMatterAfterErrors`).
- The panic report passes each line to `vexDisplayPrintf` as the format, with no arguments behind it: a
  line ends at a NUL, `%%` shows one percent sign, and any other directive reads an argument that was
  never passed. A line is shown as it is exactly if it has neither (`ShownAsItIsIff`,
  `DirectiveIsNotShown`), and all text is exactly if none of what was printed has (`ShownIsConservedIff`).
  The extra byte of the buffer is the last, not a leading one as its comment says.
- A user's breakpoint is expected to stop the program. An ARM breakpoint and a Thumb breakpoint in its
  upper half are both accepted; the one in the later slot then overwrites the other, whose instruction is
  no trap any more (`ThumbInsideArm`, `ThumbInsideArmAccepted`). A breakpoint is in place, and stops the
  program, exactly if no later slot overlaps it (`UnpauseInPlaceIff`, `TrackedBreakpointStops`).
- Resuming the scheduler on the way out is meant to meet no breakpoint of the debugger's own. It does if
  a poll reads the interrupt byte after the handler has returned and before interrupts are masked, and
  only then (`ResumptionIsSilentIff`).

## Model

| member | source | states |
|---|---|---|
| CodeMemory.EncodeOfRead | src/cpu/instruction.rs:59-99 | Writing back an instruction that was read restores exactly the bytes it was read from, for ARM, 16-bit and 32-bit Thumb. |
| CodeMemory.ReadOfEncode | src/cpu/instruction.rs:21-99 | Reading where a well-formed instruction was written gives that instruction back, its length being told by the first halfword. |
| CodeMemory.Thumb32Range | src/cpu/instruction.rs:19-23 | A halfword starts a 32-bit Thumb instruction if and only if it is 0xE800 or more. |
| CodeMemory.AlignedSpanInLine | src/cpu/cache.rs:26-38 | A naturally aligned two- or four-byte span never leaves the 32-byte line it starts in, so syncing one address covers a whole `bkpt`. |
| CodeMemory.LineOf | src/cpu/cache.rs:26-38 | A line is the 32 bytes from the address rounded down to a multiple of 32. |
| CodeMemory.CodeMemory.Read | src/cpu/instruction.rs:59-77 | The instruction at an aligned address, through the data view. |
| CodeMemory.CodeMemory.Write | src/cpu/instruction.rs:85-98 | Replaces the instruction's bytes in the data view and leaves all other bytes and the fetch view alone. |
| CodeMemory.CodeMemory.SyncInstruction | src/cpu/cache.rs:35-38 | The fetch view takes over the data view in the 32-byte line of the address and nowhere else. |
| SwBreakpointTable.SwBreakpointTable.constructor | src/gdb_target/mod.rs:136-149 | Sixteen free slots, not paused, memory as it was. |
| SwBreakpointTable.SwBreakpointTable.SetEnabled | src/gdb_target/breakpoint/software.rs:59-81 | Puts the trap of the right instruction set, or the backup, into memory unless the flag already says so. |
| SwBreakpointTable.SwBreakpointTable.SetBreakpointsIgnored | src/gdb_target/breakpoint/mod.rs:24-31 | The loop over the slots switches every breakpoint and syncs its line, slot by slot, as the specification `SetIgnored` does on values. |
| SwBreakpointTable.SwBreakpointTable.RegisterSwBreakpoint | src/gdb_target/breakpoint/software.rs:109-158 | The single pass that looks for the address and remembers the first free slot has the outcome and the state of `Register`. |
| SwBreakpointTable.SwBreakpointTable.FlagSlot | src/gdb_target/breakpoint/software.rs:125-137 | An existing slot takes on the missing purpose, or nothing changes and the error is `AlreadyExists`. |
| SwBreakpointTable.SwBreakpointTable.RemoveSwBreakpoint | src/gdb_target/breakpoint/software.rs:163-191 | State and report of `Remove`: one purpose is cleared, unwanted slots are freed, and one line is synced if any was. |
| SwBreakpointTable.SwBreakpointTable.QuerySwBreakpoint | src/gdb_target/breakpoint/software.rs:195-199 | The first slot that tracks the address, or none when no slot does. |
| SoftwareInvariants.PausedMemoryIsOriginal | src/gdb_target/breakpoint/mod.rs:24-31 | With breakpoints paused every byte of memory is the program's own, even where tracked instructions overlap. |
| SoftwareInvariants.LowMemoryIsOriginal | src/gdb_target/breakpoint/software.rs:115-117 | No breakpoint ever changes a byte below 0x0300_0000. |
| SoftwareInvariants.SetIgnoredInv | src/gdb_target/breakpoint/mod.rs:24-31 | Pausing or unpausing, from slots in any mixture of states, leaves memory original outside enabled patches and all slots switched alike. |
| SoftwareInvariants.SetIgnoredCoherent | src/gdb_target/breakpoint/mod.rs:24-31 | Neither direction makes a byte of the fetch view disagree with memory, though each slot syncs one line and restoring a 32-bit Thumb instruction can write into the next. |
| SoftwareRefinement.RegisterRefines | src/gdb_target/breakpoint/software.rs:109-158 | Registration succeeds if and only if the address is not yet wanted for this purpose and has a slot or one is free; it adds exactly that address to exactly that set; the error tells which condition failed. |
| SoftwareRefinement.RegisterLow | src/gdb_target/breakpoint/software.rs:115-117 | Below 0x0300_0000 every registration is answered with `CannotWrite` and changes nothing. |
| SoftwareRefinement.RemoveRefines | src/gdb_target/breakpoint/software.rs:163-191 | Removal takes the address out of one of the two sets and reports a change if and only if that leaves nobody wanting it. |
| SoftwareRefinement.TrackedIsWanted | src/gdb_target/breakpoint/software.rs:241-244 | The occupied slots are exactly the union of what the user and the debugger want. |
| SoftwareRefinement.TrackedSize | src/gdb_target/breakpoint/software.rs:139-146 | As addresses are distinct, a slot is free if and only if fewer than sixteen addresses are tracked. |
| SoftwareRefinement.RegisterInv | src/gdb_target/breakpoint/software.rs:148-155 | A registration keeps memory original outside patches, provided its backup is read from bytes that no patch covers. |
| SoftwareRefinement.RegisterCoherent | src/gdb_target/breakpoint/software.rs:150-153 | A registration, paused or live, adds no disagreement between the two views of memory. |
| SoftwareRefinement.RemoveInv | src/gdb_target/breakpoint/software.rs:163-191 | A removal while paused changes no byte of memory and keeps all invariants. |
| SoftwareRuns.UnpauseInPlaceIff | src/gdb_target/breakpoint/mod.rs:24-31 | After unpausing, a breakpoint is in memory and in the fetch view if and only if no later slot's patch shares a byte with its own. |
| SoftwareRuns.UnpauseArms | src/gdb_target/breakpoint/mod.rs:24-31 | The same of all slots at once, as it is kept while the program runs. |
| SoftwareRuns.OverlapCases | src/gdb_target/breakpoint/software.rs:66-75 | Two patches share a byte exactly if one is an ARM word and the other Thumb code in its upper half. |
| SoftwareRuns.ArmedTrapsIff | src/gdb_target/breakpoint/software.rs:66-75 | The program fetches a `bkpt` at a tracked breakpoint if and only if no later slot overlaps it. |
| SoftwareRuns.ThumbInsideArm | src/gdb_target/breakpoint/mod.rs:24-31 | A Thumb breakpoint in a later slot, two bytes into an ARM one, leaves 0xBE00_0070 there, which is no trap. |
| SoftwareRuns.ThumbInsideArmAccepted | src/gdb_target/breakpoint/software.rs:109-158 | Both of these registrations are accepted. |
| SoftwareRuns.InPlaceTraps | src/gdb_target/breakpoint/software.rs:66-75 | Such a breakpoint is fetched as a `bkpt` of the instruction set it replaces. |
| SoftwareRuns.OneInstructionSetNeverOverlaps | src/gdb_target/breakpoint/software.rs:66-75 | Patches of breakpoints of one instruction set never share a byte, even inside one another's 32-bit instructions. |
| SoftwareRuns.RemoveLive | src/gdb_target/breakpoint/software.rs:178-190 | A removal that frees a slot while breakpoints are live restores the program and the fetch view, provided no other patch reaches into the instruction. |
| SoftwareRuns.StoreInv | src/gdb_target/memory.rs:37-43 | A store that stays clear of tracked instructions is a store to the program itself; only the stored bytes may become incoherent. |
| SoftwareRuns.ResumeAndStop | src/gdb_target/breakpoint/mod.rs:24-31 | Across a resume and a stop, bytes of tracked instructions revert to their backups and all other bytes stay. |
| SoftwareRuns.WriteSurvivesIff | src/gdb_target/mod.rs:448-456 | A client's write survives the next resume and stop if and only if it changes no byte of a tracked instruction, since backups are not refreshed. |
| HardwareBreakpoints.SelectedAddresses | src/gdb_target/breakpoint/hardware.rs:372-403 | A breakpoint selects exactly its address and, for ARM, the other half of its word. |
| HardwareBreakpoints.SamePoint | src/gdb_target/breakpoint/hardware.rs:194-200 | Word and byte select coincide if and only if the addresses do and both or neither are ARM: the duplicate test is exact. |
| HardwareBreakpoints.HwAddAnswers | src/gdb_target/breakpoint/hardware.rs:168-235 | Exactly when an addition succeeds and which error it reports otherwise; success adds the one register content that selects the halfword or word at the address, and an error changes nothing. |
| HardwareBreakpoints.AddHwKeepsReserve | src/gdb_target/breakpoint/hardware.rs:406-421 | Any request of a user leaves one register over; it succeeds if and only if two were free, the address is aligned and the point is new. |
| HardwareBreakpoints.RemoveHwKeepsReserve | src/gdb_target/breakpoint/hardware.rs:423-433 | A user's removal keeps the reservation and cannot touch the debugger's own mismatch. |
| HardwareBreakpoints.MismatchAlwaysFits | src/gdb_target/breakpoint/hardware.rs:168-235 | With the reservation and no mismatch placed, adding one always succeeds. |
| HardwareBreakpoints.MismatchRemoved | src/gdb_target/breakpoint/hardware.rs:240-284 | Removing the placed mismatch succeeds and leaves exactly the user's matches. |
| HwBreakpointManager.PointCount | src/gdb_target/breakpoint/hardware.rs:286-292 | Registers in use and distinct breakpoint points are equally many, so counting flags counts breakpoints. |
| HwBreakpointManager.CountUsedFull | src/gdb_target/breakpoint/hardware.rs:204-206 | The count reaches the number of registers if and only if none is free. |
| HwBreakpointManager.HwBreakpointManager.Setup | src/gdb_target/breakpoint/hardware.rs:97-110 | Takes over registers with arbitrary contents: no breakpoints or watchpoints, monitor debug mode, locked. |
| HwBreakpointManager.HwBreakpointManager.Reset | src/gdb_target/breakpoint/hardware.rs:113-155 | Every implemented breakpoint and watchpoint register ends up disabled and every flag cleared; debug events raise exceptions and do not halt. |
| HwBreakpointManager.HwBreakpointManager.Scan | src/gdb_target/breakpoint/hardware.rs:178-206 | One pass finds out whether the point is present, and finds a disabled, unused register if and only if there is one. |
| HwBreakpointManager.HwBreakpointManager.AddBreakpointAt | src/gdb_target/breakpoint/hardware.rs:168-235 | Adds one point to the set, or reports misalignment, a duplicate or lack of space in that order; flags stay true exactly at enabled registers. |
| HwBreakpointManager.HwBreakpointManager.RemoveBreakpointAt | src/gdb_target/breakpoint/hardware.rs:240-284 | Removes exactly the one point and reports whether it was there. |
| HwBreakpointManager.HwBreakpointManager.BreakpointsAvailable | src/gdb_target/breakpoint/hardware.rs:287-292 | The number of registers minus the number of points; the subtraction cannot underflow. |
| HwBreakpointManager.HwBreakpointManager.AddHwBreakpointAt | src/gdb_target/breakpoint/hardware.rs:406-421 | A user's request, which never takes the last free register. |
| HwBreakpointManager.HwBreakpointManager.SetLocked | src/gdb_target/breakpoint/hardware.rs:310-317 | Sets the lock and changes no breakpoint. |
| DebugTarget.FinalizeFrees | src/gdb_target/mod.rs:287-310 | Both finalisations together leave nothing pending, free the reserved register and keep every breakpoint of the user, whether a step, an interrupt, both or neither was pending. |
| DebugTarget.EnterHw | src/gdb_target/mod.rs:175-182 | Entering unlocks the registers and leaves exactly the user's hardware breakpoints. |
| DebugTarget.EnterFields | src/gdb_target/mod.rs:152-186 | What entering does to memory, the suspension count, the remembered lock, the stop reason and the context. |
| DebugTarget.StepNeverRefused | src/gdb_target/mod.rs:209-234 | A step request fails if and only if none is pending and the PC is odd in Thumb state or no multiple of four in ARM state, bit 5 of the status telling which. |
| DebugTarget.InterruptNeverFails | src/gdb_target/mod.rs:250-284 | The `unwrap` never panics, also when the sentinel replaces a pending step; the user's breakpoints stay. |
| V5Target.V5Target.constructor | src/gdb_target/mod.rs:136-149 | The initial target, with the hardware reservation established. |
| V5Target.V5Target.ClassifyStop | src/gdb_target/mod.rs:313-327 | Sets the stop reason that `Classify` gives and nothing else. |
| V5Target.V5Target.CompleteSingleStep | src/gdb_target/mod.rs:299-310 | Clears the request and removes its mismatch. |
| V5Target.V5Target.CompleteInterrupt | src/gdb_target/mod.rs:287-296 | Removes the sentinel and clears the flag, if it was set. |
| V5Target.V5Target.FixupManualBreakpoint | src/gdb_target/mod.rs:330-343 | Moves the PC behind the program's own `bkpt`, by that instruction's size. |
| V5Target.V5Target.Enter | src/gdb_target/mod.rs:152-186 | The whole entry in place equals `EnterBreakpoint`; no register is touched while locked; the reservation is kept. |
| V5Target.V5Target.Leave | src/gdb_target/mod.rs:189-205 | The whole exit in place equals `LeaveBreakpoint`, with the context to run and the scheduler flag. |
| V5Target.V5Target.RequestStep | src/gdb_target/mod.rs:209-234 | Places the step mismatch of the right instruction set; fails only for a PC misaligned for it. |
| V5Target.V5Target.RequestHalt | src/gdb_target/mod.rs:250-284 | Arms the sentinel whatever the lock was, and puts the lock back; the unwrapped result is proved to be `Ok`. |
| V5Target.V5Target.AddSwBreakpoint | src/gdb_target/breakpoint/software.rs:203-212 | A client's software breakpoint; the answer says whether it was added. |
| V5Target.V5Target.RemoveSwBreakpoint | src/gdb_target/breakpoint/software.rs:214-221 | Its removal; the answer says whether a slot was freed. |
| V5Target.V5Target.AddHwBreakpoint | src/gdb_target/breakpoint/hardware.rs:406-421 | A client's hardware breakpoint, keeping one register back. |
| V5Target.V5Target.RemoveHwBreakpoint | src/gdb_target/breakpoint/hardware.rs:423-433 | Its removal, which cannot remove the debugger's own. |
| V5Target.V5Target.WriteAllRegisters | src/gdb_target/mod.rs:431-435 | Replaces the working context and nothing else. |
| V5Target.V5Target.WriteAddrs | src/gdb_target/mod.rs:448-456 | Stores all bytes if every one may be written, and otherwise answers with an error and changes nothing; neither backups nor the fetch view are refreshed. |
| Debugger.Debugger.RegisterInternalBreakpoints | src/debugger/mod.rs:282-300 | Plants the exit hook at the address without its Thumb bit and remembers it; in an empty table the `unwrap` cannot panic. |
| Debugger.Debugger.HandleInternalBreakpoint | src/debugger/mod.rs:249-280 | At the hook: forget it, and stop as `Exiting` only for a client that can be told. |
| Debugger.Debugger.HandleStop | src/debugger/mod.rs:219-243 | The `expect` cannot fail; user-marked slots stop, internal ones do what the hook says, and all else stops. |
| Debugger.Debugger.Dispatch | src/gdb_target/resume.rs:10-74 | Each request of the client has its effect on the target; the step's `expect` cannot fail. |
| Debugger.Debugger.TickStateMachine | src/debugger/mod.rs:326-365 | One turn of the console in each stage of the connection. |
| Debugger.Debugger.RunDebugConsole | src/debugger/mod.rs:303-324 | The console loop until the program is to be resumed, opening the connection on first use. |
| Debugger.Debugger.HandleDebugEvent | src/debugger/mod.rs:127-145 | The whole event in place equals entering, handling the stop, the console if it is to be seen, and leaving. |
| Debugger.Debugger.Poll | src/debugger/mod.rs:147-168 | Scanning the pending bytes arms an interrupt if and only if one is Ctrl-C and a client waits for the running program. |
| SessionRuns.ExecuteInv | src/gdb_target/breakpoint/mod.rs:22-32 | The program's own instructions and stores keep every invariant. |
| SessionRuns.PollInv | src/debugger/mod.rs:147-168 | So does an interrupt poll at any moment of the running program. |
| SessionRuns.EnterInv | src/gdb_target/mod.rs:152-186 | Entering from any running state gives a monitor state: memory original, registers unlocked, one suspension, nothing pending. |
| SessionRuns.ConsoleInv | src/debugger/mod.rs:326-365 | Every turn of the console, with any acceptable request, keeps the invariant. |
| SessionRuns.HookInv | src/debugger/mod.rs:263-278 | The exit hook keeps the invariant and leaves no internal breakpoint behind. |
| SessionRuns.HandleStopInv | src/debugger/mod.rs:219-280 | Handling any stop keeps the invariant; a resumption has the context unchanged; the exit is only announced if it never was before. |
| SessionRuns.DebugEventInv | src/debugger/mod.rs:127-145 | A whole debug event, entered from any running state, keeps the invariant. |
| SessionRuns.ReturnInv | src/gdb_target/mod.rs:189-205 | Leaving gives a running state again: breakpoints live, lock as found, suspension dropped unless a step is pending. |
| SessionRuns.NextInv | src/debugger/mod.rs:113-170 | Every step of a run keeps the invariant. |
| SessionRuns.RunKeepsInv | src/debugger/mod.rs:113-170 | Every run, of any length, keeps the invariant. |
| SessionTheorems.InitializedInv | src/debugger/mod.rs:282-300 | Planting the hook on a fresh debugger succeeds, so its `unwrap` cannot panic, and establishes the invariant. |
| SessionTheorems.ReachableInv | src/debugger/mod.rs:113-170 | The invariant holds in every reachable moment of every run. |
| SessionTheorems.MemoryTransparency | src/gdb_target/breakpoint/mod.rs:24-31 | In every reachable moment in the monitor memory is byte for byte what program and client have written; always so below 0x0300_0000 and outside patches; fetches agree with memory except at bytes others wrote. |
| SessionTheorems.RegistersReserved | src/gdb_target/breakpoint/hardware.rs:411-414 | In every reachable moment at most N-1 matches and at most one mismatch are set. |
| SessionTheorems.RequestsSucceed | src/gdb_target/mod.rs:209-284 | In every reachable moment an aligned step cannot be refused in the monitor, nor an interrupt outside. |
| SessionTheorems.SchedulerAndLockBalance | src/gdb_target/mod.rs:159-205 | The suspension depth is 1 in the monitor and while a step is pending and otherwise 0; the lock is open in the monitor and as found in user code. |
| SessionTheorems.ExitsAtMostOnce | src/debugger/mod.rs:263-278 | No run announces the exit twice. |
| SessionTheorems.StepPlaced | src/gdb_target/mod.rs:216-226 | In Thumb state the hardware then fires everywhere but at the PC, in ARM state everywhere but there and two bytes on, and at the user's points. |
| SessionTheorems.LeaveWithStep | src/gdb_target/resume.rs:49-74 | A step requested in the console is pending at the program counter when the program goes on, silent at exactly these addresses, with the scheduler held. |
| SessionTheorems.StepFires | src/gdb_target/mod.rs:222-226 | With a step pending the hardware fires if and only if the PC is outside the step's window or at a user's point. |
| SessionTheorems.StepExecutesOne | src/gdb_target/mod.rs:209-234 | A step executes its instruction, and stops before the next one if and only if that is outside the window or carries a breakpoint; the window of an ARM instruction has two addresses. |
| SessionTheorems.StepConfines | src/gdb_target/mod.rs:195-204 | From leaving with a step to the next stop nothing executes outside the window, over any instruction stream and any interrupts. |
| SessionTheorems.StepRunsOnce | src/gdb_target/mod.rs:209-234 | Over any run up to the next stop a step executes its own instruction and no other, or nothing because an interrupt came first. |
| SessionTheorems.SingleStep | src/gdb_target/resume.rs:49-74 | From the request in the console: at most one instruction runs, the one at the program counter, and exactly that one if the stop is not an interrupt, nothing else stops there and the program does not go to the one or two addresses where the step is silent. |
| SessionTheorems.SentinelFires | src/gdb_target/mod.rs:48-49 | With the sentinel armed the hardware fires at every address that holds code. |
| SessionTheorems.InterruptConfines | src/gdb_target/mod.rs:236-284 | Once an interrupt is armed no user instruction executes before the next stop, even on a self-branch. |
| SessionTheorems.InterruptIsReported | src/gdb_target/mod.rs:313-327 | That stop enters the monitor as `Interrupt` with the context untouched and a cut-short step cancelled. |
| SessionTheorems.PollArms | src/debugger/mod.rs:147-168 | An interrupt becomes pending if and only if a client waits for the running program and the byte 0x03 is among those pending; otherwise a poll changes nothing. |
| SessionTheorems.EnteredStop | src/gdb_target/mod.rs:313-343 | Each stop reason is reported if and only if the processor event and the slots say so. |
| SessionTheorems.TrackedBreakpointStops | src/gdb_target/breakpoint/software.rs:66-75 | At a tracked breakpoint of its instruction set the program stops if and only if no later slot overlaps the breakpoint or the hardware fires. |
| SessionTheorems.WhichStopsAreSeen | src/debugger/mod.rs:219-280 | A tracked stop enters the monitor if and only if the user asked for it or a client can be told of the exit; an internal hook is spent. |
| SessionLaws.ExitIsAnnounced | src/debugger/mod.rs:249-280 | The exit is announced, once more counted and in the monitor, if and only if the program stops at an internal breakpoint and the connection is idle, running or interrupted; after every other event the status is an ordinary one. |
| SessionLaws.HookPlace | src/debugger/mod.rs:282-300 | The hook lies at the exit function's first instruction, as Thumb or ARM code by the lowest bit of its address, for the debugger only. |
| SessionLaws.ContinueRuns | src/gdb_target/resume.rs:10-47 | After continuing no step is pending, the scheduler runs, and the hardware fires at the user's points only; context, memory and breakpoints are those of the console. |
| SessionLaws.AddSoftware | src/gdb_target/breakpoint/software.rs:203-212 | The user's set gains exactly the address, if and only if it is writable, new to the set, and tracked already or one of sixteen; nothing else changes. |
| SessionLaws.AddedForItsSet | src/gdb_target/breakpoint/software.rs:203-212 | A new slot is for the instruction set of the request and for the user. |
| SessionLaws.RemoveSoftware | src/gdb_target/breakpoint/software.rs:214-221 | The user's set loses exactly the address; memory, the debugger's set and everything else stay. |
| SessionLaws.AddHardware | src/gdb_target/breakpoint/hardware.rs:372-421 | The hardware fires at the address from then on, and at the other half of an ARM word, if and only if it is aligned and two registers are free; nothing else changes. |
| SessionLaws.RemoveHardware | src/gdb_target/breakpoint/hardware.rs:423-433 | Exactly the registers that select the instruction go; the hardware goes on to fire where another point selects the address. |
| SessionLaws.RemoveUndoesAdd | src/gdb_target/breakpoint/hardware.rs:406-433 | Removing a hardware breakpoint just added restores the moment before. |
| SessionLaws.WrittenRegistersRun | src/gdb_target/mod.rs:431-435 | The program goes on with exactly the context written. |
| SessionLaws.WrittenMemory | src/gdb_target/mod.rs:448-456 | A write beside tracked instructions changes exactly its bytes and nothing else. |
| SessionLaws.QuietTurn | src/debugger/mod.rs:331-354 | A turn without a request leaves the target alone. |
| SessionTheorems.OtherStopsAreSeen | src/debugger/mod.rs:220-223 | Every other stop enters the monitor. |
| SessionTheorems.ManualBreakpointIsSkipped | src/gdb_target/mod.rs:330-343 | A `bkpt` of the program's own stops in the monitor with the PC behind the instruction the program has there and nothing else changed. |
| SessionTheorems.ExitEndsConsole | src/debugger/mod.rs:338-363 | Reporting a stop or losing the client resumes the program if and only if the exit is being announced. |
| SessionRefinement.ConsoleIsRun | src/debugger/mod.rs:303-324 | The console loop is a run of single console turns. |
| SessionRefinement.EventIsRun | src/debugger/mod.rs:127-145 | What the debugger object does in one call, followed by the exit path, is a run of single steps between reachable states. |
| Debugger.Debugger.ServeException | src/exceptions/overlay.s:122-179 | The exception path in place: whenever the handler asks for it the scheduler is suspended, so resuming it once cannot underflow; a pending step keeps holding it. |
| Debugger.EventHoldsScheduler | src/gdb_target/mod.rs:159-205 | From entry to exit of any debug event the scheduler is suspended. |
| SessionTheorems.ResumptionIsSilentIff | src/exceptions/overlay.s:150-173 | When the exit path resumes the scheduler no mismatch of the debugger's is placed and only the user's own breakpoints fire in its code, if and only if no poll reads the interrupt byte between leaving and the exit path. |
| SessionTheorems.PollInExitPath | src/debugger/mod.rs:147-168 | For everything after it such a poll equals one right after the program has been resumed. |
| Cobs.EncodedNonZero | src/transport/mux.rs:65-82 | A stuffed packet contains no zero. |
| Cobs.EncodingOf | src/transport/mux.rs:65-82 | The encoding by its definition: length byte and run for a run and its zero, 255 and the run for 254 bytes, the last run by itself. |
| Cobs.Overhead | src/transport/mux.rs:61-67 | Stuffing costs at least one byte and at most one more for every 254. |
| Cobs.IncrementalEncode | src/transport/mux.rs:65-77 | Feeding bytes one at a time gives the packet encoding, also across the 254-byte boundary. |
| Cobs.EncodeSnoc | src/transport/mux.rs:69-75 | A further byte lengthens the encoding by one, and by two right after a full block. |
| CobsEncoder.CobsEncoder.constructor | src/transport/mux.rs:65 | An empty packet in the caller's buffer. |
| CobsEncoder.CobsEncoder.Push | src/transport/mux.rs:67-75 | A byte is taken if and only if the longer packet still fits; otherwise the packet is unchanged; bytes beyond the limit are never written. |
| CobsEncoder.CobsEncoder.Finalize | src/transport/mux.rs:77-82 | The buffer starts with exactly the encoding of what was pushed, and the room for the delimiter is not part of it. |
| Mux.PacketsWellFramed | src/transport/mux.rs:57-87 | Every packet has its channel id, at least one byte of the buffer, at most 2048 bytes, and its only zero at its end. |
| Mux.BodiesOfPayloads | src/transport/mux.rs:57-87 | The payloads behind the channel ids, joined, are the buffer. |
| Mux.FullPackets | src/transport/mux.rs:69-75 | Every packet of a write but its last carries at least 2037 bytes of the buffer. |
| Mux.Chunk | src/transport/mux.rs:69-75 | The longest prefix of the buffer whose packet fits, and at least one byte. |
| Mux.FillPacket | src/transport/mux.rs:59-77 | The greedy loop takes the longest prefix that fits and never none. |
| Mux.SendPacket | src/transport/mux.rs:59-85 | One delimited packet goes out, the delimiter right behind the encoding. |
| Mux.WriteAll | src/transport/mux.rs:57-87 | Terminates for every buffer and appends exactly its packets to the line. |
| CobsDecoder.PushSplit | cli/src/bin/v5gdb.rs:144-186 | Decoding a concatenation is decoding its parts in turn, wherever it is cut. |
| CobsDecoder.PushEncoded | cli/src/bin/v5gdb.rs:144-146 | An encoded packet, continued from any block boundary, decodes to what was encoded. |
| CobsDecoder.DecodeEncode | cli/src/bin/v5gdb.rs:144-167 | A delimited packet decodes to its payload and consumes exactly its bytes, whatever follows. |
| CobsDecoder.DecodesStuffed | cli/src/bin/v5gdb.rs:144-186 | On any bytes without a zero and a delimiter, the streaming decoder yields the packet that the definition finds in them, if they are stuffed and it has at most 2048 bytes, and otherwise an error. |
| CobsDecoder.EncodedIsStuffed | cli/src/bin/v5gdb.rs:144-146 | Encoding gives stuffed bytes in which the definition finds the packet. |
| Demux.ServeIsDeliver | cli/src/bin/v5gdb.rs:136-188 | On undisturbed input the loop takes neither the invalid-packet nor the error path. |
| Demux.DeliverSplit | cli/src/bin/v5gdb.rs:136-188 | Undisturbed delivery does not depend on where reads are cut. |
| Demux.ServeAllIsDeliver | cli/src/bin/v5gdb.rs:136-188 | Any series of reads delivers what one read of their concatenation would. |
| Demux.DeliverWire | cli/src/bin/v5gdb.rs:136-188 | The framing of any writes is delivered undisturbed and completely. |
| Demux.RoundTrip | cli/src/bin/v5gdb.rs:136-188 | For all writes on both channels and all ways to cut the stream, each sink gets exactly the concatenation of its channel's buffers. |
| Demux.NeverDisturbed | cli/src/bin/v5gdb.rs:136-188 | The same at every moment of a partial stream. |
| Demux.DelimiterResets | cli/src/bin/v5gdb.rs:166-181 | A read that ends in a zero leaves the host between packets, whatever the bytes and the state before. |
| Demux.HarmlessCut | cli/src/bin/v5gdb.rs:136-188 | Whatever the bytes, a cut makes no difference if the packet that straddles it stays open or turns out valid. |
| Demux.DeliverBehind | cli/src/bin/v5gdb.rs:169-181 | What is undisturbed from some point of a read on arrives as if read separately, whatever came before. |
| Demux.Resynchronises | cli/src/bin/v5gdb.rs:169-181 | After any bytes and from any state, one zero is enough for every later write to be delivered completely, for all ways to cut the stream. |
| Demux.StrayByteSwallowsPacket | cli/src/bin/v5gdb.rs:144-167 | The zero is needed: a stray byte right before a packet makes the host take the packet's encoding for a packet whenever that is one byte shorter than the stray byte announces. |
| Demux.SwallowedIsRaw | cli/src/bin/v5gdb.rs:154-163 | Unless it starts with a channel id, all of it is then shown as raw text. |
| Demux.CutsMatterAfterErrors | cli/src/bin/v5gdb.rs:169-181 | For bytes that are no packet the cuts do matter: an error shows the first byte of the current read only. |
| SerialHost.PacketDecoder.Feed | cli/src/bin/v5gdb.rs:144 | One byte through the in-place decoder equals `FeedByte`. |
| SerialHost.PacketDecoder.PushSlice | cli/src/bin/v5gdb.rs:144-186 | A slice through the in-place decoder: packet and size, more needed, or error. |
| SerialHost.SerialHost.HandlePacketBytes | cli/src/bin/v5gdb.rs:217-248 | The body goes to its channel's sink; an empty packet or unknown channel is refused and changes nothing. |
| SerialHost.SerialHost.ServeRead | cli/src/bin/v5gdb.rs:136-188 | One read through the in-place loop equals `Serve`; the loop terminates. |
| Vmsa.UsesSameTable | src/cpu/vmsa.rs:49-52 | The leading-zero test chooses TTBR0 if and only if section B3.5.4 does. |
| Vmsa.ChosenTableIsLookupable | src/cpu/vmsa.rs:116-157 | For every TTBCR.N, base register and address both assertions of the lookup hold. |
| Vmsa.DescriptorAddress | src/cpu/vmsa.rs:94-157 | Base plus four times the index is the bitwise or that section B3.5.5 defines, and does not overflow. |
| Vmsa.PermissionsAgree | src/cpu/vmsa.rs:242-287 | Decoding AP[2:0] and asking agrees with section B3.7.1 for reads and writes at both privilege levels, including the reserved encoding. |
| Vmsa.SectionBits | src/cpu/vmsa.rs:160-209 | A descriptor put together from its fields is decoded as a section with these permissions, whatever the other fields are. |
| Vmsa.SectionFieldsOf | src/cpu/vmsa.rs:188-209 | Every descriptor with the low bits 0b10 is put together like that. |
| MemoryAccess.SectionDecides | src/gdb_target/memory.rs:53-69 | For a section the permission field alone decides the test, and access as the architecture defines it. |
| MemoryAccess.NoSectionNoAccess | src/gdb_target/memory.rs:58-69 | Any other descriptor gives no access. |
| MemoryAccess.SectionUniform | src/gdb_target/memory.rs:53-69 | Testing one address of a section decides access to every byte of it. |
| MemoryAccess.LongestPrefixUnique | src/gdb_target/memory.rs:46-80 | There is only one length such as `TestAccess` promises. |
| MemoryAccess.TestAccess | src/gdb_target/memory.rs:48-80 | Terminates for every start and end, including the top of the address space, with the length of the longest prefix whose every byte is accessible. |
| MemoryAccess.AddressSpace.ReadMemory | src/gdb_target/memory.rs:11-23 | Copies exactly that prefix and leaves the rest of the buffer alone. |
| MemoryAccess.AddressSpace.WriteMemory | src/gdb_target/memory.rs:28-44 | All or nothing: it writes if and only if every byte may be written and the range ends at or below 0xFFFF_FFFF. |
| RegisterViews.RawIds | src/gdb_target/arch/mod.rs:78-91 | Accepted ids name existing registers, each once, in the order of the packet. |
| RegisterViews.RawIdOf | src/gdb_target/arch/mod.rs:78-91 | Every register has an id. |
| PacketLayout.IdMeans | src/gdb_target/arch/mod.rs:78-91 | Which register each number stands for: 0 to 12, 13, 14, 15, 25, 26 to 57 and 58. |
| PacketLayout.IdReads | src/gdb_target/single_register_access.rs:8-42 | Reading by number gives the packet's bytes at the number's place; exactly 0 to 15 and 25 to 58 are numbers. |
| PacketLayout.IdWrites | src/gdb_target/single_register_access.rs:44-82 | Writing by number splices them. |
| PacketLayout.CoreInPacket | src/exceptions/mod.rs:45-52 | r0 to r12, sp, lr, pc and cpsr are at bytes 0, 52, 56, 60 and 64 of the packet, little-endian. |
| PacketLayout.FloatsInPacket | src/exceptions/mod.rs:54-58 | d0 to d31 are from byte 68 on and fpscr is at byte 324. |
| RegisterViews.ReadIsSlice | src/gdb_target/single_register_access.rs:8-42 | Reading one register gives exactly its slice of the packet with all of them. |
| RegisterViews.WriteIsSplice | src/gdb_target/single_register_access.rs:44-82 | Writing one register is exactly a splice of its slice. |
| RegisterViews.DeserializeSerialize | src/exceptions/mod.rs:38-87 | Deserialising what was serialised restores all registers, whatever they held and whatever follows. |
| RegisterViews.SerializeDeserialize | src/exceptions/mod.rs:38-87 | Serialising what a full packet deserialises to gives the packet back. |
| RegisterViews.ShortPacketIsHalfTaken | src/exceptions/mod.rs:61-87 | A short packet is refused, but its complete fields have already been taken. |
| RegisterViews.CapturedRegisters.GdbSerialize | src/exceptions/mod.rs:38-59 | The loops emit the packet. |
| RegisterViews.CapturedRegisters.GdbDeserialize | src/exceptions/mod.rs:61-87 | The moving slice assigns the packet's fields; success if and only if the packet is long enough. |
| RegisterViews.CapturedRegisters.ReadRegister | src/gdb_target/single_register_access.rs:8-42 | Copies a register's bytes, or refuses one that does not exist without touching the buffer. |
| RegisterViews.CapturedRegisters.WriteRegister | src/gdb_target/single_register_access.rs:44-82 | Sets one register if and only if it exists and the width is right; otherwise nothing changes. |
| TaskRegisters.MovingKeepsRegisters | src/sys/freertos/api.rs:84-112 | Writing a sleeping task's stack pointer moves its frame, possibly over itself: the value reads back and every other register reads the same. |
| TaskRegisters.WritingChangesOne | src/sys/freertos/mod.rs:140-167 | Writing any one register changes that register and no other, nor the FPU flag or the critical nesting. |
| TaskRegisters.WriteStaysInFrame | src/sys/freertos/mod.rs:140-167 | It changes no byte of memory outside the frame or, for the stack pointer, outside the new frame and the saved pointer. |
| TaskRegisters.WriteRegistersSucceedsIff | src/sys/freertos/mod.rs:80-115 | A whole-context write succeeds if and only if the flag word is nonzero at the old and at the new place. |
| TaskRegisters.FreshStackPanics | src/sys/freertos/mod.rs:87-97 | Otherwise it panics with the stack pointer already moved to a place nobody can read. |
| TaskRegisters.WriteThenRead | src/sys/freertos/mod.rs:63-115 | Whenever it succeeds, the context read back is the one written and the nesting is kept. |
| TaskRegisters.WriteRegistersStaysInFrame | src/sys/freertos/mod.rs:80-115 | A whole-context write, panicking or not, changes no byte outside the new frame and the saved pointer. |
| TaskRegisters.TaskViewsAgree | src/sys/freertos/mod.rs:117-138 | Each single register of a sleeping task is its slice of that task's packet. |
| TaskRegisters.ContextOfTask | src/sys/freertos/mod.rs:69-77 | Reading the frame as a whole, with the two halves of the floating-point bank in swapped order, agrees with reading every register by itself. |
| FrameLayout.ReadsSavedBytes | src/sys/freertos/mod.rs:117-138 | Each register of a sleeping task is read from its bytes in the frame: fpscr at 4, d16 to d31 from 8, d0 to d15 from 136, r0 to r12 from 268, lr at 320, pc at 324, cpsr at 328; sp is 332 above the saved pointer. |
| FrameLayout.ReadsSavedContext | src/sys/freertos/mod.rs:63-78 | The same of the whole context. |
| FrameLayout.SavedFlagAndNesting | src/sys/freertos/api.rs:162-189 | The flag is the word at 0 and the critical nesting the one at 264. |
| FrameLayout.WritesSavedBytes | src/sys/freertos/mod.rs:140-167 | A single write leaves the value in exactly these bytes. |
| FrameLayout.WritesSavedContext | src/sys/freertos/mod.rs:80-115 | A successful whole-context write leaves every register in these bytes of the new frame, flag 1, and the nesting that the old frame had. |
| FrameLayout.WriteAnswers | src/gdb_target/single_register_access.rs:101-150 | With a live task of the given number, a write succeeds if and only if the first such task is not the running one, its flag word is nonzero and the value has the width of the register; which other writes are refused and which panic; none of them changes memory. |
| FrameLayout.NobodyWritten | src/gdb_target/single_register_access.rs:107-113 | Without a live task of the given number every write is refused, a value of a wrong length before the task is looked for. |
| TaskRegisters.LookupSavedTask | src/sys/freertos/mod.rs:289-299 | No such id if and only if every entry with it is deleted; otherwise the first one that is not decides, by panicking if it is the running task. |
| TaskRegisters.WriteShowsInPacket | src/gdb_target/single_register_access.rs:101-150 | A successful write to another task splices its packet; a value of the other register width panics, and any other length is refused. |
| TaskRegisters.TaskMemory.Sp | src/sys/freertos/api.rs:84-90 | The stack pointer with the frame popped off. |
| TaskRegisters.TaskMemory.SavedContext | src/sys/freertos/api.rs:124-137 | Where the frame lies, or that it has no floating-point part. |
| TaskRegisters.TaskMemory.SetSavedSp | src/sys/freertos/api.rs:100-112 | Stores the new frame address and, if asked, copies the old frame there, overlap included. |
| TaskRegisters.TaskMemory.ReadRegister | src/sys/freertos/mod.rs:117-138 | One register's bytes, an unknown task, or a panic. |
| TaskRegisters.TaskMemory.WriteRegister | src/sys/freertos/mod.rs:140-167 | One register of a sleeping task in place, with every refusal and panic in the source's order. |
| TaskRegisters.TaskMemory.ReadAllRegisters | src/sys/freertos/mod.rs:63-78 | All registers of a sleeping task. |
| TaskRegisters.TaskMemory.WriteAllRegisters | src/sys/freertos/mod.rs:80-115 | Moves the stack pointer, checks the new place, then fills it; memory after success and after a panic. |
| WordWrap.WrappingConserves | ffi/src/panic.rs:64-118 | Lines, the characters that ended them and the waiting text together are the input, over any number of writes. |
| WordWrap.AsciiIsKept | ffi/src/panic.rs:69-75 | ASCII characters stay as they are and each other character becomes a question mark. |
| WordWrap.AsciiReportIsShown | ffi/src/panic.rs:64-118 | ASCII text without NULs and percent signs appears on the display as it was written. |
| WordWrap.WritesCompose | ffi/src/panic.rs:64-118 | How text is cut into writes makes no difference. |
| WordWrap.LinesFit | ffi/src/panic.rs:77-90 | No line exceeds 52 characters or contains a newline; a line is broken inside a word only when it has no space. |
| WordWrap.BreaksAtLastSpace | ffi/src/panic.rs:82-85 | A line broken at a space is as long as it can be: what moves on contains no space. |
| WordWrap.ShownAsItIsIff | ffi/src/panic.rs:91-99 | The line is the format of the call: it is shown as it is if and only if it contains neither a NUL nor a percent sign. |
| WordWrap.ShownIsConservedIff | ffi/src/panic.rs:64-118 | All text is shown or waits if and only if there is no NUL and no percent sign in the text up to what waits. |
| WordWrap.LiteralTextIsShown | ffi/src/panic.rs:64-118 | In particular text without NULs and percent signs is shown completely. |
| WordWrap.DirectiveIsNotShown | ffi/src/panic.rs:91-99 | A line of a percent sign and any other character has no defined display, since the call passes no argument for it. |
| WordWrap.PercentIsHalved | ffi/src/panic.rs:91-99 | Two percent signs are shown as one. |
| WordWrap.ErrorReport.ChooseWrapPoint | ffi/src/panic.rs:78-89 | The break is where the specification puts it, and the line is terminated there. |
| WordWrap.ErrorReport.EndLine | ffi/src/panic.rs:77-112 | Printing and shifting the buffer in place leaves exactly the rest of the line waiting. |
| WordWrap.ErrorReport.PutChar | ffi/src/panic.rs:69-115 | One character in place equals `Put`; every index is in bounds. |
| WordWrap.ErrorReport.WriteStr | ffi/src/panic.rs:64-118 | A whole write in place equals `PutAll` on the ASCII-mapped text. |
| Trampoline.RedirectFunction | src/sdk/mod.rs:39-76 | Writes eight bytes of code and the destination, and syncs the lines of both addresses. |
| Trampoline.CodeIsSynced | src/sdk/mod.rs:73-75 | These two lines cover every byte of the code, wherever it starts. |
| Trampoline.FetchedCode | src/sdk/mod.rs:63-75 | Instruction fetches in the redirected function see the trampoline. |
| Trampoline.PlantedOperations | src/sdk/sdk_trampoline.s:17-39 | By the architecture's encodings the planted words are the loads, the move and the branches of the listing. |
| Trampoline.CallReachesDestination | src/sdk/sdk_trampoline.s:17-42 | A call to a redirected ARM or Thumb function ends up at the destination in the instruction set its lowest bit tells, with only r12 changed, even when the slot is unaligned or in the next line. |
| Trampoline.OnlyThePatchChanges | src/sdk/mod.rs:63-68 | No byte outside the twelve patched ones changes. |

## Assumptions

- The `cobs` and `gdbstub` crates are not part of this model. The codec is the algorithm of Cheshire and
  Baker (IEEE/ACM Transactions on Networking 7(2), 1999) with these assumptions about the crate. A push
  that does not fit leaves the packet unchanged: `src/transport/mux.rs:70-75` relies on it by finishing
  the packet after a failed push, and a crate that had already moved its state would leave a wrong code
  byte there. A final full block is followed directly by the delimiter, as `mux.rs:79-82` says. A zero
  between packets is skipped, and more than 2048 decoded bytes are an error. The protocol is an
  environment that sends any acceptable request at any turn.
- Acceptable requests are those that meet the source's own safety contracts: software breakpoints at
  aligned addresses of the stated instruction set (anything else makes `Instruction::read` panic), steps
  with an aligned PC, and register packets of the right size.
- In runs, the program and the client write outside tracked instructions; what happens otherwise is
  `WriteSurvivesIff`. Bytes they write are excluded from the claim about instruction fetches.
- The PC of running code is aligned for its instruction set and lies below the word 0xFFFF_FFFC.
- A breakpoint register compares the address of the instruction only, and its event comes before the
  execution of a `bkpt` at the same place (section C3.3).
- The display call is C's `printf`: a directive without an argument has no defined meaning.
- The stack pointer of a sleeping task, old and new, has room for a frame that does not overlap the first
  word of its control block; the source demands a valid stack pointer.

## Left out

- Interrupts between leaving the debugger and the exception return: in runs these are one step. A poll there equals one right after it (`PollInExitPath`) but for what fires in the exit path (`ResumptionIsSilentIff`); a debug event inside the exit path is not followed further.
- HwBreakpointManager.HwBreakpointManager.Setup: does not model unlocking the device configuration, the assertions about it and finding the registers, which are I/O; it starts from the registers found.
- Debugger.Debugger.Dispatch: does not model a step request for a task other than the current one, which the source leaves unimplemented and panics on.
- Watchpoints: `Reset` disables them and the debugger never enables one, so no run has a stop for one.
- Barriers, the security filter and the debug status bits other than the mode of debug events and the method of entry: an abstract register file with 1 to 16 registers and a lock takes their place.
- Monitor commands, motors, competition overrides, logging, thread names and lists, memory map, stop-reason packets: no effect on the state modelled.
- The numbers of breakpoint kinds in the protocol: a plain table of three.
- Rate limiting of the interrupt poll: a poll may come at any moment of the running program.
- `overlay.s` apart from the decision whether to resume the scheduler: straight-line saving and restoring.
- The scheduler's own use of its suspension count: the depth here is the debugger's share of it.
- Cache maintenance and evictions by the program: bytes it writes may or may not be visible to fetches.
- Level-two page tables, supersections, domains and the access flag: the source does not look at them.
- `serial::write_all`: its retry loop is one append to the line here.
- The host's connection to GDB, its timing, and errors of its sinks: sinks are sequences of bytes.
- Display drawing: printed lines are recorded in ghost fields; `y_offset` is unbounded.
- Slots and captured registers are objects of their own: `V5Target` holds the slots in a `SwBreakpointTable` and the registers in `exceptionCtx`, and `CapturedRegisters` is the access to such registers by itself.
- Masks and shifts on words are written as remainders and quotients, except for the bitwise or of section B3.5.5.
- A branch of the trampoline to an ARM pointer that is 2 modulo 4 is unpredictable and not executed.
