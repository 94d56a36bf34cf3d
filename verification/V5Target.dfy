/**
 * The debug target, updated in place.
 *
 * `Valid` carries the hardware reservation, so that no assertion of the register file and no
 * unwrapped result can fail; every method's effect is the operation of the same name on values.
 */
module V5Target {
  import opened Wrappers
  import opened Bytes
  import opened CodeMemory
  import opened Registers
  import opened SoftwareBreakpoints
  import opened SwBreakpointTable
  import opened SoftwareRuns
  import opened HardwareBreakpoints
  import opened HwBreakpointManager
  import opened DebugTarget
  import MemoryAccess
  import Vmsa

  /** The scheduler's suspension count, as far as the debugger drives it. */
  class Scheduler {
    var depth: nat

    constructor ()
      ensures depth == 0
    {
      depth := 0;
    }

    method SuspendAll()
      modifies this
      ensures depth == old(depth) + 1
    {
      depth := depth + 1;
    }

    method ResumeAll()
      requires depth > 0
      modifies this
      ensures depth == old(depth) - 1
    {
      depth := depth - 1;
    }
  }

  class V5Target {
    const soft: SwBreakpointTable
    const hw: HwBreakpointManager
    const scheduler: Scheduler
    var exceptionCtx: DebugEventContext
    var monitorStatus: MonitorStatus
    var stopReason: StopReason
    var originalHwLockState: bool
    var singleStepRequest: Option<SingleStepRequest>
    var interruptPending: bool

    ghost predicate Separate() {
      && hw.values as object !in {soft.mem.data as object, soft.mem.fetch as object, soft.breaks as object}
      && hw.ctrls as object !in {soft.mem.data as object, soft.mem.fetch as object, soft.breaks as object}
      && hw.used as object !in {soft.mem.data as object, soft.mem.fetch as object, soft.breaks as object}
      && hw.values as object != hw.ctrls as object
      && hw.values as object != hw.used as object
      && hw.ctrls as object != hw.used as object
    }

    ghost predicate Wired()
      reads soft.breaks, hw.values, hw.ctrls, hw.used
    {
      soft.Valid() && hw.Valid() && Separate()
    }

    ghost function View(): (t: TargetView)
      requires Wired()
      reads this, soft, hw, scheduler, soft.breaks, soft.mem.data, soft.mem.fetch, hw.values, hw.ctrls, hw.used
    {
      TargetView(soft.State(), hw.View(), exceptionCtx, monitorStatus, stopReason, originalHwLockState,
                 singleStepRequest, interruptPending, scheduler.depth)
    }

    ghost predicate Valid()
      reads this, soft, hw, scheduler, soft.breaks, soft.mem.data, soft.mem.fetch, hw.values, hw.ctrls, hw.used
    {
      Wired() && exceptionCtx.Shape() && HwInv(View())
    }

    constructor (table: SwBreakpointTable, manager: HwBreakpointManager, sched: Scheduler)
      requires table.Valid() && manager.Valid() && manager.Points() == {}
      requires manager.values as object !in {table.mem.data as object, table.mem.fetch as object, table.breaks as object}
      requires manager.ctrls as object !in {table.mem.data as object, table.mem.fetch as object, table.breaks as object}
      requires manager.used as object !in {table.mem.data as object, table.mem.fetch as object, table.breaks as object}
      requires manager.values as object != manager.ctrls as object
      requires manager.values as object != manager.used as object
      requires manager.ctrls as object != manager.used as object
      ensures Valid() && soft == table && hw == manager && scheduler == sched
      ensures View() == TargetView(table.State(), manager.View(), RESET_CONTEXT, ResumingProgram, Other, false,
                                   None, false, sched.depth)
    {
      soft := table;
      hw := manager;
      scheduler := sched;
      exceptionCtx := RESET_CONTEXT;
      monitorStatus := ResumingProgram;
      stopReason := Other;
      originalHwLockState := false;
      singleStepRequest := None;
      interruptPending := false;
      new;
      assert OfKind({}, Match) == {} && OfKind({}, Mismatch) == {};
    }

    method ClassifyStop()
      requires Wired()
      modifies `stopReason
      ensures Wired() && View() == old(View()).(stop := Classify(old(View())))
    {
      var pc := exceptionCtx.pc;
      match hw.entry {
        case Some(Breakpoint) =>
          stopReason := if interruptPending then Interrupt else HardwareBreak;
        case Some(BkptInstr) =>
          var id := soft.QuerySwBreakpoint(pc);
          stopReason := if id.Some? then TrackedSoftwareBreak(id.value) else UntrackedSoftwareBreak;
        case _ =>
          stopReason := Other;
      }
    }

    /** Takes the register of a pending step back. */
    method CompleteSingleStep()
      requires Wired() && !hw.locked
      modifies `singleStepRequest, hw.ctrls, hw.used
      ensures Wired() && View() == FinalizeSingleStep(old(View()))
    {
      if singleStepRequest.Some? {
        var s := singleStepRequest.value;
        singleStepRequest := None;
        var _ := hw.RemoveBreakpointAt(s.target, Mismatch, s.kind);
      }
    }

    /** Takes the register of a pending interrupt back. */
    method CompleteInterrupt()
      requires Wired() && !hw.locked
      modifies `interruptPending, hw.ctrls, hw.used
      ensures Wired() && View() == FinalizeInterrupt(old(View()))
    {
      if interruptPending {
        var _ := hw.RemoveBreakpointAt(ASYNC_HALT_SENTINEL, Mismatch, Arm32Kind);
        interruptPending := false;
      }
    }

    method FixupManualBreakpoint()
      requires Wired() && exceptionCtx.Shape() && AtCode(exceptionCtx)
      modifies `exceptionCtx
      ensures Wired() && View() == FixupManualBkpt(old(View()))
    {
      if stopReason.UntrackedSoftwareBreak? {
        var instr := soft.mem.Read(exceptionCtx.pc, exceptionCtx.Thumb());
        exceptionCtx := exceptionCtx.(pc := exceptionCtx.pc + instr.Size());
      }
    }

    /** Lifts breakpoints, stops the scheduler and unlocks the debug registers. */
    method SuspendProgram(ctx: DebugEventContext)
      requires Wired() && exceptionCtx.Shape() && ctx.Shape()
      modifies this, scheduler, hw`locked, soft`paused, soft.breaks, soft.mem.data, soft.mem.fetch
      ensures Wired() && View() == Suspend(old(View()), ctx)
    {
      soft.SetBreakpointsIgnored(true);
      HoldProgram(ctx);
    }

    /** The part of it that leaves memory alone. */
    method HoldProgram(ctx: DebugEventContext)
      requires Wired()
      modifies this, scheduler, hw`locked
      ensures Wired() && soft.State() == old(soft.State())
      ensures var t := old(View());
        View() == t.(depth := if t.step.None? then t.depth + 1 else t.depth, originalLock := t.hw.locked,
                     hw := t.hw.(locked := false), ctx := ctx, status := Active)
    {
      if singleStepRequest.None? {
        scheduler.SuspendAll();
      }
      originalHwLockState := hw.locked;
      hw.SetLocked(false);
      exceptionCtx := ctx;
      monitorStatus := Active;
    }

    /** Works out why the program stopped and clears away what was pending. */
    method AcknowledgeStop()
      requires Wired() && !hw.locked
      modifies this, hw.ctrls, hw.used
      ensures Wired()
      ensures var t := old(View()); View() == FinalizeInterrupt(FinalizeSingleStep(t.(stop := Classify(t))))
    {
      ClassifyStop();
      CompleteSingleStep();
      CompleteInterrupt();
    }

    /** Activates the debugger after a debug event. */
    method Enter(ctx: DebugEventContext) returns (reason: StopReason)
      requires Valid() && ctx.Shape() && AtCode(ctx)
      modifies this, scheduler, hw`locked, hw.ctrls, hw.used, soft`paused, soft.breaks, soft.mem.data, soft.mem.fetch
      ensures Valid() && View() == EnterBreakpoint(old(View()), ctx) && reason == stopReason
      ensures !interruptPending && !hw.locked
    {
      SuspendProgram(ctx);
      EnterHw(old(View()), ctx);
      AcknowledgeStop();
      FixupManualBreakpoint();
      reason := stopReason;
    }

    /** Deactivates the debugger; returns the context to run and whether to resume the scheduler. */
    method Leave() returns (ctx: DebugEventContext, resumeScheduler: bool)
      requires Valid()
      modifies hw`locked, soft`paused, soft.breaks, soft.mem.data, soft.mem.fetch
      ensures Valid() && (View(), resumeScheduler) == LeaveBreakpoint(old(View())) && ctx == exceptionCtx
    {
      ctx := exceptionCtx;
      resumeScheduler := singleStepRequest.None?;
      hw.SetLocked(originalHwLockState);
      soft.SetBreakpointsIgnored(false);
    }

    method RequestStep() returns (result: Result<(), BreakpointError>)
      requires Valid() && !interruptPending && !hw.locked
      modifies `singleStepRequest, hw.values, hw.ctrls, hw.used
      ensures Valid() && (View(), result) == RequestSingleStep(old(View()))
      ensures result.Ok? <==> old(singleStepRequest).Some? || StepAligned(exceptionCtx)
    {
      StepNeverRefused(View());
      result := PlaceStep();
    }

    method PlaceStep() returns (result: Result<(), BreakpointError>)
      requires Wired() && !hw.locked
      modifies `singleStepRequest, hw.values, hw.ctrls, hw.used
      ensures Wired() && (View(), result) == RequestSingleStep(old(View()))
    {
      if singleStepRequest.Some? {
        return Ok(());
      }
      var kind := if exceptionCtx.Thumb() then Thumb16Kind else Arm32Kind;
      result := hw.AddBreakpointAt(exceptionCtx.pc, Mismatch, kind);
      if result.Err? {
        return;
      }
      singleStepRequest := Some(SingleStepRequest(exceptionCtx.pc, kind));
    }

    /** Gives the sentinel a register, that of a pending step if there is one. */
    method ArmSentinel() returns (result: Result<(), BreakpointError>)
      requires Wired() && !hw.locked
      modifies hw.values, hw.ctrls, hw.used
      ensures Wired() && (hw.View(), result) == PlaceSentinel(old(View()))
    {
      if singleStepRequest.Some? {
        var s := singleStepRequest.value;
        var _ := hw.RemoveBreakpointAt(s.target, Mismatch, s.kind);
      }
      result := hw.AddBreakpointAt(ASYNC_HALT_SENTINEL, Mismatch, Arm32Kind);
    }

    /** The same whatever the lock was, which is put back. */
    method ArmSentinelUnlocked() returns (result: Result<(), BreakpointError>)
      requires Wired()
      modifies hw`locked, hw.values, hw.ctrls, hw.used
      ensures Wired() && (hw.View(), result) == PlaceSentinel(old(View()))
    {
      var wasLocked := hw.locked;
      PlaceSentinelIgnoresLock(View(), false);
      hw.SetLocked(false);
      result := ArmSentinel();
      hw.SetLocked(wasLocked);
    }

    /** Arms the sentinel from interrupt context; the unwrapped result is proved to be Ok. */
    method RequestHalt()
      requires Valid()
      modifies `interruptPending, hw`locked, hw.values, hw.ctrls, hw.used
      ensures Valid() && View() == RequestInterrupt(old(View()))
    {
      if interruptPending {
        return;
      }
      InterruptNeverFails(View());
      ArmInterrupt();
    }

    /** The `unwrap` of the result. */
    method ArmInterrupt()
      requires Wired() && !interruptPending && PlaceSentinel(View()).1 == Ok(())
      modifies `interruptPending, hw`locked, hw.values, hw.ctrls, hw.used
      ensures Wired() && View() == RequestInterrupt(old(View()))
    {
      var result := ArmSentinelUnlocked();
      assert result == Ok(());
      interruptPending := true;
    }

    /** A breakpoint for the debugger itself. */
    method RegisterInternal(addr: u32, thumb: bool) returns (result: Result<(), BreakpointError>)
      requires Valid() && LOWEST_WRITABLE <= addr && InstrAddr(soft.mem.data[..], addr, thumb)
      modifies soft.breaks, soft.mem.data, soft.mem.fetch
      ensures Valid()
      ensures var (st, registered) := Register(old(View()).soft, addr, thumb, true);
        View() == old(View()).(soft := st) && result == registered
    {
      result := soft.RegisterSwBreakpoint(addr, thumb, true);
    }

    // ----- Requests of the client -----

    method AddSwBreakpoint(addr: u32, kind: ArmBreakpointKind) returns (added: bool)
      requires Valid() && (LOWEST_WRITABLE <= addr ==> InstrAddr(soft.mem.data[..], addr, !kind.Arm32Kind?))
      modifies soft.breaks, soft.mem.data, soft.mem.fetch
      ensures Valid()
      ensures var (st, result) := Register(old(View()).soft, addr, !kind.Arm32Kind?, false);
        View() == old(View()).(soft := st) && (added <==> result.Ok?)
    {
      var result := soft.RegisterSwBreakpoint(addr, !kind.Arm32Kind?, false);
      added := result.Ok?;
    }

    method RemoveSwBreakpoint(addr: u32, internal: bool) returns (changed: bool)
      requires Valid()
      modifies soft.breaks, soft.mem.data, soft.mem.fetch
      ensures Valid()
      ensures var (st, dropped) := Remove(old(View()).soft, addr, internal);
        View() == old(View()).(soft := st) && changed == dropped
    {
      changed := soft.RemoveSwBreakpoint(addr, internal);
    }

    method AddHwBreakpoint(addr: u32, kind: ArmBreakpointKind) returns (added: bool)
      requires Valid() && !hw.locked
      modifies hw.values, hw.ctrls, hw.used
      ensures Valid()
      ensures var (v, ok) := HardwareBreakpoints.AddHwBreakpoint(old(View()).hw, addr, kind);
        View() == old(View()).(hw := v) && added == ok
    {
      AddHwKeepsReserve(View().hw, addr, kind, PlacedMismatch(View()));
      added := hw.AddHwBreakpointAt(addr, kind);
    }

    method RemoveHwBreakpoint(addr: u32, kind: ArmBreakpointKind) returns (removed: bool)
      requires Valid() && !hw.locked
      modifies hw.ctrls, hw.used
      ensures Valid()
      ensures var (v, ok) := HwRemove(old(View()).hw, addr, Match, kind);
        View() == old(View()).(hw := v) && removed == ok
    {
      RemoveHwKeepsReserve(View().hw, addr, kind, PlacedMismatch(View()));
      removed := hw.RemoveBreakpointAt(addr, Match, kind);
    }

    method WriteAllRegisters(ctx: DebugEventContext)
      requires Valid() && ctx.Shape()
      modifies `exceptionCtx
      ensures Valid() && View() == old(View()).(ctx := ctx)
    {
      exceptionCtx := ctx;
    }

    /** Lets the program go on at the end of the console loop. */
    method ResumeProgram()
      requires Valid()
      modifies `monitorStatus
      ensures Valid() && View() == old(View()).(status := ResumingProgram)
    {
      monitorStatus := ResumingProgram;
    }

    /**
     * A client's write: all of it if every byte may be written, and otherwise an error. Neither the
     * backups of breakpoints nor the fetch view are told.
     */
    method WriteAddrs(mmu: Vmsa.Mmu, addr: u32, bytes: seq<byte>) returns (written: bool)
      requires Valid() && mmu.Ok() && |bytes| <= MemoryAccess.TOP
      modifies soft.mem.data
      ensures Valid()
      ensures written <==>
        addr + |bytes| <= MemoryAccess.TOP && MemoryAccess.AllAccessible(mmu, addr, addr + |bytes|, true)
      ensures View() == if written then old(View()).(soft := Store(old(View()).soft, addr, bytes)) else old(View())
    {
      var end := MemoryAccess.SaturatingAdd(addr, |bytes|);
      var writable := MemoryAccess.TestAccess(mmu, addr, end, true);
      if writable < |bytes| {
        return false;
      }
      WriteBytes(addr, bytes);
      written := true;
    }

    /** The store itself. */
    method WriteBytes(addr: u32, bytes: seq<byte>)
      requires Valid() && addr + |bytes| <= MEMORY_SIZE
      modifies soft.mem.data
      ensures Valid() && View() == old(View()).(soft := Store(old(View()).soft, addr, bytes))
    {
      soft.mem.WriteBytes(addr, bytes);
    }
  }
}
