/**
 * The debugger object: its reaction to stops, the console loop and the interrupt poll, in place.
 */
module Debugger {
  import opened Wrappers
  import opened Bytes
  import opened CodeMemory
  import opened Registers
  import opened SoftwareBreakpoints
  import opened SoftwareRefinement
  import opened DebugTarget
  import opened V5Target
  import opened DebugSession

  /** No request of the client locks the debug registers or arms an interrupt. */
  lemma TickKeepsUnlocked(s: SessionView, input: TickInput)
    requires s.target.Shape() && TickAcceptable(s, input)
    ensures Tick(s, input).target.hw.locked == s.target.hw.locked
    ensures Tick(s, input).target.interruptPending == s.target.interruptPending
  {
  }

  // ----- The scheduler is held until the exit path -----

  lemma TickKeepsDepth(s: SessionView, input: TickInput)
    requires s.target.Shape() && TickAcceptable(s, input)
    ensures Tick(s, input).target.depth == s.target.depth
  {
  }

  lemma {:induction false} ConsoleKeepsDepth(s: SessionView, inputs: seq<TickInput>)
    requires s.target.Shape() && ConsoleEnds(s, inputs)
    ensures RunConsole(s, inputs).target.depth == s.target.depth
    decreases |inputs|
  {
    if !s.target.status.ResumingProgram? {
      TickKeepsDepth(s, inputs[0]);
      ConsoleKeepsDepth(Tick(s, inputs[0]), inputs[1..]);
    }
  }

  /** A pending step still holds the scheduler. */
  predicate HoldsScheduler(t: TargetView) {
    t.depth >= 0 && (t.step.Some? ==> t.depth > 0)
  }

  lemma EventHoldsScheduler(s: SessionView, ctx: DebugEventContext, inputs: seq<TickInput>)
    requires s.target.Shape() && ctx.Shape() && AtCode(ctx) && EventEnds(s, ctx, inputs) && HoldsScheduler(s.target)
    ensures EventServed(s, ctx, inputs).target.depth > 0
  {
    var stopped := AtStop(s, ctx);
    assert stopped.target.depth == Suspend(s.target, ctx).depth > 0;
    var (r, action) := HandleStop(stopped);
    assert r.target.depth == stopped.target.depth;
    if action.EnterMonitor? {
      ConsoleKeepsDepth(Opened(r), inputs);
    }
  }

  class Debugger {
    const target: V5Target
    var stage: SessionStage
    /** The address of the exit hook, once planted. */
    var exitHook: Option<u32>

    ghost function View(): SessionView
      requires target.Wired()
      reads this, target, target.soft, target.hw, target.scheduler, target.soft.breaks, target.soft.mem.data,
        target.soft.mem.fetch, target.hw.values, target.hw.ctrls, target.hw.used
    {
      SessionView(target.View(), stage, exitHook)
    }

    constructor (debugTarget: V5Target)
      requires debugTarget.Valid()
      ensures target == debugTarget && View() == SessionView(debugTarget.View(), Uninitialized, None)
    {
      target := debugTarget;
      stage := Uninitialized;
      exitHook := None;
    }

    /** Plants the exit hook on the system's exit function. */
    method RegisterInternalBreakpoints(exitFunction: u32)
      requires target.Valid() && exitHook.None?
      requires LOWEST_WRITABLE <= CodeOf(exitFunction)
      requires InstrAddr(target.soft.mem.data[..], CodeOf(exitFunction), IsThumbCode(exitFunction))
      requires forall k :: 0 <= k < SLOTS ==> target.soft.breaks[k].None?
      modifies this, target.soft.breaks, target.soft.mem.data, target.soft.mem.fetch
      ensures target.Valid()
      ensures (View(), Ok(())) == DebugSession.RegisterInternalBreakpoints(old(View()), exitFunction)
    {
      RegisterHook(CodeOf(exitFunction), IsThumbCode(exitFunction));
    }

    /** The `unwrap` insists that this succeeds, as it does in an empty table. */
    method RegisterHook(addr: u32, thumb: bool)
      requires target.Valid() && LOWEST_WRITABLE <= addr && InstrAddr(target.soft.mem.data[..], addr, thumb)
      requires forall k :: 0 <= k < SLOTS ==> target.soft.breaks[k].None?
      modifies this, target.soft.breaks, target.soft.mem.data, target.soft.mem.fetch
      ensures target.Valid()
      ensures (View(), Ok(())) == PlantHook(old(View()), addr, thumb)
    {
      EmptyTableTakes(target.soft.State(), addr, thumb, true);
      var result := target.RegisterInternal(addr, thumb);
      assert result.Ok?;
      exitHook := Some(addr);
    }

    method HandleInternalBreakpoint() returns (action: StopAction)
      requires target.Valid()
      modifies target`monitorStatus, target.soft.breaks, target.soft.mem.data, target.soft.mem.fetch
      ensures target.Valid()
      ensures (View(), action) == DebugSession.HandleInternalBreakpoint(old(View()))
    {
      var pc := target.exceptionCtx.pc;
      if exitHook != Some(pc) {
        return Resume;
      }
      var _ := target.RemoveSwBreakpoint(pc, true);
      if !HasClient(stage) {
        return Resume;
      }
      target.monitorStatus := Exiting;
      action := EnterMonitor;
    }

    method HandleStop(reason: StopReason) returns (action: StopAction)
      requires target.Valid() && reason == target.stopReason
      requires reason.TrackedSoftwareBreak? ==> reason.id < SLOTS && target.soft.breaks[reason.id].Some?
      modifies target`monitorStatus, target.soft.breaks, target.soft.mem.data, target.soft.mem.fetch
      ensures target.Valid()
      ensures (View(), action) == DebugSession.HandleStop(old(View()))
    {
      if !reason.TrackedSoftwareBreak? {
        return EnterMonitor;
      }
      var breakpoint := target.soft.breaks[reason.id].value;
      var internalAction := Resume;
      if breakpoint.reason.internal {
        internalAction := HandleInternalBreakpoint();
      }
      action := if breakpoint.reason.user then EnterMonitor else internalAction;
    }

    /** Carries out one request of the client. */
    method Dispatch(c: GdbCommand)
      requires target.Valid() && !target.interruptPending && !target.hw.locked
      requires Acceptable(target.View(), c)
      modifies target, target.soft.breaks, target.soft.mem.data, target.soft.mem.fetch,
        target.hw.values, target.hw.ctrls, target.hw.used
      ensures target.Valid() && View() == old(View()).(target := Apply(old(target.View()), c))
    {
      match c {
        case AddSwBreakpoint(addr, kind) => var _ := target.AddSwBreakpoint(addr, kind);
        case RemoveSwBreakpoint(addr, _) => var _ := target.RemoveSwBreakpoint(addr, false);
        case AddHw(addr, kind) => var _ := target.AddHwBreakpoint(addr, kind);
        case RemoveHw(addr, kind) => var _ := target.RemoveHwBreakpoint(addr, kind);
        case WriteRegisters(ctx) => target.WriteAllRegisters(ctx);
        case WriteMemory(addr, bytes) => target.WriteBytes(addr, bytes);
        case Step =>
          var result := target.RequestStep();
          assert result.Ok?;
          target.ResumeProgram();
        case Continue => target.ResumeProgram();
      }
    }

    /** One turn of the console loop. */
    method TickStateMachine(input: TickInput)
      requires target.Valid() && !target.interruptPending && !target.hw.locked
      requires TickAcceptable(View(), input)
      modifies this, target, target.soft.breaks, target.soft.mem.data, target.soft.mem.fetch,
        target.hw.values, target.hw.ctrls, target.hw.used
      ensures target.Valid() && View() == Tick(old(View()), input)
    {
      match stage {
        case Idle =>
          if input.command.Some? {
            Dispatch(input.command.value);
          }
        case Running => FinishExit();
        case Disconnected => FinishExit();
        case CtrlCInterrupt =>
      }
      stage := input.next;
    }

    method FinishExit()
      requires target.Valid()
      modifies target`monitorStatus
      ensures target.Valid() && View() == old(View()).(target := EndExit(old(target.View())))
    {
      if target.monitorStatus.Exiting? {
        target.ResumeProgram();
      }
    }

    /** Serves the client until the program is to be resumed. */
    method RunDebugConsole(inputs: seq<TickInput>)
      requires target.Valid() && !target.interruptPending && !target.hw.locked
      requires ConsoleEnds(Opened(View()), inputs)
      modifies this, target, target.soft.breaks, target.soft.mem.data, target.soft.mem.fetch,
        target.hw.values, target.hw.ctrls, target.hw.used
      ensures target.Valid() && View() == RunConsole(Opened(old(View())), inputs)
    {
      if stage.Uninitialized? {
        stage := Idle;
      }
      var k := 0;
      while !target.monitorStatus.ResumingProgram?
        invariant target.Valid() && !target.interruptPending && !target.hw.locked && k <= |inputs|
        invariant ConsoleEnds(View(), inputs[k..])
        invariant RunConsole(View(), inputs[k..]) == RunConsole(Opened(old(View())), inputs)
        decreases |inputs| - k
      {
        assert inputs[k..][1..] == inputs[k + 1..];
        TickKeepsUnlocked(View(), inputs[k]);
        TickStateMachine(inputs[k]);
        k := k + 1;
      }
    }

    /** Enters, reacts, serves the client if the stop is to be seen, and leaves. */
    method HandleDebugEvent(ctx: DebugEventContext, inputs: seq<TickInput>)
      returns (resumed: DebugEventContext, resumeScheduler: bool)
      requires target.Valid() && ctx.Shape() && AtCode(ctx) && EventEnds(View(), ctx, inputs)
      modifies this, target, target.scheduler, target.soft`paused, target.soft.breaks, target.soft.mem.data,
        target.soft.mem.fetch, target.hw`locked, target.hw.values, target.hw.ctrls, target.hw.used
      ensures target.Valid()
      ensures var served := EventServed(old(View()), ctx, inputs);
        && View() == served.(target := LeaveBreakpoint(served.target).0)
        && resumeScheduler == LeaveBreakpoint(served.target).1
        && resumed == served.target.ctx
    {
      var reason := target.Enter(ctx);
      assert View() == AtStop(old(View()), ctx);
      var action := HandleStop(reason);
      if action.EnterMonitor? {
        RunDebugConsole(inputs);
      }
      resumed, resumeScheduler := target.Leave();
    }

    /**
     * The exception path around the handler: it resumes the scheduler if the handler says so, which
     * then is suspended.
     */
    method ServeException(ctx: DebugEventContext, inputs: seq<TickInput>) returns (resumed: DebugEventContext)
      requires target.Valid() && ctx.Shape() && AtCode(ctx) && EventEnds(View(), ctx, inputs)
      requires HoldsScheduler(target.View())
      modifies this, target, target.scheduler, target.soft`paused, target.soft.breaks, target.soft.mem.data,
        target.soft.mem.fetch, target.hw`locked, target.hw.values, target.hw.ctrls, target.hw.used
      ensures target.Valid() && HoldsScheduler(target.View())
      ensures var served := EventServed(old(View()), ctx, inputs);
        var (left, resume) := LeaveBreakpoint(served.target);
        View() == served.(target := ResumeScheduler(left, resume)) && resumed == served.target.ctx
    {
      EventHoldsScheduler(View(), ctx, inputs);
      var resumeScheduler;
      resumed, resumeScheduler := HandleDebugEvent(ctx, inputs);
      if resumeScheduler {
        target.scheduler.ResumeAll();
      }
    }

    /** Called from interrupt context while the session is not in use. */
    method Poll(pending: seq<byte>)
      requires target.Valid()
      modifies target`interruptPending, target.hw`locked, target.hw.values, target.hw.ctrls, target.hw.used
      ensures target.Valid() && View() == DebugSession.Poll(old(View()), pending)
    {
      if !stage.Running? {
        return;
      }
      for k := 0 to |pending|
        invariant unchanged(target) && unchanged(target.hw) && unchanged(target.hw.values)
        invariant unchanged(target.hw.ctrls) && unchanged(target.hw.used)
        invariant CTRL_C !in pending[..k]
      {
        if pending[k] == CTRL_C {
          target.RequestHalt();
          return;
        }
      }
      assert pending[..|pending|] == pending;
    }
  }
}
