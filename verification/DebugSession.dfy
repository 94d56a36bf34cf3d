/**
 * A debug session as a value: what the debugger does at a stop, in its console, and on the
 * interrupt poll. The remote protocol itself is left to the environment, which chooses the
 * commands that arrive.
 */
module DebugSession {
  import opened Wrappers
  import opened Bytes
  import opened CodeMemory
  import opened Registers
  import opened SoftwareBreakpoints
  import opened SoftwareRuns
  import opened HardwareBreakpoints
  import opened DebugTarget

  const CTRL_C: byte := 0x03

  /** The life of the protocol connection. */
  datatype SessionStage = Uninitialized | Idle | Running | CtrlCInterrupt | Disconnected

  datatype SessionView = SessionView(target: TargetView, stage: SessionStage, exitHook: Option<u32>)

  datatype StopAction = Resume | EnterMonitor

  /** Requests from the client that change the target. */
  datatype GdbCommand =
    | AddSwBreakpoint(addr: u32, kind: ArmBreakpointKind)
    | RemoveSwBreakpoint(addr: u32, kind: ArmBreakpointKind)
    | AddHw(addr: u32, kind: ArmBreakpointKind)
    | RemoveHw(addr: u32, kind: ArmBreakpointKind)
    | WriteRegisters(ctx: DebugEventContext)
    | WriteMemory(addr: u32, bytes: seq<byte>)
    | Step
    | Continue

  // ----- Commands on the target -----

  /** What the target demands of a command; anything else would make it panic or touch bad memory. */
  ghost predicate Acceptable(t: TargetView, c: GdbCommand)
    requires t.Shape()
  {
    match c
    case AddSwBreakpoint(addr, kind) =>
      LOWEST_WRITABLE <= addr ==> InstrAddr(t.soft.data, addr, !kind.Arm32Kind?)
    case WriteRegisters(ctx) => ctx.Shape()
    case WriteMemory(addr, bytes) => addr + |bytes| <= MEMORY_SIZE
    case Step => t.step.Some? || Aligned(t.ctx.pc, KindOf(t.ctx))
    case _ => true
  }

  ghost function Apply(t: TargetView, c: GdbCommand): (r: TargetView)
    requires t.Shape() && Acceptable(t, c)
    ensures r.Shape()
  {
    match c
    case AddSwBreakpoint(addr, kind) => t.(soft := Register(t.soft, addr, !kind.Arm32Kind?, false).0)
    case RemoveSwBreakpoint(addr, _) => t.(soft := Remove(t.soft, addr, false).0)
    case AddHw(addr, kind) => t.(hw := AddHwBreakpoint(t.hw, addr, kind).0)
    case RemoveHw(addr, kind) => t.(hw := HwRemove(t.hw, addr, Match, kind).0)
    case WriteRegisters(ctx) => t.(ctx := ctx)
    case WriteMemory(addr, bytes) => t.(soft := Store(t.soft, addr, bytes))
    case Step => RequestSingleStep(t).0.(status := ResumingProgram)
    case Continue => t.(status := ResumingProgram)
  }

  // ----- At a stop -----

  function HasClient(stage: SessionStage): bool {
    !stage.Disconnected? && !stage.Uninitialized?
  }

  /** At the exit hook: forget the hook, and stop only for a client that can be told. */
  function HandleInternalBreakpoint(s: SessionView): (SessionView, StopAction)
    requires s.target.Shape()
  {
    if s.exitHook != Some(s.target.ctx.pc) then (s, Resume)
    else
      var t := s.target.(soft := Remove(s.target.soft, s.target.ctx.pc, true).0);
      if !HasClient(s.stage) then (s.(target := t), Resume)
      else (s.(target := t.(status := Exiting)), EnterMonitor)
  }

  function HandleStop(s: SessionView): (SessionView, StopAction)
    requires s.target.Shape()
    requires s.target.stop.TrackedSoftwareBreak? ==>
      s.target.stop.id < SLOTS && s.target.soft.slots[s.target.stop.id].Some?
  {
    if !s.target.stop.TrackedSoftwareBreak? then (s, EnterMonitor)
    else
      var reason := s.target.soft.slots[s.target.stop.id].value.reason;
      var (s', internalAction) := if reason.internal then HandleInternalBreakpoint(s) else (s, Resume);
      (s', if reason.user then EnterMonitor else internalAction)
  }

  /** Plants the exit hook and remembers it. */
  function PlantHook(s: SessionView, addr: u32, thumb: bool): (SessionView, Result<(), BreakpointError>)
    requires s.target.Shape() && (LOWEST_WRITABLE <= addr ==> InstrAddr(s.target.soft.data, addr, thumb))
  {
    var (soft', result) := Register(s.target.soft, addr, thumb, true);
    (s.(target := s.target.(soft := soft'), exitHook := Some(addr)), result)
  }

  /** A function's address carries the Thumb bit. */
  function CodeOf(pointer: u32): u32 {
    pointer - pointer % 2
  }

  predicate IsThumbCode(pointer: u32) {
    pointer % 2 == 1
  }

  function RegisterInternalBreakpoints(s: SessionView, exitFunction: u32): (SessionView, Result<(), BreakpointError>)
    requires s.target.Shape()
    requires LOWEST_WRITABLE <= CodeOf(exitFunction) ==>
      InstrAddr(s.target.soft.data, CodeOf(exitFunction), IsThumbCode(exitFunction))
  {
    PlantHook(s, CodeOf(exitFunction), IsThumbCode(exitFunction))
  }

  // ----- The console -----

  /** One turn of the console: the command that arrived, if any, and where the protocol goes next. */
  datatype TickInput = TickInput(command: Option<GdbCommand>, next: SessionStage)

  ghost predicate TickAcceptable(s: SessionView, input: TickInput)
    requires s.target.Shape()
  {
    match s.stage
    case Uninitialized => false
    case Idle =>
      (match input.command
       case None => !input.next.Uninitialized? && !input.next.Running?
       case Some(c) => Acceptable(s.target, c) && (if c.Step? || c.Continue? then input.next.Running? else input.next.Idle?))
    case Running => input.command.None? && (input.next.Idle? || input.next.Disconnected?)
    case CtrlCInterrupt => input.command.None? && (input.next.Idle? || input.next.Running?)
    case Disconnected => input.command.None? && input.next.Idle?
  }

  /** A reported exit, or a client that leaves during one, lets the program go. */
  function EndExit(t: TargetView): TargetView {
    if t.status.Exiting? then t.(status := ResumingProgram) else t
  }

  ghost function Tick(s: SessionView, input: TickInput): (r: SessionView)
    requires s.target.Shape() && TickAcceptable(s, input)
    ensures r.target.Shape()
  {
    var target :=
      match s.stage
      case Idle => if input.command.Some? then Apply(s.target, input.command.value) else s.target
      case Running => EndExit(s.target)
      case Disconnected => EndExit(s.target)
      case _ => s.target;
    s.(target := target, stage := input.next)
  }

  /** The console opens the connection on first use. */
  function Opened(s: SessionView): SessionView {
    if s.stage.Uninitialized? then s.(stage := Idle) else s
  }

  /** Every turn up to the resumption is acceptable, and there is a resumption. */
  ghost predicate ConsoleEnds(s: SessionView, inputs: seq<TickInput>)
    requires s.target.Shape()
    decreases |inputs|
  {
    s.target.status.ResumingProgram?
    || (inputs != [] && TickAcceptable(s, inputs[0]) && ConsoleEnds(Tick(s, inputs[0]), inputs[1..]))
  }

  /** The console takes turns until the program is to be resumed. */
  ghost function RunConsole(s: SessionView, inputs: seq<TickInput>): (r: SessionView)
    requires s.target.Shape() && ConsoleEnds(s, inputs)
    ensures r.target.Shape() && r.target.status.ResumingProgram?
    decreases |inputs|
  {
    if s.target.status.ResumingProgram? then s else RunConsole(Tick(s, inputs[0]), inputs[1..])
  }

  // ----- A whole debug event -----

  function AtStop(s: SessionView, ctx: DebugEventContext): (r: SessionView)
    requires s.target.Shape() && ctx.Shape() && AtCode(ctx)
    ensures r.target.Shape()
    ensures r.target.stop.TrackedSoftwareBreak? ==> AtSlot(r.target.soft.slots, r.target.stop.id, ctx.pc)
  {
    s.(target := EnterBreakpoint(s.target, ctx))
  }

  /** If the stop leads into the console, the client sooner or later lets the program go. */
  ghost predicate EventEnds(s: SessionView, ctx: DebugEventContext, inputs: seq<TickInput>)
    requires s.target.Shape() && ctx.Shape() && AtCode(ctx)
  {
    var (r, action) := HandleStop(AtStop(s, ctx));
    action.EnterMonitor? ==> ConsoleEnds(Opened(r), inputs)
  }

  /** The session after the event, before it is left. */
  ghost function EventServed(s: SessionView, ctx: DebugEventContext, inputs: seq<TickInput>): (r: SessionView)
    requires s.target.Shape() && ctx.Shape() && AtCode(ctx) && EventEnds(s, ctx, inputs)
    ensures r.target.Shape()
  {
    var (r, action) := HandleStop(AtStop(s, ctx));
    if action.EnterMonitor? then RunConsole(Opened(r), inputs) else r
  }

  // ----- The interrupt poll -----

  /** Only a client waiting for a running program can interrupt it. */
  function Poll(s: SessionView, pendingBytes: seq<byte>): SessionView {
    if s.stage.Running? && CTRL_C in pendingBytes then s.(target := RequestInterrupt(s.target)) else s
  }
}
