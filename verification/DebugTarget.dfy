/**
 * The debug target as a value: entering and leaving the debugger, single steps and interrupts.
 *
 * Class `V5Target` performs these operations in place.
 */
module DebugTarget {
  import opened Wrappers
  import opened Bytes
  import opened CodeMemory
  import opened Registers
  import opened SoftwareBreakpoints
  import opened HardwareBreakpoints

  /** An address that no code occupies: a mismatch against it fires on every instruction. */
  const ASYNC_HALT_SENTINEL: u32 := 0xFFFF_FFFC

  datatype StopReason =
    | HardwareBreak
    | TrackedSoftwareBreak(id: nat)
    | UntrackedSoftwareBreak
    | Interrupt
    | Other

  datatype SingleStepRequest = SingleStepRequest(target: u32, kind: ArmBreakpointKind)

  datatype MonitorStatus = Active | Exiting | ResumingProgram

  datatype TargetView = TargetView(
    soft: SoftState,
    hw: HwView,
    ctx: DebugEventContext,
    status: MonitorStatus,
    stop: StopReason,
    originalLock: bool,
    step: Option<SingleStepRequest>,
    interruptPending: bool,
    depth: int)
  {
    ghost predicate Shape() {
      soft.WellFormed() && |soft.data| == MEMORY_SIZE && ctx.Shape()
    }
  }

  function KindOf(ctx: DebugEventContext): ArmBreakpointKind {
    if ctx.Thumb() then Thumb16Kind else Arm32Kind
  }

  /** The program counter is where an instruction of the current set can be, below the last word. */
  predicate AtCode(ctx: DebugEventContext) {
    Aligned(ctx.pc, KindOf(ctx)) && ctx.pc + 4 < MEMORY_SIZE
  }

  // ----- Entering -----

  function Classify(t: TargetView): StopReason {
    match t.hw.entry
    case Some(Breakpoint) => if t.interruptPending then Interrupt else HardwareBreak
    case Some(BkptInstr) =>
      (match FindAddr(t.soft.slots, t.ctx.pc, 0)
       case Some(id) => TrackedSoftwareBreak(id)
       case None => UntrackedSoftwareBreak)
    case _ => Other
  }

  function FinalizeSingleStep(t: TargetView): TargetView {
    match t.step
    case None => t
    case Some(s) => t.(hw := HwRemove(t.hw, s.target, Mismatch, s.kind).0, step := None)
  }

  function FinalizeInterrupt(t: TargetView): TargetView {
    if !t.interruptPending then t
    else t.(hw := HwRemove(t.hw, ASYNC_HALT_SENTINEL, Mismatch, Arm32Kind).0, interruptPending := false)
  }

  /** A `bkpt` of the program's own has done its work: continue behind it. */
  function FixupManualBkpt(t: TargetView): TargetView
    requires t.Shape() && AtCode(t.ctx)
  {
    if t.stop.UntrackedSoftwareBreak? then
      t.(ctx := t.ctx.(pc := t.ctx.pc + ReadInstr(t.soft.data, t.ctx.pc, t.ctx.Thumb()).Size()))
    else t
  }

  /** Breakpoints lifted, scheduler suspended, debug registers unlocked, context captured. */
  function Suspend(t: TargetView, ctx: DebugEventContext): (r: TargetView)
    requires t.Shape() && ctx.Shape()
    ensures r.Shape() && r.ctx == ctx
  {
    t.(soft := SetIgnored(t.soft, true),
       depth := if t.step.None? then t.depth + 1 else t.depth,
       originalLock := t.hw.locked,
       hw := t.hw.(locked := false),
       ctx := ctx,
       status := Active)
  }

  function EnterBreakpoint(t: TargetView, ctx: DebugEventContext): (r: TargetView)
    requires t.Shape() && ctx.Shape() && AtCode(ctx)
    ensures r.Shape()
    ensures r.stop.TrackedSoftwareBreak? ==> AtSlot(r.soft.slots, r.stop.id, ctx.pc)
  {
    var s := Suspend(t, ctx);
    FixupManualBkpt(FinalizeInterrupt(FinalizeSingleStep(s.(stop := Classify(s)))))
  }

  // ----- Leaving -----

  /** Puts breakpoints and lock back; the flag tells the exit path to resume the scheduler. */
  function LeaveBreakpoint(t: TargetView): (r: (TargetView, bool))
    requires t.Shape()
    ensures r.0.Shape()
  {
    (t.(hw := t.hw.(locked := t.originalLock), soft := SetIgnored(t.soft, false)), t.step.None?)
  }

  /** The exit path resumes the scheduler once if told to. */
  function ResumeScheduler(t: TargetView, resume: bool): TargetView {
    if resume then t.(depth := t.depth - 1) else t
  }

  // ----- Stepping and interrupting -----

  function RequestSingleStep(t: TargetView): (TargetView, Result<(), BreakpointError>) {
    if t.step.Some? then (t, Ok(()))
    else
      var (hw', result) := HwAdd(t.hw, t.ctx.pc, Mismatch, KindOf(t.ctx));
      if result.Err? then (t, result)
      else (t.(hw := hw', step := Some(SingleStepRequest(t.ctx.pc, KindOf(t.ctx)))), Ok(()))
  }

  /** The registers after a pending step has given up its slot to the interrupt sentinel. */
  function PlaceSentinel(t: TargetView): (HwView, Result<(), BreakpointError>) {
    var freed := if t.step.Some? then HwRemove(t.hw, t.step.value.target, Mismatch, t.step.value.kind).0 else t.hw;
    HwAdd(freed, ASYNC_HALT_SENTINEL, Mismatch, Arm32Kind)
  }

  /** Neither step of that depends on the lock. */
  lemma PlaceSentinelIgnoresLock(t: TargetView, locked: bool)
    ensures var (hw, result) := PlaceSentinel(t);
      PlaceSentinel(t.(hw := t.hw.(locked := locked))) == (hw.(locked := locked), result)
  {
  }

  function RequestInterrupt(t: TargetView): TargetView {
    if t.interruptPending then t
    else t.(hw := PlaceSentinel(t).0, interruptPending := true)
  }

  // ----- The debugger's own use of the hardware -----

  const SENTINEL := Point(Mismatch, 0xFFFF_FFFC, 0xF)

  /** The mismatch points that the pending requests account for. */
  function PlacedMismatch(t: TargetView): set<Point>
    requires t.step.Some? ==> Aligned(t.step.value.target, t.step.value.kind)
  {
    if t.interruptPending then {SENTINEL}
    else if t.step.Some? then {PointAt(t.step.value.target, Mismatch, t.step.value.kind)}
    else {}
  }

  /** One register is always left for the debugger, and it holds exactly what is pending. */
  ghost predicate HwInv(t: TargetView) {
    && (t.step.Some? ==> Aligned(t.step.value.target, t.step.value.kind))
    && Reserved(t.hw, PlacedMismatch(t))
  }

  lemma SentinelPoint()
    ensures Aligned(ASYNC_HALT_SENTINEL, Arm32Kind)
    ensures PointAt(ASYNC_HALT_SENTINEL, Mismatch, Arm32Kind) == SENTINEL
  {
  }

  lemma ReservedIgnoresLock(v: HwView, locked: bool, mismatch: set<Point>)
    requires Reserved(v, mismatch)
    ensures Reserved(v.(locked := locked), mismatch)
  {
  }

  /** Removing a mismatch that is not placed changes nothing. */
  lemma MismatchAbsent(v: HwView, addr: u32, kind: ArmBreakpointKind, mismatch: set<Point>)
    requires Aligned(addr, kind) && Reserved(v, mismatch) && PointAt(addr, Mismatch, kind) !in mismatch
    ensures HwRemove(v, addr, Mismatch, kind) == (v, false)
  {
    assert PointAt(addr, Mismatch, kind) !in OfKind(v.points, Mismatch);
    assert v.points - {PointAt(addr, Mismatch, kind)} == v.points;
  }

  /** After both finalisations nothing is pending and the reserved register is free. */
  lemma FinalizeFrees(t: TargetView)
    requires HwInv(t)
    ensures var r := FinalizeInterrupt(FinalizeSingleStep(t));
      && r.step.None? && !r.interruptPending
      && HwInv(r) && r.hw.points == OfKind(t.hw.points, Match)
      && r == t.(hw := t.hw.(points := r.hw.points), step := None, interruptPending := false)
  {
    SentinelPoint();
    KindsPartition(t.hw.points);
    if t.step.Some? {
      var s := t.step.value;
      var p := PointAt(s.target, Mismatch, s.kind);
      if p in PlacedMismatch(t) {
        MismatchRemoved(t.hw, s.target, s.kind);
        var u := FinalizeSingleStep(t);
        if t.interruptPending {
          MismatchAbsent(u.hw, ASYNC_HALT_SENTINEL, Arm32Kind, {});
        }
      } else {
        MismatchAbsent(t.hw, s.target, s.kind, PlacedMismatch(t));
        MismatchRemoved(t.hw, ASYNC_HALT_SENTINEL, Arm32Kind);
      }
    } else if t.interruptPending {
      MismatchRemoved(t.hw, ASYNC_HALT_SENTINEL, Arm32Kind);
    }
  }

  /** Entering keeps the user's hardware breakpoints and takes out the debugger's own. */
  lemma EnterHw(t: TargetView, ctx: DebugEventContext)
    requires t.Shape() && HwInv(t) && ctx.Shape() && AtCode(ctx)
    ensures var r := EnterBreakpoint(t, ctx);
      && r.step.None? && !r.interruptPending && HwInv(r)
      && r.hw == HwView(t.hw.n, OfKind(t.hw.points, Match), false, t.hw.entry)
  {
    var s := Suspend(t, ctx);
    FinalizeFrees(s.(stop := Classify(s)));
  }

  /** What entering leaves of the rest of the target. */
  lemma EnterFields(t: TargetView, ctx: DebugEventContext)
    requires t.Shape() && HwInv(t) && ctx.Shape() && AtCode(ctx)
    ensures var r := EnterBreakpoint(t, ctx);
      && r.soft == SetIgnored(t.soft, true)
      && r.depth == (if t.step.None? then t.depth + 1 else t.depth)
      && r.originalLock == t.hw.locked && r.status.Active?
      && r.stop == Classify(Suspend(t, ctx))
      && (!r.stop.UntrackedSoftwareBreak? ==> r.ctx == ctx)
  {
    var s := Suspend(t, ctx);
    FinalizeFrees(s.(stop := Classify(s)));
  }

  /** The program counter is even in Thumb state, which is bit 5 of the status, and a multiple of four otherwise. */
  predicate StepAligned(ctx: DebugEventContext) {
    ctx.pc % (if ctx.cpsr / 32 % 2 == 1 then 2 else 4) == 0
  }

  /** A step can always be placed: the only error left is a misaligned program counter. */
  lemma StepNeverRefused(t: TargetView)
    requires HwInv(t) && !t.interruptPending
    ensures RequestSingleStep(t).1.Ok? <==> t.step.Some? || StepAligned(t.ctx)
    ensures HwInv(RequestSingleStep(t).0)
  {
    if t.step.None? && Aligned(t.ctx.pc, KindOf(t.ctx)) {
      MismatchAlwaysFits(t.hw, t.ctx.pc, KindOf(t.ctx));
    }
  }

  /** The interrupt sentinel can always be placed, whether or not a step is pending. */
  lemma InterruptNeverFails(t: TargetView)
    requires HwInv(t) && !t.interruptPending
    ensures PlaceSentinel(t).1 == Ok(())
    ensures HwInv(RequestInterrupt(t))
    ensures RequestInterrupt(t).hw.points == OfKind(t.hw.points, Match) + {SENTINEL}
  {
    SentinelPoint();
    KindsPartition(t.hw.points);
    if t.step.Some? {
      var s := t.step.value;
      MismatchRemoved(t.hw, s.target, s.kind);
      MismatchAlwaysFits(HwRemove(t.hw, s.target, Mismatch, s.kind).0, ASYNC_HALT_SENTINEL, Arm32Kind);
    } else {
      MismatchAlwaysFits(t.hw, ASYNC_HALT_SENTINEL, Arm32Kind);
    }
  }
}
