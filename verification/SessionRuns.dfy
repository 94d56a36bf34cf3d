/**
 * Whole runs of a debugged program: the program executing, debug events, the console, resuming.
 */
module SessionRuns {
  import opened Wrappers
  import opened Bytes
  import opened CodeMemory
  import opened Registers
  import opened SoftwareBreakpoints
  import opened SoftwareInvariants
  import opened SoftwareRefinement
  import opened SoftwareRuns
  import opened HardwareBreakpoints
  import opened DebugTarget
  import opened DebugSession

  /**
   * A moment of a run. `image` is memory as the program and the client have written it, and
   * `touched` the addresses they have written; the debugger itself knows neither.
   */
  datatype Moment = Moment(
    s: SessionView,
    cpu: DebugEventContext,
    inMonitor: bool,
    image: seq<byte>,
    touched: set<int>,
    userLock: bool,
    exits: nat)

  datatype Event =
    | Execute(next: DebugEventContext, at: nat, bytes: seq<byte>)
    | DebugEvent
    | PollInterrupt(pending: seq<byte>)
    | Console(input: TickInput)
    | ReturnToProgram

  /** The debug logic raises an event for the instruction at the address. */
  ghost predicate HardwareFires(t: TargetView, pc: u32) {
    exists p :: p in t.hw.points && Fires(p, pc)
  }

  /** The debug event, if any, that the processor raises instead of executing at the PC. */
  ghost function PendingEvent(m: Moment): Option<DebugEventReason>
    requires m.s.target.Shape() && AtCode(m.cpu)
  {
    if HardwareFires(m.s.target, m.cpu.pc) then Some(Breakpoint)
    else if ReadInstr(m.s.target.soft.fetch, m.cpu.pc, m.cpu.Thumb()).IsBkpt() then Some(BkptInstr)
    else None
  }

  ghost predicate Shape(m: Moment) {
    m.s.target.Shape() && m.cpu.Shape() && AtCode(m.cpu) && |m.image| == MEMORY_SIZE
  }

  // ----- The invariant of every run -----

  /** The debugger's share of the scheduler's suspension count. */
  function ExpectedDepth(m: Moment): nat {
    if m.inMonitor || m.s.target.step.Some? then 1 else 0
  }

  ghost predicate ExitHookInv(m: Moment) {
    && m.s.exitHook.Some?
    && Wanted(m.s.target.soft.slots, true) <= {m.s.exitHook.value}
    && m.exits <= 1
    && (m.exits == 1 ==> Wanted(m.s.target.soft.slots, true) == {})
  }

  ghost predicate ModeInv(m: Moment) {
    var t := m.s.target;
    && t.soft.paused == m.inMonitor
    && t.depth == ExpectedDepth(m)
    && (m.inMonitor ==> !t.hw.locked && !t.interruptPending && t.originalLock == m.userLock && !m.s.stage.Uninitialized?)
    && (m.inMonitor && !t.status.ResumingProgram? ==> t.step.None?)
    && (!m.inMonitor ==> t.hw.locked == m.userLock && Armed(t.soft))
  }

  ghost predicate RunInv(m: Moment) {
    && Shape(m)
    && SoftInv(m.s.target.soft, m.image)
    && Coherent(m.s.target.soft, m.touched)
    && HwInv(m.s.target)
    && ModeInv(m)
    && ExitHookInv(m)
  }

  // ----- Steps -----

  /** Client writes stay clear of the instructions that breakpoints stand for. */
  ghost predicate Careful(t: TargetView, c: GdbCommand) {
    c.WriteMemory? ==> AvoidsExtents(t.soft.slots, c.addr, |c.bytes|)
  }

  ghost predicate Legal(m: Moment, e: Event) {
    && Shape(m)
    && match e
       case Execute(next, at, bytes) =>
         && !m.inMonitor && PendingEvent(m).None? && next.Shape() && AtCode(next)
         && at + |bytes| <= MEMORY_SIZE && AvoidsExtents(m.s.target.soft.slots, at, |bytes|)
       case DebugEvent => !m.inMonitor && PendingEvent(m).Some?
       case PollInterrupt(_) => !m.inMonitor
       case Console(input) =>
         && m.inMonitor && !m.s.target.status.ResumingProgram? && TickAcceptable(m.s, input)
         && (m.s.stage.Idle? && input.command.Some? ==> Careful(m.s.target, input.command.value))
       case ReturnToProgram => m.inMonitor && m.s.target.status.ResumingProgram? && AtCode(m.s.target.ctx)
  }

  /** The state right after the processor has entered the debugger and the stop is classified. */
  ghost function Entered(m: Moment): (r: SessionView)
    requires Shape(m) && PendingEvent(m).Some?
    ensures r.target.Shape()
    ensures r.target.stop.TrackedSoftwareBreak? ==> AtSlot(r.target.soft.slots, r.target.stop.id, m.cpu.pc)
  {
    var t := m.s.target.(hw := m.s.target.hw.(entry := PendingEvent(m)));
    AtStop(m.s.(target := t), m.cpu)
  }

  /** Returning to the program, with the exit path's resumption of the scheduler. */
  ghost function Returned(m: Moment, s: SessionView): Moment
    requires s.target.Shape()
  {
    var (t, resume) := LeaveBreakpoint(s.target);
    m.(s := s.(target := ResumeScheduler(t, resume)), cpu := s.target.ctx, inMonitor := false)
  }

  ghost function AfterDebugEvent(m: Moment): Moment
    requires Shape(m) && PendingEvent(m).Some?
  {
    var (s, action) := HandleStop(Entered(m));
    var exits := m.exits + if s.target.status.Exiting? then 1 else 0;
    if action.EnterMonitor? then m.(s := Opened(s), inMonitor := true, exits := exits)
    else Returned(m, s).(exits := exits)
  }

  ghost function AfterConsole(m: Moment, input: TickInput): Moment
    requires m.s.target.Shape() && |m.image| == MEMORY_SIZE && TickAcceptable(m.s, input)
  {
    var m' := m.(s := Tick(m.s, input));
    if m.s.stage.Idle? && input.command.Some? && input.command.value.WriteMemory? then
      var c := input.command.value;
      m'.(image := Splice(m.image, c.addr, c.bytes), touched := m.touched + Span(c.addr, |c.bytes|))
    else m'
  }

  ghost function AfterExecute(m: Moment, next: DebugEventContext, at: nat, bytes: seq<byte>): Moment
    requires m.s.target.Shape() && |m.image| == MEMORY_SIZE && at + |bytes| <= MEMORY_SIZE
  {
    m.(s := m.s.(target := m.s.target.(soft := Store(m.s.target.soft, at, bytes))), cpu := next,
       image := Splice(m.image, at, bytes), touched := m.touched + Span(at, |bytes|))
  }

  ghost function Next(m: Moment, e: Event): Moment
    requires Legal(m, e)
  {
    match e
    case Execute(next, at, bytes) => AfterExecute(m, next, at, bytes)
    case DebugEvent => AfterDebugEvent(m)
    case PollInterrupt(pending) => m.(s := Poll(m.s, pending))
    case Console(input) => AfterConsole(m, input)
    case ReturnToProgram => Returned(m, m.s)
  }

  // ----- Each step keeps the invariant -----

  lemma ExecuteInv(m: Moment, next: DebugEventContext, at: nat, bytes: seq<byte>)
    requires RunInv(m) && Legal(m, Execute(next, at, bytes))
    ensures RunInv(AfterExecute(m, next, at, bytes))
  {
    StoreInv(m.s.target.soft, m.image, at, bytes, m.touched);
    StoreKeepsArmed(m.s.target.soft, at, bytes);
  }

  lemma PollInv(m: Moment, pending: seq<byte>)
    requires RunInv(m) && !m.inMonitor
    ensures RunInv(m.(s := Poll(m.s, pending)))
  {
    if m.s.stage.Running? && CTRL_C in pending && !m.s.target.interruptPending {
      InterruptNeverFails(m.s.target);
    }
  }

  lemma ReturnInv(m: Moment, s: SessionView)
    requires RunInv(m.(s := s, inMonitor := true)) && AtCode(s.target.ctx)
    ensures RunInv(Returned(m, s))
    ensures Returned(m, s).s.target.step == s.target.step
  {
    var t := s.target;
    SetIgnoredInv(t.soft, false, m.image);
    SetIgnoredCoherent(t.soft, false, m.image, m.touched);
    UnpauseArms(t.soft, m.image);
    ReservedIgnoresLock(t.hw, t.originalLock, PlacedMismatch(t));
    WantedAfterIgnore(t.soft, false, true);
  }

  lemma WantedAfterIgnore(st: SoftState, ignored: bool, internal: bool)
    requires st.WellFormed()
    ensures Wanted(SetIgnored(st, ignored).slots, internal) == Wanted(st.slots, internal)
  {
    var r := SetIgnored(st, ignored);
    IgnoreSlotsFlags(st.(paused := ignored), |st.slots|, ignored);
    forall a | a in Wanted(st.slots, internal)
      ensures a in Wanted(r.slots, internal)
    {
      var k :| 0 <= k < SLOTS && st.slots[k].Some? && WantedBy(st.slots[k].value.reason, internal) && st.slots[k].value.addr == a;
      assert r.slots[k].value.addr == a;
    }
    forall a | a in Wanted(r.slots, internal)
      ensures a in Wanted(st.slots, internal)
    {
      var k :| 0 <= k < SLOTS && r.slots[k].Some? && WantedBy(r.slots[k].value.reason, internal) && r.slots[k].value.addr == a;
      assert st.slots[k].value.addr == a;
    }
  }

  // Commands

  lemma ApplySoftInv(t: TargetView, c: GdbCommand, image: seq<byte>, touched: set<int>)
    requires t.Shape() && Acceptable(t, c) && SoftInv(t.soft, image) && t.soft.paused && Coherent(t.soft, touched)
    requires c.AddSwBreakpoint? || c.RemoveSwBreakpoint?
    ensures var r := Apply(t, c); r.soft.paused && SoftInv(r.soft, image) && Coherent(r.soft, touched)
    ensures Wanted(Apply(t, c).soft.slots, true) == Wanted(t.soft.slots, true)
  {
    PausedMemoryIsOriginal(t.soft, image);
    if c.RemoveSwBreakpoint? {
      RemoveInv(t.soft, c.addr, false, image, touched);
      RemoveRefines(t.soft, c.addr, false);
    } else if LOWEST_WRITABLE <= c.addr {
      var thumb := !c.kind.Arm32Kind?;
      RegisterInv(t.soft, c.addr, thumb, false, image);
      RegisterCoherent(t.soft, c.addr, thumb, false, image, touched);
      RegisterRefines(t.soft, c.addr, thumb, false);
    }
  }

  lemma ApplyHwInv(t: TargetView, c: GdbCommand)
    requires t.Shape() && Acceptable(t, c) && HwInv(t) && !t.interruptPending
    ensures var r := Apply(t, c);
      HwInv(r) && !r.interruptPending && r.hw.locked == t.hw.locked && r.depth == t.depth && r.originalLock == t.originalLock
  {
    match c
    case AddHw(addr, kind) => AddHwKeepsReserve(t.hw, addr, kind, PlacedMismatch(t));
    case RemoveHw(addr, kind) => RemoveHwKeepsReserve(t.hw, addr, kind, PlacedMismatch(t));
    case Step => StepNeverRefused(t);
    case _ =>
  }

  lemma ConsoleInv(m: Moment, input: TickInput)
    requires RunInv(m) && Legal(m, Console(input))
    ensures RunInv(AfterConsole(m, input))
  {
    if m.s.stage.Idle? && input.command.Some? {
      var t, c := m.s.target, input.command.value;
      ApplyHwInv(t, c);
      if c.WriteMemory? {
        StoreInv(t.soft, m.image, c.addr, c.bytes, m.touched);
      } else if c.AddSwBreakpoint? || c.RemoveSwBreakpoint? {
        ApplySoftInv(t, c, m.image, m.touched);
      }
    }
  }

  // Debug events

  /** Entering stops everything in a known state: memory original, registers unlocked, one suspension. */
  lemma EnterInv(m: Moment)
    requires RunInv(m) && Legal(m, DebugEvent)
    ensures var s := Entered(m);
      && s.target.step.None? && s.target.status.Active?
      && RunInv(m.(s := Opened(s), inMonitor := true))
  {
    var t := m.s.target.(hw := m.s.target.hw.(entry := PendingEvent(m)));
    assert HwInv(t);
    EnterHw(t, m.cpu);
    EnterFields(t, m.cpu);
    EnterRunInv(m, Entered(m));
  }

  lemma EnterRunInv(m: Moment, s: SessionView)
    requires RunInv(m) && !m.inMonitor && s.target.Shape() && s.exitHook == m.s.exitHook
    requires s.target.soft == SetIgnored(m.s.target.soft, true) && HwInv(s.target) && s.target.step.None?
    requires s.target.depth == 1 && s.target.originalLock == m.s.target.hw.locked
    requires !s.target.hw.locked && !s.target.interruptPending
    ensures RunInv(m.(s := Opened(s), inMonitor := true))
  {
    var t := m.s.target;
    SetIgnoredInv(t.soft, true, m.image);
    SetIgnoredCoherent(t.soft, true, m.image, m.touched);
    WantedAfterIgnore(t.soft, true, true);
  }

  /** The exit hook keeps the invariant, and having fired once it cannot fire again. */
  lemma HookInv(m: Moment, s: SessionView)
    requires RunInv(m.(s := s, inMonitor := true)) && s.exitHook == Some(s.target.ctx.pc) && s.target.status.Active?
    ensures var r := HandleInternalBreakpoint(s).0;
      && RunInv(m.(s := r, inMonitor := true))
      && Wanted(r.target.soft.slots, true) == {}
      && r.target.ctx == s.target.ctx && r.target.step == s.target.step
  {
    RemoveInv(s.target.soft, s.target.ctx.pc, true, m.image, m.touched);
    RemoveRefines(s.target.soft, s.target.ctx.pc, true);
  }

  lemma WantedAtSlot(slots: seq<Slot>, k: nat, internal: bool)
    requires k < |slots| && slots[k].Some? && WantedBy(slots[k].value.reason, internal)
    ensures slots[k].value.addr in Wanted(slots, internal)
  {
  }

  /** What handling a stop may do: nothing, or fire the exit hook. */
  lemma HandleStopInv(m: Moment)
    requires RunInv(m) && Legal(m, DebugEvent)
    ensures var (r, action) := HandleStop(Entered(m));
      && RunInv(m.(s := Opened(r), inMonitor := true))
      && r.target.step.None? && r.target.ctx == Entered(m).target.ctx
      && (action.Resume? ==> r.target.ctx == m.cpu && !r.target.status.Exiting?)
      && (r.target.status.Exiting? ==> m.exits == 0 && Wanted(r.target.soft.slots, true) == {})
  {
    var s := Entered(m);
    EnterInv(m);
    var t := m.s.target.(hw := m.s.target.hw.(entry := PendingEvent(m)));
    EnterFields(t, m.cpu);
    if s.target.stop.TrackedSoftwareBreak? {
      var b := s.target.soft.slots[s.target.stop.id].value;
      if b.reason.internal {
        WantedAtSlot(s.target.soft.slots, s.target.stop.id, true);
        assert s.exitHook == Some(s.target.ctx.pc);
        HookRunInv(m, s);
      }
    }
  }

  /** The hook on a session whose connection may not be open yet. */
  lemma HookRunInv(m: Moment, s: SessionView)
    requires RunInv(m.(s := Opened(s), inMonitor := true)) && s.exitHook == Some(s.target.ctx.pc) && s.target.status.Active?
    ensures var r := HandleInternalBreakpoint(s).0;
      && RunInv(m.(s := Opened(r), inMonitor := true))
      && Wanted(r.target.soft.slots, true) == {}
      && r.target.ctx == s.target.ctx && r.target.step == s.target.step
  {
    HookInv(m, Opened(s));
  }

  lemma DebugEventInv(m: Moment)
    requires RunInv(m) && Legal(m, DebugEvent)
    ensures RunInv(AfterDebugEvent(m))
  {
    HandleStopInv(m);
    var (s, action) := HandleStop(Entered(m));
    if action.Resume? {
      ReturnInv(m, Opened(s));
      ReturnOfOpened(m, s);
    }
  }

  /** Opening the connection and returning do not interfere. */
  lemma ReturnOfOpened(m: Moment, s: SessionView)
    requires s.target.Shape() && RunInv(Returned(m, Opened(s))) && AtCode(s.target.ctx)
    ensures RunInv(Returned(m, s))
  {
  }

  // ----- Whole runs -----

  ghost predicate LegalRun(m: Moment, events: seq<Event>)
    decreases |events|
  {
    events == [] || (Legal(m, events[0]) && LegalRun(Next(m, events[0]), events[1..]))
  }

  ghost function After(m: Moment, events: seq<Event>): Moment
    requires LegalRun(m, events)
    decreases |events|
  {
    if events == [] then m else After(Next(m, events[0]), events[1..])
  }

  /** Every step of a run keeps the invariant. */
  lemma NextInv(m: Moment, e: Event)
    requires RunInv(m) && Legal(m, e)
    ensures RunInv(Next(m, e))
  {
    match e
    case Execute(next, at, bytes) => ExecuteInv(m, next, at, bytes);
    case DebugEvent => DebugEventInv(m);
    case PollInterrupt(pending) => PollInv(m, pending);
    case Console(input) => ConsoleInv(m, input);
    case ReturnToProgram => ReturnInv(m, m.s);
  }

  lemma {:induction false} RunKeepsInv(m: Moment, events: seq<Event>)
    requires RunInv(m) && LegalRun(m, events)
    ensures RunInv(After(m, events))
    decreases |events|
  {
    if events != [] {
      NextInv(m, events[0]);
      RunKeepsInv(Next(m, events[0]), events[1..]);
    }
  }
}
