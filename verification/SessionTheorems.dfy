/**
 * What holds in every reachable moment of every run, and what steps, interrupts and stops mean.
 */
module SessionTheorems {
  import opened Wrappers
  import opened Bytes
  import opened CodeMemory
  import opened Registers
  import opened SoftwareBreakpoints
  import opened SoftwareInvariants
  import opened SoftwareRefinement
  import opened SoftwareRuns
  import opened HardwareBreakpoints
  import opened DebugTarget
  import opened DebugSession
  import opened SessionRuns

  // ----- The start of a run -----

  /** A debugger just created over a program whose code is in place. */
  ghost predicate Fresh(m: Moment) {
    var t := m.s.target;
    && Shape(m)
    && !m.inMonitor && m.exits == 0 && m.s.stage.Uninitialized?
    && t.soft.data == m.image && Coherent(t.soft, m.touched)
    && !t.soft.paused && (forall k :: 0 <= k < SLOTS ==> t.soft.slots[k].None?)
    && t.hw.n >= 1 && t.hw.points == {} && t.hw.locked == m.userLock
    && t.step.None? && !t.interruptPending && t.depth == 0
  }

  ghost predicate ExitFunctionOk(m: Moment, exitFunction: u32) {
    LOWEST_WRITABLE <= CodeOf(exitFunction) && InstrAddr(m.image, CodeOf(exitFunction), IsThumbCode(exitFunction))
  }

  /** The moment at which the program is handed the processor. */
  ghost function Initialized(m: Moment, exitFunction: u32): Moment
    requires Fresh(m) && ExitFunctionOk(m, exitFunction)
  {
    m.(s := RegisterInternalBreakpoints(m.s, exitFunction).0)
  }

  lemma InstallInPlace(st: SoftState, j: nat, addr: u32, thumb: bool, internal: bool, image: seq<byte>)
    requires st.WellFormed() && j < SLOTS && !st.paused && st.data == image
    requires InstrAddr(st.data, addr, thumb) && LOWEST_WRITABLE <= addr
    ensures var r := Install(st, j, addr, thumb, internal); InPlace(r, r.slots[j].value)
  {
    var b := NewBreakpoint(st.data, addr, thumb, internal);
    var before := st.(slots := st.slots[j := Some(b)]);
    EnableInPlace(before, j, image);
    assert IgnoreSlot(before, j, false) == Install(st, j, addr, thumb, internal);
    SamePatch(Install(st, j, addr, thumb, internal), b, b.(enabled := true));
  }

  /** The first breakpoint on an empty, running table. */
  lemma FirstBreakpoint(st: SoftState, addr: u32, thumb: bool, image: seq<byte>, touched: set<int>)
    requires st.WellFormed() && st.data == image && Coherent(st, touched) && !st.paused
    requires forall k :: 0 <= k < SLOTS ==> st.slots[k].None?
    requires LOWEST_WRITABLE <= addr && InstrAddr(image, addr, thumb)
    ensures var (r, result) := Register(st, addr, thumb, true);
      && result == Ok(()) && !r.paused && SoftInv(r, image) && Coherent(r, touched)
      && Armed(r) && Wanted(r.slots, true) == {addr}
  {
    assert SoftInv(st, image);
    assert Wanted(st.slots, true) == {} && Tracked(st.slots) == {};
    RegisterInv(st, addr, thumb, true, image);
    RegisterCoherent(st, addr, thumb, true, image, touched);
    RegisterRefines(st, addr, thumb, true);
    FirstIsArmed(st, addr, thumb, image);
  }

  lemma FirstIsArmed(st: SoftState, addr: u32, thumb: bool, image: seq<byte>)
    requires st.WellFormed() && st.data == image && !st.paused
    requires forall k :: 0 <= k < SLOTS ==> st.slots[k].None?
    requires LOWEST_WRITABLE <= addr && InstrAddr(image, addr, thumb)
    ensures Armed(Register(st, addr, thumb, true).0)
  {
    assert FindAddr(st.slots, addr, 0).None? && FindFree(st.slots, 0) == Some(0);
    InstallInPlace(st, 0, addr, thumb, true, image);
    var r := Register(st, addr, thumb, true).0;
    assert forall k :: 0 < k < SLOTS ==> r.slots[k].None?;
  }

  lemma FirstHook(m: Moment, addr: u32, thumb: bool)
    requires Fresh(m) && LOWEST_WRITABLE <= addr && InstrAddr(m.s.target.soft.data, addr, thumb)
    ensures PlantHook(m.s, addr, thumb).1 == Ok(()) && RunInv(m.(s := PlantHook(m.s, addr, thumb).0))
  {
    FirstBreakpoint(m.s.target.soft, addr, thumb, m.image, m.touched);
    HookedInv(m, Register(m.s.target.soft, addr, thumb, true).0, addr);
  }

  /** Planting the exit hook succeeds and establishes the invariant of every run. */
  lemma InitializedInv(m: Moment, exitFunction: u32)
    requires Fresh(m) && ExitFunctionOk(m, exitFunction)
    ensures RegisterInternalBreakpoints(m.s, exitFunction).1 == Ok(())
    ensures RunInv(Initialized(m, exitFunction))
  {
    FirstHook(m, CodeOf(exitFunction), IsThumbCode(exitFunction));
  }

  lemma HookedInv(m: Moment, soft: SoftState, addr: u32)
    requires Fresh(m) && SoftInv(soft, m.image) && Coherent(soft, m.touched) && !soft.paused
    requires Armed(soft) && Wanted(soft.slots, true) == {addr}
    ensures RunInv(m.(s := m.s.(target := m.s.target.(soft := soft), exitHook := Some(addr))))
  {
    EmptyReserve(m.s.target.(soft := soft));
  }

  lemma EmptyReserve(t: TargetView)
    requires t.hw.n >= 1 && t.hw.points == {} && t.step.None? && !t.interruptPending
    ensures HwInv(t)
  {
    assert OfKind({}, Match) == {} && OfKind({}, Mismatch) == {};
  }

  /** A moment some run of the debugger gets to. */
  ghost predicate Reachable(m: Moment) {
    exists start, exitFunction, events ::
      && Fresh(start) && ExitFunctionOk(start, exitFunction)
      && LegalRun(Initialized(start, exitFunction), events)
      && m == After(Initialized(start, exitFunction), events)
  }

  lemma ReachableInv(m: Moment)
    requires Reachable(m)
    ensures RunInv(m)
  {
    var start, exitFunction, events :|
      && Fresh(start) && ExitFunctionOk(start, exitFunction)
      && LegalRun(Initialized(start, exitFunction), events)
      && m == After(Initialized(start, exitFunction), events);
    InitializedInv(start, exitFunction);
    RunKeepsInv(Initialized(start, exitFunction), events);
  }

  // ----- In every reachable moment -----

  /**
   * In the monitor memory is exactly what the program and the client have written; at all times
   * this holds below the writable region and outside enabled patches, and instruction fetches
   * agree with memory except at bytes somebody else has written.
   */
  lemma MemoryTransparency(m: Moment)
    requires Reachable(m)
    ensures Shape(m)
    ensures m.inMonitor ==> m.s.target.soft.data == m.image
    ensures forall i :: 0 <= i < 0x0300_0000 ==> m.s.target.soft.data[i] == m.image[i]
    ensures forall i :: 0 <= i < MEMORY_SIZE && m.s.target.soft.data[i] != m.image[i] ==> Patched(m.s.target.soft.slots, i)
    ensures forall i :: 0 <= i < MEMORY_SIZE && m.s.target.soft.fetch[i] != m.s.target.soft.data[i] ==> i in m.touched
  {
    ReachableInv(m);
    if m.inMonitor {
      PausedMemoryIsOriginal(m.s.target.soft, m.image);
    }
    forall i | 0 <= i < LOWEST_WRITABLE
      ensures m.s.target.soft.data[i] == m.image[i]
    {
      LowMemoryIsOriginal(m.s.target.soft, m.image, i);
    }
  }

  /** At most all but one register match, at most one mismatches, and never more than exist. */
  lemma RegistersReserved(m: Moment)
    requires Reachable(m)
    ensures var v := m.s.target.hw;
      && |OfKind(v.points, Match)| <= v.n - 1
      && |OfKind(v.points, Mismatch)| <= 1
      && |v.points| <= v.n
  {
    ReachableInv(m);
    KindsPartition(m.s.target.hw.points);
  }

  /** Requests that the code unwraps cannot fail: an aligned step in the monitor, an interrupt outside. */
  lemma RequestsSucceed(m: Moment)
    requires Reachable(m)
    ensures m.inMonitor && StepAligned(m.s.target.ctx) ==> RequestSingleStep(m.s.target).1.Ok?
    ensures !m.inMonitor && !m.s.target.interruptPending ==> PlaceSentinel(m.s.target).1 == Ok(())
  {
    ReachableInv(m);
    if m.inMonitor {
      StepNeverRefused(m.s.target);
    } else if !m.s.target.interruptPending {
      InterruptNeverFails(m.s.target);
    }
  }

  /**
   * The debugger holds the scheduler once throughout the monitor and while a step is pending,
   * and not otherwise; the debug registers are unlocked in the monitor and as found outside.
   */
  lemma SchedulerAndLockBalance(m: Moment)
    requires Reachable(m)
    ensures m.s.target.depth == if m.inMonitor || m.s.target.step.Some? then 1 else 0
    ensures m.s.target.hw.locked == if m.inMonitor then false else m.userLock
    ensures m.inMonitor ==> m.s.target.originalLock == m.userLock
  {
    ReachableInv(m);
  }

  /** The exit of the program is announced at most once. */
  lemma ExitsAtMostOnce(m: Moment)
    requires Reachable(m)
    ensures m.exits <= 1
  {
    ReachableInv(m);
  }

  // ----- What a step means -----

  /** Where execution stays silent while a step is pending. */
  predicate InWindow(s: SingleStepRequest, pc: u32) {
    pc == s.target || (s.kind.Arm32Kind? && pc == s.target + 2)
  }

  /** Some hardware breakpoint the user has set selects the address. */
  ghost predicate UserPointAt(t: TargetView, pc: u32) {
    exists p :: p in OfKind(t.hw.points, Match) && Selects(p, pc)
  }

  ghost predicate FetchesTrap(m: Moment)
    requires Shape(m)
  {
    ReadInstr(m.s.target.soft.fetch, m.cpu.pc, m.cpu.Thumb()).IsBkpt()
  }

  lemma StepPointFires(t: TargetView, pc: u32)
    requires HwInv(t) && t.step.Some? && !t.interruptPending && pc % 2 == 0
    ensures HardwareFires(t, pc) <==> !InWindow(t.step.value, pc) || UserPointAt(t, pc)
  {
    var s := t.step.value;
    var own := PointAt(s.target, Mismatch, s.kind);
    SelectedAddresses(s.target, Mismatch, s.kind, pc);
    assert own in OfKind(t.hw.points, Mismatch);
    assert Fires(own, pc) <==> !InWindow(s, pc);
    if UserPointAt(t, pc) {
      var p :| p in OfKind(t.hw.points, Match) && Selects(p, pc);
      assert p in t.hw.points && Fires(p, pc);
    }
    if p :| p in t.hw.points && Fires(p, pc) {
      assert p.specificity.Mismatch? ==> p in OfKind(t.hw.points, Mismatch);
    }
  }

  /** With a step pending, the hardware fires outside the step's window and at the user's points. */
  lemma StepFires(m: Moment)
    requires RunInv(m) && m.s.target.step.Some? && !m.s.target.interruptPending
    ensures PendingEvent(m) == Some(Breakpoint) <==>
      !InWindow(m.s.target.step.value, m.cpu.pc) || UserPointAt(m.s.target, m.cpu.pc)
  {
    StepPointFires(m.s.target, m.cpu.pc);
  }

  /**
   * A step from `p` with no other breakpoint at `p` executes the instruction there, and stops
   * again before the second one exactly when that lies outside the window or has a breakpoint
   * of its own. The window of an ARM instruction also covers a Thumb instruction two bytes on.
   */
  lemma StepExecutesOne(m: Moment, next: DebugEventContext, at: nat, bytes: seq<byte>)
    requires RunInv(m) && !m.inMonitor && m.s.target.step.Some? && !m.s.target.interruptPending
    requires m.cpu.pc == m.s.target.step.value.target
    requires !UserPointAt(m.s.target, m.cpu.pc) && !FetchesTrap(m)
    requires next.Shape() && AtCode(next)
    requires at + |bytes| <= MEMORY_SIZE && AvoidsExtents(m.s.target.soft.slots, at, |bytes|)
    ensures Legal(m, Execute(next, at, bytes))
    ensures var m' := Next(m, Execute(next, at, bytes));
      && RunInv(m')
      && (PendingEvent(m').Some? <==>
            !InWindow(m.s.target.step.value, next.pc) || UserPointAt(m.s.target, next.pc) || FetchesTrap(m'))
  {
    StepFires(m);
    ExecuteInv(m, next, at, bytes);
    StepFires(Next(m, Execute(next, at, bytes)));
  }

  /** Where the hardware is silent for a step: in Thumb state at one address, in ARM state at two. */
  predicate Silent(c: DebugEventContext, pc: u32) {
    pc == c.pc || (c.cpsr / 32 % 2 == 0 && pc == c.pc + 2)
  }

  lemma WindowIs(c: DebugEventContext, pc: u32)
    ensures InWindow(SingleStepRequest(c.pc, KindOf(c)), pc) <==> Silent(c, pc)
  {
  }

  /**
   * A step is placed whenever the program counter is aligned. In Thumb state the hardware then fires
   * everywhere but at the program counter, and in ARM state everywhere but there and two bytes on,
   * and of course at the user's points.
   */
  lemma StepPlaced(t: TargetView, pc: u32)
    requires HwInv(t) && t.step.None? && !t.interruptPending && pc % 2 == 0
    ensures t.ctx.cpsr / 32 % 2 == 1 ==>
      var (r, result) := RequestSingleStep(t);
      && (result.Ok? <==> t.ctx.pc % 2 == 0)
      && (result.Ok? ==> (HardwareFires(r, pc) <==> pc != t.ctx.pc || UserPointAt(t, pc)))
    ensures t.ctx.cpsr / 32 % 2 == 0 ==>
      var (r, result) := RequestSingleStep(t);
      && (result.Ok? <==> t.ctx.pc % 4 == 0)
      && (result.Ok? ==> (HardwareFires(r, pc) <==> (pc != t.ctx.pc && pc != t.ctx.pc + 2) || UserPointAt(t, pc)))
  {
    StepNeverRefused(t);
    WindowIs(t.ctx, pc);
    if StepAligned(t.ctx) {
      var r := RequestSingleStep(t).0;
      StepPointFires(r, pc);
      MismatchAlwaysFits(t.hw, t.ctx.pc, KindOf(t.ctx));
      SameUserPoints(t, r, PointAt(t.ctx.pc, Mismatch, KindOf(t.ctx)), pc);
    }
  }

  /** A mismatch is no point of the user's. */
  lemma SameUserPoints(t: TargetView, r: TargetView, p: Point, pc: u32)
    requires r.hw.points == t.hw.points + {p} && p.specificity.Mismatch?
    ensures UserPointAt(r, pc) <==> UserPointAt(t, pc)
  {
    assert OfKind(r.hw.points, Match) == OfKind(t.hw.points, Match);
  }

  /** The console is waiting for a request. */
  ghost predicate Ready(m: Moment) {
    RunInv(m) && m.inMonitor && m.s.stage.Idle? && !m.s.target.status.ResumingProgram?
  }

  const STEP_REQUEST := Console(TickInput(Some(Step), SessionStage.Running))

  lemma StepIsLegal(m: Moment)
    requires Ready(m) && AtCode(m.s.target.ctx)
    ensures Legal(m, STEP_REQUEST) && Legal(Next(m, STEP_REQUEST), ReturnToProgram)
    ensures RunInv(Next(m, STEP_REQUEST))
  {
    StepNeverRefused(m.s.target);
    NextInv(m, STEP_REQUEST);
  }

  /** The moment at which the program goes on after a step was requested. */
  ghost function Stepping(m: Moment): (r: Moment)
    requires Ready(m) && AtCode(m.s.target.ctx)
  {
    StepIsLegal(m);
    Next(Next(m, STEP_REQUEST), ReturnToProgram)
  }

  /** The step is then pending, at the program counter. */
  lemma SteppingIs(m: Moment)
    requires Ready(m) && AtCode(m.s.target.ctx)
    ensures var r := Stepping(m);
      && RunInv(r) && !r.inMonitor && !r.s.target.interruptPending && r.s.stage.Running?
      && r.cpu == m.s.target.ctx
      && r.s.target.step == Some(SingleStepRequest(r.cpu.pc, KindOf(r.cpu)))
      && r.s.target.depth == 1
      && r.s.target.hw.points == RequestSingleStep(m.s.target).0.hw.points
  {
    StepIsLegal(m);
    StepNeverRefused(m.s.target);
    assert RequestSingleStep(m.s.target).0.step == Some(SingleStepRequest(m.s.target.ctx.pc, KindOf(m.s.target.ctx)));
    NextInv(Next(m, STEP_REQUEST), ReturnToProgram);
  }

  /**
   * A step requested in the console is pending at the program counter when the program goes on, with
   * the hardware silent where it should be.
   */
  lemma LeaveWithStep(m: Moment, pc: u32)
    requires Ready(m) && AtCode(m.s.target.ctx) && pc % 2 == 0
    ensures Legal(m, STEP_REQUEST) && Legal(Next(m, STEP_REQUEST), ReturnToProgram)
    ensures Stepping(m) == Next(Next(m, STEP_REQUEST), ReturnToProgram)
    ensures var r := Stepping(m);
      && RunInv(r) && !r.inMonitor && !r.s.target.interruptPending && r.s.stage.Running?
      && r.cpu == m.s.target.ctx
      && r.s.target.step.Some? && r.s.target.step.value.target == r.cpu.pc
      && r.s.target.depth == 1
      && (HardwareFires(r.s.target, pc) <==> !Silent(m.s.target.ctx, pc) || UserPointAt(m.s.target, pc))
  {
    StepIsLegal(m);
    SteppingIs(m);
    StepPlaced(m.s.target, pc);
  }

  /** The program counters at which a run executes instructions. */
  ghost function ExecutedAt(m: Moment, events: seq<Event>): seq<u32>
    requires LegalRun(m, events)
    decreases |events|
  {
    if events == [] then []
    else (if events[0].Execute? then [m.cpu.pc] else []) + ExecutedAt(Next(m, events[0]), events[1..])
  }

  ghost predicate NoStop(events: seq<Event>) {
    forall k :: 0 <= k < |events| ==> !events[k].DebugEvent?
  }

  /** While the sentinel is armed every address that holds code fires. */
  lemma SentinelFires(m: Moment)
    requires RunInv(m) && m.s.target.interruptPending
    ensures PendingEvent(m) == Some(Breakpoint)
  {
    assert SENTINEL in OfKind(m.s.target.hw.points, Mismatch);
    assert SENTINEL in m.s.target.hw.points && Fires(SENTINEL, m.cpu.pc);
  }

  /**
   * From leaving with a step until the next stop, whatever instructions the program consists of
   * and whenever the client interrupts, nothing executes outside the step's window.
   */
  lemma {:induction false} StepConfines(m: Moment, events: seq<Event>)
    requires RunInv(m) && !m.inMonitor && m.s.target.step.Some? && LegalRun(m, events) && NoStop(events)
    ensures forall pc :: pc in ExecutedAt(m, events) ==> InWindow(m.s.target.step.value, pc)
    ensures After(m, events).s.target.step == m.s.target.step && After(m, events).s.target.depth == 1
    decreases |events|
  {
    if events != [] {
      var m' := Next(m, events[0]);
      NextInv(m, events[0]);
      if events[0].Execute? {
        if m.s.target.interruptPending {
          SentinelFires(m);
        } else {
          StepFires(m);
        }
      }
      assert forall k :: 0 <= k < |events[1..]| ==> events[1..][k] == events[k + 1];
      StepConfines(m', events[1..]);
    }
  }

  /** No instruction on the way leads back into the step's window. */
  ghost predicate NextOutside(s: SingleStepRequest, events: seq<Event>) {
    forall k :: 0 <= k < |events| && events[k].Execute? ==> !InWindow(s, events[k].next.pc)
  }

  lemma TailOf(s: SingleStepRequest, events: seq<Event>)
    requires events != [] && NoStop(events) && NextOutside(s, events)
    ensures NoStop(events[1..]) && NextOutside(s, events[1..])
  {
    assert forall k :: 0 <= k < |events[1..]| ==> events[1..][k] == events[k + 1];
  }

  /** Outside the window nothing executes any more. */
  lemma {:induction false} OutsideConfines(m: Moment, events: seq<Event>)
    requires RunInv(m) && !m.inMonitor && m.s.target.step.Some? && !InWindow(m.s.target.step.value, m.cpu.pc)
    requires LegalRun(m, events) && NoStop(events)
    ensures ExecutedAt(m, events) == []
    decreases |events|
  {
    if m.s.target.interruptPending {
      SentinelFires(m);
    } else {
      StepFires(m);
    }
    if events != [] {
      NextInv(m, events[0]);
      assert forall k :: 0 <= k < |events[1..]| ==> events[1..][k] == events[k + 1];
      OutsideConfines(Next(m, events[0]), events[1..]);
    }
  }

  /** A poll arms the sentinel or changes nothing at all. */
  lemma PollArmsOrNothing(m: Moment, pending: seq<byte>)
    requires RunInv(m) && !m.inMonitor && !m.s.target.interruptPending
    ensures var r := Next(m, PollInterrupt(pending)); r.s.target.interruptPending || r == m
  {
  }

  /** At its own address a step executes that instruction, or nothing because it was interrupted. */
  lemma {:induction false} StepRunsOnce(m: Moment, events: seq<Event>)
    requires RunInv(m) && !m.inMonitor && m.s.target.step.Some? && !m.s.target.interruptPending
    requires m.cpu.pc == m.s.target.step.value.target
    requires LegalRun(m, events) && NoStop(events) && NextOutside(m.s.target.step.value, events)
    ensures ExecutedAt(m, events) == [] || ExecutedAt(m, events) == [m.cpu.pc]
    ensures ExecutedAt(m, events) == [] ==> After(m, events).s.target.interruptPending || After(m, events) == m
    decreases |events|
  {
    if events != [] {
      var m', rest := Next(m, events[0]), events[1..];
      NextInv(m, events[0]);
      TailOf(m.s.target.step.value, events);
      if events[0].Execute? {
        OutsideConfines(m', rest);
        assert ExecutedAt(m, events) == [m.cpu.pc] + [];
      } else {
        PollArmsOrNothing(m, events[0].pending);
        if m'.s.target.interruptPending {
          InterruptConfines(m', rest);
        } else {
          StepRunsOnce(m, rest);
        }
        assert ExecutedAt(m, events) == [] + ExecutedAt(m', rest);
      }
    }
  }

  /** A stop that no interrupt has caused, with no other breakpoint at the place where the step began. */
  ghost predicate Uninterrupted(start: Moment, stop: Moment)
    requires Shape(start) && Shape(stop)
  {
    && PendingEvent(stop).Some? && !stop.s.target.interruptPending
    && !UserPointAt(start.s.target, start.cpu.pc) && !FetchesTrap(start)
  }

  /** No instruction on the way leads back to where the step is silent. */
  ghost predicate NextLoud(c: DebugEventContext, events: seq<Event>) {
    forall k :: 0 <= k < |events| && events[k].Execute? ==> !Silent(c, events[k].next.pc)
  }

  lemma LoudIsOutside(c: DebugEventContext, events: seq<Event>)
    requires NextLoud(c, events)
    ensures NextOutside(SingleStepRequest(c.pc, KindOf(c)), events)
  {
    forall k | 0 <= k < |events| && events[k].Execute?
      ensures !InWindow(SingleStepRequest(c.pc, KindOf(c)), events[k].next.pc)
    {
      WindowIs(c, events[k].next.pc);
    }
  }

  /** A run with a step just placed. */
  lemma StepLaw(r: Moment, c: DebugEventContext, events: seq<Event>)
    requires RunInv(r) && !r.inMonitor && !r.s.target.interruptPending && r.cpu == c
    requires r.s.target.step == Some(SingleStepRequest(c.pc, KindOf(c)))
    requires LegalRun(r, events) && NoStop(events) && NextLoud(c, events)
    ensures var ran, stop := ExecutedAt(r, events), After(r, events);
      && RunInv(stop)
      && (ran == [] || ran == [c.pc])
      && (Uninterrupted(r, stop) ==> ran == [c.pc])
  {
    LoudIsOutside(c, events);
    RunKeepsInv(r, events);
    StepRunsOnce(r, events);
    StepFires(r);
  }

  /**
   * A step requested in the console runs at most one instruction before the next stop, the one at
   * the program counter; and unless the client interrupts, a stop means that this one has run,
   * provided no other breakpoint was there and the program does not go where the step is silent.
   */
  lemma SingleStep(m: Moment, events: seq<Event>)
    requires Ready(m) && AtCode(m.s.target.ctx)
    requires LegalRun(Stepping(m), events) && NoStop(events) && NextLoud(m.s.target.ctx, events)
    ensures Shape(Stepping(m)) && RunInv(After(Stepping(m), events))
    ensures var r := Stepping(m);
      var ran := ExecutedAt(r, events);
      && (ran == [] || ran == [m.s.target.ctx.pc])
      && (Uninterrupted(r, After(r, events)) ==> ran == [m.s.target.ctx.pc])
  {
    SteppingIs(m);
    StepLaw(Stepping(m), m.s.target.ctx, events);
  }

  // ----- What an interrupt means -----

  /** Once an interrupt is armed no instruction of the program executes before the next stop. */
  lemma {:induction false} InterruptConfines(m: Moment, events: seq<Event>)
    requires RunInv(m) && !m.inMonitor && m.s.target.interruptPending && LegalRun(m, events) && NoStop(events)
    ensures ExecutedAt(m, events) == []
    ensures RunInv(After(m, events))
    ensures After(m, events).s.target.interruptPending && PendingEvent(After(m, events)) == Some(Breakpoint)
    decreases |events|
  {
    SentinelFires(m);
    if events != [] {
      NextInv(m, events[0]);
      assert forall k :: 0 <= k < |events[1..]| ==> events[1..][k] == events[k + 1];
      InterruptConfines(Next(m, events[0]), events[1..]);
    }
  }

  /** That stop is reported as the interrupt it is, in the monitor, with the step cancelled. */
  lemma InterruptIsReported(m: Moment)
    requires RunInv(m) && !m.inMonitor && m.s.target.interruptPending
    ensures PendingEvent(m).Some?
    ensures var r := AfterDebugEvent(m);
      r.inMonitor && r.s.target.stop == Interrupt && r.s.target.step.None? && r.s.target.ctx == m.cpu
  {
    SentinelFires(m);
    EnteredStop(m);
  }

  /** A client that waits for the program and sends the interrupt byte gets the sentinel armed. */
  lemma PollArms(m: Moment, pending: seq<byte>)
    requires RunInv(m) && !m.inMonitor
    ensures var r := Next(m, PollInterrupt(pending));
      && RunInv(r) && r.cpu == m.cpu && r.s.stage == m.s.stage
      && (r.s.target.interruptPending <==> m.s.target.interruptPending || (m.s.stage.Running? && 0x03 in pending))
      && (r.s.target.interruptPending == m.s.target.interruptPending ==> r == m)
  {
    PollInv(m, pending);
  }

  // ----- The exit path -----

  /** The hardware while the exit path resumes the scheduler, in code that is not the user's to step. */
  lemma ArmedFiresEverywhere(t: TargetView, pc: u32)
    requires HwInv(t) && t.interruptPending && pc + 4 < MEMORY_SIZE
    ensures HardwareFires(t, pc)
  {
    assert SENTINEL in OfKind(t.hw.points, Mismatch);
    assert SENTINEL in t.hw.points && Fires(SENTINEL, pc);
  }

  lemma UnpendingFires(t: TargetView, pc: u32)
    requires HwInv(t) && t.step.None? && !t.interruptPending
    ensures OfKind(t.hw.points, Mismatch) == {} && (HardwareFires(t, pc) <==> UserPointAt(t, pc))
  {
    KindsPartition(t.hw.points);
    if UserPointAt(t, pc) {
      var p :| p in OfKind(t.hw.points, Match) && Selects(p, pc);
      assert p in t.hw.points && Fires(p, pc);
    }
    if p :| p in t.hw.points && Fires(p, pc) {
      assert p in OfKind(t.hw.points, Match);
    }
  }

  /**
   * The exit path resumes the scheduler only if no step is pending, so no mismatch of the debugger's
   * is placed and the scheduler's code meets the user's own breakpoints alone, unless a poll gets in
   * between leaving and the exit path and reads the interrupt byte: exactly then the sentinel is
   * armed and fires on whatever the scheduler executes.
   */
  lemma ResumptionIsSilentIff(m: Moment, s: SessionView, pending: seq<byte>, pc: u32)
    requires RunInv(m.(s := s, inMonitor := true)) && pc + 4 < MEMORY_SIZE
    ensures var (left, resume) := LeaveBreakpoint(s.target);
      var polled, caught := Poll(s.(target := left), pending).target, s.stage.Running? && CTRL_C in pending;
      && (resume <==> s.target.step.None?)
      && (resume ==> OfKind(left.hw.points, Mismatch) == {})
      && (resume ==> (OfKind(polled.hw.points, Mismatch) == {} <==> !caught))
      && (resume ==> (HardwareFires(polled, pc) <==> UserPointAt(s.target, pc) || caught))
  {
    var t := s.target;
    var (left, resume) := LeaveBreakpoint(t);
    var polled := Poll(s.(target := left), pending).target;
    ReservedIgnoresLock(t.hw, t.originalLock, PlacedMismatch(t));
    if resume {
      UnpendingFires(left, pc);
      if s.stage.Running? && CTRL_C in pending {
        InterruptNeverFails(left);
        ArmedFiresEverywhere(polled, pc);
        assert SENTINEL in OfKind(polled.hw.points, Mismatch);
      }
    }
  }

  /** For all that follows, such a poll is one right after the program has been resumed. */
  lemma PollInExitPath(m: Moment, s: SessionView, pending: seq<byte>)
    requires RunInv(m.(s := s, inMonitor := true)) && AtCode(s.target.ctx)
    ensures var (left, resume) := LeaveBreakpoint(s.target);
      var polled := Poll(s.(target := left), pending);
      var late := Returned(m, s);
      && RunInv(late)
      && polled.(target := ResumeScheduler(polled.target, resume)) == Next(late, PollInterrupt(pending)).s
  {
    ReturnInv(m, s);
  }

  // ----- Which stops are seen -----

  lemma ClassifyCases(t: TargetView)
    ensures Classify(t) == Interrupt <==> t.hw.entry == Some(Breakpoint) && t.interruptPending
    ensures Classify(t) == HardwareBreak <==> t.hw.entry == Some(Breakpoint) && !t.interruptPending
    ensures Classify(t).TrackedSoftwareBreak? <==>
      t.hw.entry == Some(BkptInstr) && FindAddr(t.soft.slots, t.ctx.pc, 0).Some?
  {
  }

  lemma EnteredStop(m: Moment)
    requires RunInv(m) && Legal(m, DebugEvent)
    ensures var s := Entered(m);
      && s.target.step.None?
      && (s.target.stop == Interrupt <==> PendingEvent(m) == Some(Breakpoint) && m.s.target.interruptPending)
      && (s.target.stop == HardwareBreak <==> PendingEvent(m) == Some(Breakpoint) && !m.s.target.interruptPending)
      && (s.target.stop.TrackedSoftwareBreak? <==>
            PendingEvent(m) == Some(BkptInstr) && FindAddr(s.target.soft.slots, m.cpu.pc, 0).Some?)
      && (!s.target.stop.UntrackedSoftwareBreak? ==> s.target.ctx == m.cpu)
  {
    var t := m.s.target.(hw := m.s.target.hw.(entry := PendingEvent(m)));
    EnterFields(t, m.cpu);
    EnterHw(t, m.cpu);
    ClassifyCases(Suspend(t, m.cpu));
  }

  /**
   * At a tracked breakpoint of its own instruction set the program fetches the trap exactly if no
   * later slot overlaps the breakpoint, and stops exactly if it does or the hardware fires.
   */
  lemma TrackedBreakpointStops(m: Moment, k: nat)
    requires RunInv(m) && !m.inMonitor && k < SLOTS && m.s.target.soft.slots[k].Some?
    requires var b := m.s.target.soft.slots[k].value; b.addr == m.cpu.pc && b.backup.IsThumb() == m.cpu.Thumb()
    ensures FetchesTrap(m) <==> !Overwritten(m.s.target.soft.slots, k)
    ensures PendingEvent(m).Some? <==> !Overwritten(m.s.target.soft.slots, k) || HardwareFires(m.s.target, m.cpu.pc)
  {
    CodeInMemory(m.cpu, m.s.target.soft.fetch);
    ArmedTrapsIff(m.s.target.soft, m.image, k);
  }

  /** An aligned program counter below the last word has a whole instruction. */
  lemma CodeInMemory(c: DebugEventContext, fetch: seq<byte>)
    requires AtCode(c) && |fetch| == MEMORY_SIZE
    ensures InstrAddr(fetch, c.pc, c.Thumb())
  {
  }

  /** The slot of a tracked stop is the one that was there while the program ran. */
  lemma SlotAtStop(m: Moment, k: nat)
    requires RunInv(m) && Legal(m, DebugEvent) && PendingEvent(m) == Some(BkptInstr)
    requires AtSlot(m.s.target.soft.slots, k, m.cpu.pc)
    ensures var s := Entered(m);
      s.target.stop == TrackedSoftwareBreak(k) && s.target.soft.slots[k].Some?
      && s.target.soft.slots[k].value.reason == m.s.target.soft.slots[k].value.reason
  {
    var t := m.s.target.(hw := m.s.target.hw.(entry := PendingEvent(m)));
    EnterFields(t, m.cpu);
    IgnoreSlotsFlags(t.soft.(paused := true), |t.soft.slots|, true);
    var s := Entered(m);
    assert AtSlot(s.target.soft.slots, k, m.cpu.pc);
    EnteredStop(m);
    assert s.target.soft.slots[s.target.stop.id].value.addr == m.cpu.pc;
    var j := s.target.stop.id;
    assert m.s.target.soft.slots[j].Some? && m.s.target.soft.slots[j].value.addr == m.cpu.pc;
  }

  /** A stop at an internal slot takes the hook out. */
  lemma HookSpent(m: Moment, k: nat)
    requires RunInv(m) && Legal(m, DebugEvent) && PendingEvent(m) == Some(BkptInstr)
    requires AtSlot(m.s.target.soft.slots, k, m.cpu.pc) && m.s.target.soft.slots[k].value.reason.internal
    ensures var (r, action) := HandleStop(Entered(m));
      && Wanted(r.target.soft.slots, true) == {}
      && (action.EnterMonitor? <==>
            m.s.target.soft.slots[k].value.reason.user
            || m.s.stage.Idle? || m.s.stage.Running? || m.s.stage.CtrlCInterrupt?)
  {
    SlotAtStop(m, k);
    EnterInv(m);
    EnteredStop(m);
    WantedAtSlot(Entered(m).target.soft.slots, k, true);
    HookRunInv(m, Entered(m));
  }

  lemma ReturnedIs(m: Moment, s: SessionView)
    requires s.target.Shape()
    ensures var r := Returned(m, s);
      && !r.inMonitor && r.s.target.status == s.target.status && r.s.stage == s.stage && r.exits == m.exits
      && Wanted(r.s.target.soft.slots, true) == Wanted(s.target.soft.slots, true)
  {
    WantedAfterIgnore(s.target.soft, false, true);
  }

  /** A debug event carries out what was decided at the stop, and changes nothing else of it. */
  lemma AfterEventIs(m: Moment)
    requires Shape(m) && PendingEvent(m).Some?
    ensures var (r, action) := HandleStop(Entered(m));
      var after := AfterDebugEvent(m);
      && (after.inMonitor <==> action.EnterMonitor?)
      && Wanted(after.s.target.soft.slots, true) == Wanted(r.target.soft.slots, true)
      && after.s.target.status == r.target.status
      && after.exits == m.exits + (if r.target.status.Exiting? then 1 else 0)
      && after.s.stage == (if action.EnterMonitor? && r.stage.Uninitialized? then SessionStage.Idle else r.stage)
  {
    var (r, action) := HandleStop(Entered(m));
    if action.Resume? {
      ReturnedIs(m, r);
    }
  }

  /**
   * A stop at a slot the user has asked for enters the monitor; at a slot only the debugger
   * wants, the hook is dropped and the monitor entered exactly when a client is there to be told.
   */
  lemma WhichStopsAreSeen(m: Moment, k: nat)
    requires RunInv(m) && Legal(m, DebugEvent) && PendingEvent(m) == Some(BkptInstr)
    requires AtSlot(m.s.target.soft.slots, k, m.cpu.pc)
    ensures var reason := m.s.target.soft.slots[k].value.reason;
      && (AfterDebugEvent(m).inMonitor <==>
            reason.user || m.s.stage.Idle? || m.s.stage.Running? || m.s.stage.CtrlCInterrupt?)
      && (reason.internal ==> Wanted(AfterDebugEvent(m).s.target.soft.slots, true) == {})
  {
    SlotAtStop(m, k);
    AfterEventIs(m);
    if m.s.target.soft.slots[k].value.reason.internal {
      HookSpent(m, k);
    }
  }

  /**
   * A `bkpt` of the program's own stops in the monitor with the PC moved behind the instruction
   * that the program has there, and nothing else changed.
   */
  lemma ManualBreakpointIsSkipped(m: Moment)
    requires RunInv(m) && Legal(m, DebugEvent) && PendingEvent(m) == Some(BkptInstr)
    requires FindAddr(m.s.target.soft.slots, m.cpu.pc, 0).None?
    ensures InstrAddr(m.image, m.cpu.pc, m.cpu.Thumb())
    ensures var r := AfterDebugEvent(m);
      && r.inMonitor && r.s.target.stop == UntrackedSoftwareBreak
      && r.s.target.ctx == m.cpu.(pc := m.cpu.pc + ReadInstr(m.image, m.cpu.pc, m.cpu.Thumb()).Size())
  {
    OtherStopsAreSeen(m);
    EnteredStop(m);
    EnterInv(m);
    var t := m.s.target.(hw := m.s.target.hw.(entry := PendingEvent(m)));
    EnterFields(t, m.cpu);
    IgnoreSlotsFlags(t.soft.(paused := true), |t.soft.slots|, true);
    PausedMemoryIsOriginal(Entered(m).target.soft, m.image);
    var id := FindAddr(Entered(m).target.soft.slots, m.cpu.pc, 0);
    if id.Some? {
      assert AtSlot(m.s.target.soft.slots, id.value, m.cpu.pc);
    }
    ClassifyCases(Suspend(t, m.cpu));
  }

  /**
   * While the exit is being announced, the report to the client or the client's leaving lets the
   * program go; at any other time neither of them does, so a new client can take over.
   */
  lemma ExitEndsConsole(m: Moment, input: TickInput)
    requires RunInv(m) && Legal(m, Console(input)) && (m.s.stage.Running? || m.s.stage.Disconnected?)
    ensures var r := Next(m, Console(input));
      && RunInv(r)
      && (r.s.target.status.ResumingProgram? <==> m.s.target.status.Exiting?)
      && r.s.target.soft == m.s.target.soft && r.s.target.hw == m.s.target.hw && r.s.target.ctx == m.s.target.ctx
  {
    ConsoleInv(m, input);
  }

  /** Every stop that is not a tracked software breakpoint enters the monitor. */
  lemma OtherStopsAreSeen(m: Moment)
    requires RunInv(m) && Legal(m, DebugEvent)
    requires PendingEvent(m) == Some(Breakpoint) || FindAddr(m.s.target.soft.slots, m.cpu.pc, 0).None?
    ensures AfterDebugEvent(m).inMonitor
  {
    EnteredStop(m);
    var t := m.s.target.(hw := m.s.target.hw.(entry := PendingEvent(m)));
    EnterFields(t, m.cpu);
    IgnoreSlotsFlags(t.soft.(paused := true), |t.soft.slots|, true);
    var s := Entered(m);
    if s.target.stop.TrackedSoftwareBreak? {
      var j := s.target.stop.id;
      assert AtSlot(m.s.target.soft.slots, j, m.cpu.pc);
    }
  }
}
