/**
 * What each stop and each request of the client comes to: the state after it, in terms of addresses,
 * registers and memory.
 */
module SessionLaws {
  import opened Wrappers
  import opened Bytes
  import opened CodeMemory
  import opened Registers
  import opened SoftwareBreakpoints
  import opened SoftwareInvariants
  import opened SoftwareRefinement
  import opened SoftwareRuns
  import opened HardwareBreakpoints
  import opened DebugTarget
  import opened DebugSession
  import opened SessionRuns
  import opened SessionTheorems

  // ----- The exit -----

  /** The program has stopped at a breakpoint that the debugger itself has planted. */
  ghost predicate AtInternal(m: Moment)
    requires Shape(m)
  {
    PendingEvent(m) == Some(BkptInstr) && InternalAt(m.s.target.soft.slots, m.cpu.pc)
  }

  ghost predicate InternalAt(slots: seq<Slot>, pc: u32) {
    exists k :: 0 <= k < |slots| && slots[k].Some? && slots[k].value.addr == pc && slots[k].value.reason.internal
  }

  lemma ExitAtSlot(m: Moment, k: nat)
    requires RunInv(m) && Legal(m, DebugEvent) && PendingEvent(m) == Some(BkptInstr)
    requires AtSlot(m.s.target.soft.slots, k, m.cpu.pc) && m.s.target.soft.slots[k].value.reason.internal
    ensures var (r, action) := HandleStop(Entered(m));
      var connected := m.s.stage.Idle? || m.s.stage.Running? || m.s.stage.CtrlCInterrupt?;
      && (r.target.status.Exiting? <==> connected) && (r.target.status.Active? <==> !connected)
      && (connected ==> action.EnterMonitor?) && r.stage == m.s.stage
  {
    SlotAtStop(m, k);
    EnterInv(m);
    EnteredStop(m);
    WantedAtSlot(Entered(m).target.soft.slots, k, true);
  }

  lemma NoExitElsewhere(m: Moment)
    requires RunInv(m) && Legal(m, DebugEvent) && !AtInternal(m)
    ensures var r := HandleStop(Entered(m)).0; r.target.status.Active? && r.stage == m.s.stage
  {
    EnterInv(m);
    EnteredStop(m);
    var s := Entered(m);
    if s.target.stop.TrackedSoftwareBreak? {
      var t := m.s.target.(hw := m.s.target.hw.(entry := PendingEvent(m)));
      EnterFields(t, m.cpu);
      IgnoreSlotsFlags(t.soft.(paused := true), |t.soft.slots|, true);
      var j := s.target.stop.id;
      assert m.s.target.soft.slots[j].Some? && m.s.target.soft.slots[j].value.addr == m.cpu.pc;
    }
  }

  /**
   * The exit is announced if and only if the program stops at the debugger's own breakpoint and a
   * client is there to be told; every other stop in the monitor is an ordinary one.
   */
  lemma ExitIsAnnounced(m: Moment)
    requires RunInv(m) && Legal(m, DebugEvent)
    ensures var r := Next(m, DebugEvent);
      var told := AtInternal(m) && (m.s.stage.Idle? || m.s.stage.Running? || m.s.stage.CtrlCInterrupt?);
      && (r.s.target.status.Exiting? <==> told)
      && r.exits == m.exits + (if told then 1 else 0)
      && (told ==> r.inMonitor)
      && (!told ==> r.s.target.status.Active?)
      && r.s.stage == (if r.inMonitor && m.s.stage.Uninitialized? then SessionStage.Idle else m.s.stage)
  {
    AfterEventIs(m);
    if AtInternal(m) {
      var k :| 0 <= k < SLOTS && AtSlot(m.s.target.soft.slots, k, m.cpu.pc) && m.s.target.soft.slots[k].value.reason.internal;
      ExitAtSlot(m, k);
    } else {
      NoExitElsewhere(m);
    }
  }

  /** The hook is planted at the exit function's first instruction, in the instruction set its lowest bit tells. */
  lemma HookPlace(m: Moment, exitFunction: u32)
    requires Fresh(m) && ExitFunctionOk(m, exitFunction)
    ensures var s, thumb := Initialized(m, exitFunction).s, exitFunction % 2 == 1;
      var addr := if thumb then exitFunction - 1 else exitFunction;
      && s.exitHook == Some(addr)
      && s.target.soft.slots[0].Some?
      && var b := s.target.soft.slots[0].value;
        b.addr == addr && b.backup.IsThumb() == thumb && b.reason == BreakpointReason(false, true)
  {
    var slots := m.s.target.soft.slots;
    assert FindAddr(slots, CodeOf(exitFunction), 0).None?;
    assert FindFree(slots, 0) == Some(0);
  }

  // ----- Requests -----

  function Request(c: GdbCommand): Event {
    Console(TickInput(Some(c), if c.Step? || c.Continue? then SessionStage.Running else SessionStage.Idle))
  }

  /** The moment with these software breakpoints, or these hardware breakpoints, and nothing else changed. */
  function WithSoft(m: Moment, soft: SoftState): Moment {
    m.(s := m.s.(target := m.s.target.(soft := soft)))
  }

  function WithPoints(m: Moment, points: set<Point>): Moment {
    m.(s := m.s.(target := m.s.target.(hw := m.s.target.hw.(points := points))))
  }

  /**
   * Continuing: the program goes on from the context of the client with no step pending, the
   * scheduler running, and the hardware firing at the user's own points only.
   */
  lemma ContinueRuns(m: Moment, pc: u32)
    requires Ready(m) && AtCode(m.s.target.ctx)
    ensures Legal(m, Request(Continue)) && Legal(Next(m, Request(Continue)), ReturnToProgram)
    ensures var r := Next(Next(m, Request(Continue)), ReturnToProgram);
      && RunInv(r) && !r.inMonitor && r.s.stage.Running?
      && r.cpu == m.s.target.ctx
      && r.s.target.step.None? && !r.s.target.interruptPending && r.s.target.depth == 0
      && (HardwareFires(r.s.target, pc) <==> UserPointAt(m.s.target, pc))
      && r.image == m.image && !r.s.target.soft.paused
      && Wanted(r.s.target.soft.slots, false) == Wanted(m.s.target.soft.slots, false)
      && Wanted(r.s.target.soft.slots, true) == Wanted(m.s.target.soft.slots, true)
  {
    var m1 := Next(m, Request(Continue));
    NextInv(m, Request(Continue));
    NextInv(m1, ReturnToProgram);
    var r := Next(m1, ReturnToProgram);
    UnpendingFires(r.s.target, pc);
    WantedAfterIgnore(m.s.target.soft, false, false);
    WantedAfterIgnore(m.s.target.soft, false, true);
  }

  /** A registration for the user, in terms of the two sets. */
  lemma RegisterForUser(st: SoftState, image: seq<byte>, addr: u32, thumb: bool)
    requires SoftInv(st, image) && st.paused && (0x0300_0000 <= addr ==> InstrAddr(image, addr, thumb))
    ensures st.data == image
    ensures var r := Register(st, addr, thumb, false).0;
      var user, internal := Wanted(st.slots, false), Wanted(st.slots, true);
      var added := 0x0300_0000 <= addr && addr !in user && (addr in internal || |user + internal| < 16);
      && SoftInv(r, image) && r.paused && r.data == image
      && Wanted(r.slots, false) == user + (if added then {addr} else {})
      && Wanted(r.slots, true) == internal
  {
    PausedMemoryIsOriginal(st, image);
    if 0x0300_0000 <= addr {
      TrackedIsWanted(st.slots);
      RegisterRefines(st, addr, thumb, false);
      RegisterInv(st, addr, thumb, false, image);
      PausedMemoryIsOriginal(Register(st, addr, thumb, false).0, image);
    } else {
      RegisterLow(st, addr, thumb, false);
    }
  }

  /**
   * Adding a software breakpoint: the user's set gains the address exactly if it is writable, not in
   * the set yet, and tracked already or one of sixteen; nothing else changes, memory least of all.
   */
  lemma AddSoftware(m: Moment, addr: u32, kind: ArmBreakpointKind)
    requires Ready(m) && (0x0300_0000 <= addr ==> InstrAddr(m.image, addr, !kind.Arm32Kind?))
    ensures Legal(m, Request(AddSwBreakpoint(addr, kind)))
    ensures var r := Next(m, Request(AddSwBreakpoint(addr, kind)));
      var user, internal := Wanted(m.s.target.soft.slots, false), Wanted(m.s.target.soft.slots, true);
      var added := 0x0300_0000 <= addr && addr !in user && (addr in internal || |user + internal| < 16);
      && RunInv(r) && r == WithSoft(m, r.s.target.soft) && r.s.target.soft.data == m.image
      && Wanted(r.s.target.soft.slots, false) == user + (if added then {addr} else {})
      && Wanted(r.s.target.soft.slots, true) == internal
  {
    var st, c := m.s.target.soft, AddSwBreakpoint(addr, kind);
    RegisterForUser(st, m.image, addr, !kind.Arm32Kind?);
    NextInv(m, Request(c));
    assert Next(m, Request(c)) == WithSoft(m, Register(st, addr, !kind.Arm32Kind?, false).0);
  }

  /** The new slot is for the instruction set asked for. */
  lemma AddedForItsSet(m: Moment, addr: u32, kind: ArmBreakpointKind)
    requires Ready(m) && 0x0300_0000 <= addr && InstrAddr(m.image, addr, !kind.Arm32Kind?)
    requires addr !in Tracked(m.s.target.soft.slots) && |Tracked(m.s.target.soft.slots)| < 16
    ensures Legal(m, Request(AddSwBreakpoint(addr, kind)))
    ensures var slots := Next(m, Request(AddSwBreakpoint(addr, kind))).s.target.soft.slots;
      exists k :: 0 <= k < |slots| && slots[k].Some? && slots[k].value.addr == addr
        && (slots[k].value.backup.Arm? <==> kind.Arm32Kind?) && slots[k].value.reason == BreakpointReason(true, false)
  {
    var st := m.s.target.soft;
    PausedMemoryIsOriginal(st, m.image);
    FoundIsTracked(st.slots, addr);
    TrackedSize(st.slots);
    var j := FindFree(st.slots, 0).value;
    var slots := Next(m, Request(AddSwBreakpoint(addr, kind))).s.target.soft.slots;
    assert slots[j] == Some(NewBreakpoint(st.data, addr, !kind.Arm32Kind?, false));
  }

  /** Removing a software breakpoint: the user's set loses the address, and nothing else changes. */
  lemma RemoveSoftware(m: Moment, addr: u32, kind: ArmBreakpointKind)
    requires Ready(m)
    ensures Legal(m, Request(RemoveSwBreakpoint(addr, kind)))
    ensures var r := Next(m, Request(RemoveSwBreakpoint(addr, kind)));
      && RunInv(r) && r == WithSoft(m, r.s.target.soft) && r.s.target.soft.data == m.image
      && Wanted(r.s.target.soft.slots, false) == Wanted(m.s.target.soft.slots, false) - {addr}
      && Wanted(r.s.target.soft.slots, true) == Wanted(m.s.target.soft.slots, true)
  {
    NextInv(m, Request(RemoveSwBreakpoint(addr, kind)));
    RemoveRefines(m.s.target.soft, addr, false);
    PausedMemoryIsOriginal(Next(m, Request(RemoveSwBreakpoint(addr, kind))).s.target.soft, m.image);
  }

  /** The address is aligned for the kind of instruction. */
  predicate KindAligned(addr: u32, kind: ArmBreakpointKind) {
    match kind
    case Arm32Kind => addr % 4 == 0
    case Thumb16Kind | Thumb32Kind => addr % 2 == 0
  }

  /** The register contents that select the instruction: its word, and four bytes of it or a half. */
  function Selecting(addr: u32, kind: ArmBreakpointKind): Point {
    Point(Match, addr - addr % 4, if kind.Arm32Kind? then 15 else if addr % 4 < 2 then 3 else 12)
  }

  lemma SelectingIs(addr: u32, kind: ArmBreakpointKind)
    ensures Aligned(addr, kind) <==> KindAligned(addr, kind)
    ensures KindAligned(addr, kind) ==> PointAt(addr, Match, kind) == Selecting(addr, kind)
  {
    if KindAligned(addr, kind) {
      OffsetFromBas(addr, Match, kind);
    }
  }

  /**
   * Adding a hardware breakpoint: the hardware fires at the address from then on, and at the other
   * half of an ARM word, exactly if it is aligned and two registers are free; nothing else changes.
   */
  lemma AddHardware(m: Moment, addr: u32, kind: ArmBreakpointKind, pc: u32)
    requires Ready(m) && pc % 2 == 0
    ensures Legal(m, Request(AddHw(addr, kind)))
    ensures var r, v := Next(m, Request(AddHw(addr, kind))), m.s.target.hw;
      var room := |v.points| + 2 <= v.n;
      && RunInv(r) && r == WithPoints(m, r.s.target.hw.points)
      && r.s.target.hw.points == (if KindAligned(addr, kind) && room then v.points + {Selecting(addr, kind)} else v.points)
      && (UserPointAt(r.s.target, pc) <==>
            UserPointAt(m.s.target, pc)
            || (KindAligned(addr, kind) && room && (pc == addr || (kind.Arm32Kind? && pc == addr + 2))))
  {
    var t := m.s.target;
    NextInv(m, Request(AddHw(addr, kind)));
    SelectingIs(addr, kind);
    if KindAligned(addr, kind) && |t.hw.points| + 2 <= t.hw.n {
      var p := Selecting(addr, kind);
      SelectedAddresses(addr, Match, kind, pc);
      AddedPoint(t, Next(m, Request(AddHw(addr, kind))).s.target, p, pc);
    } else {
      assert Next(m, Request(AddHw(addr, kind))).s.target.hw == t.hw;
    }
  }

  lemma AddedPoint(t: TargetView, r: TargetView, p: Point, pc: u32)
    requires r.hw.points == t.hw.points + {p} && p.specificity.Match?
    ensures UserPointAt(r, pc) <==> UserPointAt(t, pc) || Selects(p, pc)
  {
    assert OfKind(r.hw.points, Match) == OfKind(t.hw.points, Match) + {p};
  }

  /** Some other point of the user's selects the address. */
  ghost predicate OtherPointAt(t: TargetView, p: Point, pc: u32) {
    exists q :: q in OfKind(t.hw.points, Match) && q != p && Selects(q, pc)
  }

  /**
   * Removing a hardware breakpoint: exactly the register contents that select the instruction go, so
   * the hardware goes on to fire where some other point of the user's selects the address.
   */
  lemma RemoveHardware(m: Moment, addr: u32, kind: ArmBreakpointKind, pc: u32)
    requires Ready(m) && pc % 2 == 0
    ensures Legal(m, Request(RemoveHw(addr, kind)))
    ensures var r, v := Next(m, Request(RemoveHw(addr, kind))), m.s.target.hw;
      && RunInv(r) && r == WithPoints(m, r.s.target.hw.points)
      && r.s.target.hw.points == (if KindAligned(addr, kind) then v.points - {Selecting(addr, kind)} else v.points)
      && (UserPointAt(r.s.target, pc) <==>
            if KindAligned(addr, kind) && (pc == addr || (kind.Arm32Kind? && pc == addr + 2))
            then OtherPointAt(m.s.target, Selecting(addr, kind), pc) else UserPointAt(m.s.target, pc))
  {
    var t, r := m.s.target, Next(m, Request(RemoveHw(addr, kind))).s.target;
    NextInv(m, Request(RemoveHw(addr, kind)));
    SelectingIs(addr, kind);
    if KindAligned(addr, kind) {
      SelectedAddresses(addr, Match, kind, pc);
      RemovedPoint(t, r, Selecting(addr, kind), pc);
    }
  }

  lemma RemovedPoint(t: TargetView, r: TargetView, p: Point, pc: u32)
    requires r.hw.points == t.hw.points - {p} && p.specificity.Match?
    ensures UserPointAt(r, pc) <==> if Selects(p, pc) then OtherPointAt(t, p, pc) else UserPointAt(t, pc)
  {
    assert OfKind(r.hw.points, Match) == OfKind(t.hw.points, Match) - {p};
    if UserPointAt(t, pc) && !Selects(p, pc) {
      var q :| q in OfKind(t.hw.points, Match) && Selects(q, pc);
      assert q != p;
    }
  }

  /** Removing what was just added undoes it. */
  lemma RemoveUndoesAdd(m: Moment, addr: u32, kind: ArmBreakpointKind)
    requires Ready(m) && Selecting(addr, kind) !in m.s.target.hw.points
    ensures Legal(m, Request(AddHw(addr, kind)))
    ensures Legal(Next(m, Request(AddHw(addr, kind))), Request(RemoveHw(addr, kind)))
    ensures Next(Next(m, Request(AddHw(addr, kind))), Request(RemoveHw(addr, kind))) == m
  {
    AddHardware(m, addr, kind, 0);
    var m1, points := Next(m, Request(AddHw(addr, kind))), m.s.target.hw.points;
    RemoveHardware(m1, addr, kind, 0);
    assert points + {Selecting(addr, kind)} - {Selecting(addr, kind)} == points - {Selecting(addr, kind)} == points;
    assert Next(m1, Request(RemoveHw(addr, kind))) == WithPoints(m, points);
  }

  /** Writing the registers: the program goes on with exactly what was written. */
  lemma WrittenRegistersRun(m: Moment, c: DebugEventContext)
    requires Ready(m) && c.Shape() && AtCode(c)
    ensures Legal(m, Request(WriteRegisters(c)))
    ensures var m1 := Next(m, Request(WriteRegisters(c)));
      && Ready(m1) && m1 == m.(s := m.s.(target := m.s.target.(ctx := c)))
      && Legal(m1, Request(Continue)) && Legal(Next(m1, Request(Continue)), ReturnToProgram)
      && Next(Next(m1, Request(Continue)), ReturnToProgram).cpu == c
  {
    NextInv(m, Request(WriteRegisters(c)));
    ContinueRuns(Next(m, Request(WriteRegisters(c))), 0);
  }

  /** Writing memory beside tracked instructions: exactly these bytes change, and nothing else. */
  lemma WrittenMemory(m: Moment, addr: u32, bytes: seq<byte>)
    requires Ready(m) && addr + |bytes| <= MEMORY_SIZE && AvoidsExtents(m.s.target.soft.slots, addr, |bytes|)
    ensures Legal(m, Request(WriteMemory(addr, bytes)))
    ensures var r := Next(m, Request(WriteMemory(addr, bytes)));
      && RunInv(r) && r.s == WithSoft(m, r.s.target.soft).s && r.cpu == m.cpu && r.inMonitor
      && r.s.target.soft.data == r.image == Splice(m.image, addr, bytes)
      && r.s.target.soft.slots == m.s.target.soft.slots
  {
    NextInv(m, Request(WriteMemory(addr, bytes)));
    PausedMemoryIsOriginal(Next(m, Request(WriteMemory(addr, bytes))).s.target.soft, Splice(m.image, addr, bytes));
  }

  /** A turn without a request leaves the target alone, whatever the connection does. */
  lemma QuietTurn(m: Moment, input: TickInput)
    requires RunInv(m) && Legal(m, Console(input))
    requires (m.s.stage.Idle? && input.command.None?) || m.s.stage.CtrlCInterrupt?
    ensures Next(m, Console(input)) == m.(s := m.s.(stage := input.next))
  {
  }
}
