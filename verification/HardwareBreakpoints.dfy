/**
 * The debug register file as a set of breakpoint points, and what makes a point fire.
 */
module HardwareBreakpoints {
  import opened Wrappers
  import opened Bytes
  import opened SoftwareBreakpoints

  /** Whether a breakpoint fires on the selected addresses, or on all others. */
  datatype Specificity = Match | Mismatch

  datatype ArmBreakpointKind = Thumb16Kind | Thumb32Kind | Arm32Kind

  /** Why the processor last took a debug exception (DBGDSCR.MOE). */
  datatype DebugEventReason =
    | HaltReq | Breakpoint | AsyncWatchpoint | BkptInstr
    | ExtDebugReq | VectorCatch | OSUnlock | SyncWatchpoint

  /** What one enabled breakpoint register pair selects: bytes of an aligned word. */
  datatype Point = Point(specificity: Specificity, word: u32, bas: nat)

  /** Byte `offset` of the word is selected by the byte-address-select value `bas`. */
  predicate SelectsByte(bas: nat, offset: nat)
    requires offset < 4
  {
    (bas / (if offset == 0 then 1 else if offset == 1 then 2 else if offset == 2 then 4 else 8)) % 2 == 1
  }

  predicate Selects(p: Point, pc: u32) {
    p.word == pc - pc % 4 && SelectsByte(p.bas, pc % 4)
  }

  /** The debug logic raises a breakpoint event before the instruction at `pc` (section C3.3). */
  predicate Fires(p: Point, pc: u32) {
    if p.specificity.Match? then Selects(p, pc) else !Selects(p, pc)
  }

  /** The word containing an instruction, and the bytes of that word it occupies. */
  function SplitAddr(addr: u32, kind: ArmBreakpointKind): Result<(u32, nat), BreakpointError> {
    var word := addr - addr % 4;
    match kind
    case Arm32Kind =>
      if addr % 4 != 0 then Err(NotAlignedCorrectly) else Ok((word, 0xF))
    case Thumb16Kind | Thumb32Kind =>
      if addr % 2 != 0 then Err(NotAlignedCorrectly)
      else Ok((word, if addr % 4 == 0 then 0x3 else 0xC))
  }

  predicate Aligned(addr: u32, kind: ArmBreakpointKind) {
    addr % (if kind.Arm32Kind? then 4 else 2) == 0
  }

  function PointAt(addr: u32, specificity: Specificity, kind: ArmBreakpointKind): Point
    requires Aligned(addr, kind)
  {
    var split := SplitAddr(addr, kind);
    assert split.Ok?;
    Point(specificity, split.value.0, split.value.1)
  }

  /**
   * A breakpoint selects its own address, and besides it only the other half of an ARM word:
   * a mismatch at an ARM instruction also stays silent two bytes further on.
   */
  lemma SelectedAddresses(addr: u32, specificity: Specificity, kind: ArmBreakpointKind, pc: u32)
    requires Aligned(addr, kind) && pc % 2 == 0
    ensures Selects(PointAt(addr, specificity, kind), pc) <==> pc == addr || (kind.Arm32Kind? && pc == addr + 2)
  {
  }

  /** Two breakpoints of one specificity select the same bytes only at the same address. */
  lemma SamePoint(a: u32, b: u32, specificity: Specificity, k: ArmBreakpointKind, l: ArmBreakpointKind)
    requires Aligned(a, k) && Aligned(b, l)
    ensures PointAt(a, specificity, k) == PointAt(b, specificity, l) <==> a == b && k.Arm32Kind? == l.Arm32Kind?
  {
    var p, q := PointAt(a, specificity, k), PointAt(b, specificity, l);
    OffsetFromBas(a, specificity, k);
    OffsetFromBas(b, specificity, l);
    assert a == p.word + a % 4 && b == q.word + b % 4;
  }

  lemma OffsetFromBas(a: u32, specificity: Specificity, k: ArmBreakpointKind)
    requires Aligned(a, k)
    ensures var p := PointAt(a, specificity, k);
      && p.word == a - a % 4
      && p.bas == (if k.Arm32Kind? then 0xF else if a % 4 == 0 then 0x3 else 0xC)
      && a % 4 == (if p.bas == 0xC then 2 else 0)
  {
    if !k.Arm32Kind? && a % 4 != 0 {
      assert a % 4 == 2;
    }
  }

  // ----- The register file as a set -----

  datatype HwView = HwView(n: nat, points: set<Point>, locked: bool, entry: Option<DebugEventReason>)

  function HwAdd(v: HwView, addr: u32, specificity: Specificity, kind: ArmBreakpointKind)
    : (HwView, Result<(), BreakpointError>)
  {
    if !Aligned(addr, kind) then (v, Err(NotAlignedCorrectly))
    else
      var p := PointAt(addr, specificity, kind);
      if p in v.points then (v, Err(AlreadyExists))
      else if |v.points| >= v.n then (v, Err(NoSpace))
      else (v.(points := v.points + {p}), Ok(()))
  }

  /**
   * What adding comes to, by the register contents: refused if the address is misaligned, else if
   * a register already selects these bytes, else if every register is in use.
   */
  lemma HwAddAnswers(v: HwView, addr: u32, specificity: Specificity, kind: ArmBreakpointKind)
    ensures var (r, result) := HwAdd(v, addr, specificity, kind);
      var aligned := addr % (if kind.Arm32Kind? then 4 else 2) == 0;
      var p := Point(specificity, addr - addr % 4, if kind.Arm32Kind? then 15 else if addr % 4 < 2 then 3 else 12);
      && (result == Err(NotAlignedCorrectly) <==> !aligned)
      && (result == Err(AlreadyExists) <==> aligned && p in v.points)
      && (result == Err(NoSpace) <==> aligned && p !in v.points && |v.points| >= v.n)
      && (result == Ok(()) <==> aligned && p !in v.points && |v.points| < v.n)
      && r == v.(points := if result.Ok? then v.points + {p} else v.points)
  {
    if Aligned(addr, kind) {
      OffsetFromBas(addr, specificity, kind);
    }
  }

  function HwRemove(v: HwView, addr: u32, specificity: Specificity, kind: ArmBreakpointKind): (HwView, bool) {
    if !Aligned(addr, kind) then (v, false)
    else
      var p := PointAt(addr, specificity, kind);
      (v.(points := v.points - {p}), p in v.points)
  }

  /** The debugger refuses a user's hardware breakpoint that would take the last register. */
  function AddHwBreakpoint(v: HwView, addr: u32, kind: ArmBreakpointKind): (HwView, bool) {
    if v.n - |v.points| <= 1 then (v, false)
    else
      var (v', result) := HwAdd(v, addr, Match, kind);
      (v', result.Ok?)
  }

  ghost function OfKind(points: set<Point>, specificity: Specificity): set<Point> {
    set p | p in points && p.specificity == specificity
  }

  lemma KindsPartition(points: set<Point>)
    ensures OfKind(points, Match) + OfKind(points, Mismatch) == points
    ensures |OfKind(points, Match)| + |OfKind(points, Mismatch)| == |points|
  {
    assert OfKind(points, Match) + OfKind(points, Mismatch) == points;
    assert OfKind(points, Match) * OfKind(points, Mismatch) == {};
  }

  lemma KindsAfterAdd(points: set<Point>, p: Point)
    ensures OfKind(points + {p}, p.specificity) == OfKind(points, p.specificity) + {p}
    ensures forall s :: s != p.specificity ==> OfKind(points + {p}, s) == OfKind(points, s)
  {
  }

  lemma KindsAfterRemove(points: set<Point>, p: Point)
    ensures OfKind(points - {p}, p.specificity) == OfKind(points, p.specificity) - {p}
    ensures forall s :: s != p.specificity ==> OfKind(points - {p}, s) == OfKind(points, s)
  {
  }

  /**
   * The reservation: matches leave one register over, and `mismatch` says which mismatch points
   * the debugger itself has placed.
   */
  ghost predicate Reserved(v: HwView, mismatch: set<Point>) {
    && v.n >= 1
    && |OfKind(v.points, Match)| <= v.n - 1
    && OfKind(v.points, Mismatch) == mismatch
  }

  /** A user's requests for hardware breakpoints keep the reservation, whatever they are. */
  lemma AddHwKeepsReserve(v: HwView, addr: u32, kind: ArmBreakpointKind, mismatch: set<Point>)
    requires Reserved(v, mismatch)
    ensures Reserved(AddHwBreakpoint(v, addr, kind).0, mismatch)
    ensures AddHwBreakpoint(v, addr, kind).1 <==>
      |v.points| + 1 < v.n && Aligned(addr, kind) && PointAt(addr, Match, kind) !in v.points
  {
    KindsPartition(v.points);
    if Aligned(addr, kind) {
      KindsAfterAdd(v.points, PointAt(addr, Match, kind));
    }
  }

  lemma RemoveHwKeepsReserve(v: HwView, addr: u32, kind: ArmBreakpointKind, mismatch: set<Point>)
    requires Reserved(v, mismatch)
    ensures Reserved(HwRemove(v, addr, Match, kind).0, mismatch)
  {
    if Aligned(addr, kind) {
      var p := PointAt(addr, Match, kind);
      KindsAfterRemove(v.points, p);
      assert OfKind(v.points, Match) - {p} <= OfKind(v.points, Match);
      SubsetSize(OfKind(v.points, Match) - {p}, OfKind(v.points, Match));
    }
  }

  lemma {:induction false} SubsetSize<T>(a: set<T>, b: set<T>)
    requires a <= b
    ensures |a| <= |b|
  {
    assert b == a + (b - a);
  }

  /** The reserved register is always there for a mismatch when none is placed. */
  lemma MismatchAlwaysFits(v: HwView, addr: u32, kind: ArmBreakpointKind)
    requires Reserved(v, {}) && Aligned(addr, kind)
    ensures var (v', result) := HwAdd(v, addr, Mismatch, kind);
      result == Ok(()) && v'.points == v.points + {PointAt(addr, Mismatch, kind)}
        && Reserved(v', {PointAt(addr, Mismatch, kind)})
  {
    var p := PointAt(addr, Mismatch, kind);
    KindsPartition(v.points);
    KindsAfterAdd(v.points, p);
    assert p !in OfKind(v.points, Mismatch);
  }

  /** Taking out the placed mismatch frees the reserved register again. */
  lemma MismatchRemoved(v: HwView, addr: u32, kind: ArmBreakpointKind)
    requires Aligned(addr, kind) && Reserved(v, {PointAt(addr, Mismatch, kind)})
    ensures var (v', changed) := HwRemove(v, addr, Mismatch, kind);
      changed && Reserved(v', {}) && v'.points == OfKind(v.points, Match)
  {
    var p := PointAt(addr, Mismatch, kind);
    KindsAfterRemove(v.points, p);
    KindsPartition(v.points);
    assert p in OfKind(v.points, Mismatch);
  }
}
