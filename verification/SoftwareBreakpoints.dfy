/**
 * The sixteen software breakpoint slots and what they do to program memory.
 *
 * The first half gives the slot operations as functions on a value, `SoftState`, and proves
 * what they keep; class `SwBreakpointTable` (its own file) performs them in place.
 */
module SoftwareBreakpoints {
  import opened Wrappers
  import opened Bytes
  import opened CodeMemory

  const SLOTS := 16
  /** Program memory below this address is not writable for breakpoints. */
  const LOWEST_WRITABLE := 0x0300_0000

  const ARM_BKPT := Arm(0xE120_0070)
  const THUMB_BKPT := Thumb16(0xBE00)

  datatype BreakpointError = CannotWrite | AlreadyExists | NoSpace | NotAlignedCorrectly

  /** Who wants a breakpoint. */
  datatype BreakpointReason = BreakpointReason(user: bool, internal: bool) {
    predicate Unwanted() {
      !user && !internal
    }
  }

  datatype SwBreakpoint = SwBreakpoint(
    enabled: bool, addr: u32, backup: Instruction, reason: BreakpointReason)
  {
    /** The trap instruction of the same instruction set as the one it replaces. */
    function Patch(): Instruction {
      if backup.IsThumb() then THUMB_BKPT else ARM_BKPT
    }

    /** `i` is one of the bytes overwritten while the breakpoint is enabled. */
    predicate InPatch(i: int) {
      addr <= i < addr + Patch().Size()
    }

    /** `i` is one of the bytes of the instruction the breakpoint stands for. */
    predicate InExtent(i: int) {
      addr <= i < addr + backup.Size()
    }
  }

  type Slot = Option<SwBreakpoint>

  datatype SoftState = SoftState(data: seq<byte>, fetch: seq<byte>, slots: seq<Slot>, paused: bool)
  {
    ghost predicate WellFormed() {
      && |data| == |fetch|
      && |slots| == SLOTS
      && forall k :: 0 <= k < SLOTS && slots[k].Some? ==> Fits(slots[k].value, |data|)
    }
  }

  predicate Fits(b: SwBreakpoint, size: nat) {
    b.addr + b.backup.Size() <= size
  }

  // ----- Operations on values -----

  /** Program memory after the breakpoint has been switched to `enabled`. */
  function SetEnabledData(data: seq<byte>, b: SwBreakpoint, enabled: bool): (r: seq<byte>)
    requires Fits(b, |data|)
    ensures |r| == |data|
  {
    if b.enabled == enabled then data
    else Splice(data, b.addr, (if enabled then b.Patch() else b.backup).Encode())
  }

  /** Slot `k`'s share of pausing or unpausing all breakpoints. */
  function IgnoreSlot(st: SoftState, k: nat, ignored: bool): (r: SoftState)
    requires st.WellFormed() && k < SLOTS
    ensures r.WellFormed() && |r.data| == |st.data| && r.paused == st.paused
  {
    match st.slots[k]
    case None => st
    case Some(b) =>
      var data := SetEnabledData(st.data, b, !ignored);
      st.(data := data, fetch := SyncLine(st.fetch, data, b.addr),
          slots := st.slots[k := Some(b.(enabled := !ignored))])
  }

  /** The first `n` slots in turn. */
  function IgnoreSlots(st: SoftState, n: nat, ignored: bool): (r: SoftState)
    requires st.WellFormed() && n <= SLOTS
    ensures r.WellFormed() && |r.data| == |st.data| && r.paused == st.paused
  {
    if n == 0 then st else IgnoreSlot(IgnoreSlots(st, n - 1, ignored), n - 1, ignored)
  }

  function SetIgnored(st: SoftState, ignored: bool): (r: SoftState)
    requires st.WellFormed()
    ensures r.WellFormed() && |r.data| == |st.data| && r.paused == ignored
  {
    IgnoreSlots(st.(paused := ignored), |st.slots|, ignored)
  }

  predicate AtSlot(slots: seq<Slot>, k: nat, addr: int) {
    k < |slots| && slots[k].Some? && slots[k].value.addr == addr
  }

  /** The first slot at or after `from` that tracks `addr`. */
  function FindAddr(slots: seq<Slot>, addr: int, from: nat): (r: Option<nat>)
    requires from <= |slots|
    ensures r.Some? ==> from <= r.value < |slots| && AtSlot(slots, r.value, addr)
    ensures r.Some? ==> forall k :: from <= k < r.value ==> !AtSlot(slots, k, addr)
    ensures r.None? ==> forall k :: from <= k < |slots| ==> !AtSlot(slots, k, addr)
    decreases |slots| - from
  {
    if from == |slots| then None
    else if AtSlot(slots, from, addr) then Some(from)
    else FindAddr(slots, addr, from + 1)
  }

  /** The first free slot at or after `from`. */
  function FindFree(slots: seq<Slot>, from: nat): (r: Option<nat>)
    requires from <= |slots|
    ensures r.Some? ==> from <= r.value < |slots| && slots[r.value].None?
    ensures r.Some? ==> forall k :: from <= k < r.value ==> slots[k].Some?
    ensures r.None? ==> forall k :: from <= k < |slots| ==> slots[k].Some?
    decreases |slots| - from
  {
    if from == |slots| then None
    else if slots[from].None? then Some(from)
    else FindFree(slots, from + 1)
  }

  function NewBreakpoint(data: seq<byte>, addr: u32, thumb: bool, internal: bool): SwBreakpoint
    requires InstrAddr(data, addr, thumb)
  {
    SwBreakpoint(false, addr, ReadInstr(data, addr, thumb), BreakpointReason(!internal, internal))
  }

  /** Whether the flag being asked for is still clear. */
  predicate CanFlag(reason: BreakpointReason, internal: bool) {
    if internal then !reason.internal else !reason.user
  }

  function Flag(reason: BreakpointReason, internal: bool): BreakpointReason {
    if internal then reason.(internal := true) else reason.(user := true)
  }

  function Unflag(reason: BreakpointReason, internal: bool): BreakpointReason {
    if internal then reason.(internal := false) else reason.(user := false)
  }

  /** Puts a new breakpoint in slot `j`, live at once unless breakpoints are paused. */
  function Install(st: SoftState, j: nat, addr: u32, thumb: bool, internal: bool): (r: SoftState)
    requires st.WellFormed() && j < SLOTS && InstrAddr(st.data, addr, thumb)
    ensures r.WellFormed() && |r.data| == |st.data| && r.paused == st.paused
  {
    var b := NewBreakpoint(st.data, addr, thumb, internal);
    if st.paused then st.(slots := st.slots[j := Some(b)])
    else
      var data := SetEnabledData(st.data, b, true);
      st.(data := data, fetch := SyncLine(st.fetch, data, addr),
          slots := st.slots[j := Some(b.(enabled := true))])
  }

  function Register(st: SoftState, addr: u32, thumb: bool, internal: bool)
    : (r: (SoftState, Result<(), BreakpointError>))
    requires st.WellFormed() && (LOWEST_WRITABLE <= addr ==> InstrAddr(st.data, addr, thumb))
    ensures r.0.WellFormed() && |r.0.data| == |st.data| && r.0.paused == st.paused
  {
    if addr < LOWEST_WRITABLE then (st, Err(CannotWrite))
    else match FindAddr(st.slots, addr, 0)
      case Some(k) =>
        var b := st.slots[k].value;
        if CanFlag(b.reason, internal) then
          (st.(slots := st.slots[k := Some(b.(reason := Flag(b.reason, internal)))]), Ok(()))
        else
          (st, Err(AlreadyExists))
      case None =>
        match FindFree(st.slots, 0)
        case None => (st, Err(NoSpace))
        case Some(j) => (Install(st, j, addr, thumb, internal), Ok(()))
  }

  /** The slot's breakpoint after the request to forget `addr`, before unwanted ones are dropped. */
  function Unflagged(b: SwBreakpoint, addr: int, internal: bool): SwBreakpoint {
    if b.addr == addr then b.(reason := Unflag(b.reason, internal)) else b
  }

  /** Slot `k`'s share of a removal; the flag says whether a breakpoint was dropped. */
  function RemoveSlot(st: SoftState, k: nat, addr: u32, internal: bool): (r: (SoftState, bool))
    requires st.WellFormed() && k < SLOTS
    ensures r.0.WellFormed() && |r.0.data| == |st.data| && r.0.paused == st.paused
  {
    match st.slots[k]
    case None => (st, false)
    case Some(b) =>
      var b' := Unflagged(b, addr, internal);
      if b'.reason.Unwanted() then
        (st.(data := SetEnabledData(st.data, b, false), slots := st.slots[k := None]), true)
      else
        (st.(slots := st.slots[k := Some(b')]), false)
  }

  function RemoveSlots(st: SoftState, n: nat, addr: u32, internal: bool): (r: (SoftState, bool))
    requires st.WellFormed() && n <= SLOTS
    ensures r.0.WellFormed() && |r.0.data| == |st.data| && r.0.paused == st.paused
  {
    if n == 0 then (st, false)
    else
      var (before, changed) := RemoveSlots(st, n - 1, addr, internal);
      var (after, dropped) := RemoveSlot(before, n - 1, addr, internal);
      (after, changed || dropped)
  }

  function Remove(st: SoftState, addr: u32, internal: bool): (r: (SoftState, bool))
    requires st.WellFormed()
    ensures r.0.WellFormed() && |r.0.data| == |st.data| && r.0.paused == st.paused
  {
    var (after, changed) := RemoveSlots(st, |st.slots|, addr, internal);
    if changed then (after.(fetch := SyncLine(after.fetch, after.data, addr)), true)
    else (after, false)
  }
}
