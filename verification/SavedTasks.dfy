/**
 * The registers of a switched-out task, in the frame that the scheduler keeps on its stack.
 */
module SavedTasks {
  import opened Bytes
  import opened CodeMemory
  import opened Layout
  import opened Registers
  import opened RegisterViews

  // ----- The frame -----

  const FRAME_FIELDS := 51
  const FRAME_SIZE := 332
  const FLAG := 0
  const NESTING := 34

  /** FPU flag, fpscr, d16 to d31, d0 to d15; critical nesting, r0 to r12, lr, pc, spsr. */
  function FrameFieldWidths(): (ws: Widths)
    ensures |ws| == FRAME_FIELDS && forall i :: 0 <= i < FRAME_FIELDS ==> ws[i] == if 2 <= i < 34 then 8 else 4
  {
    seq(FRAME_FIELDS, i => if 2 <= i < 34 then 8 else 4)
  }

  const FRAME: Widths := FrameFieldWidths()

  lemma {:induction false} FrameOffset(i: nat)
    requires i <= FRAME_FIELDS
    ensures Offset(FRAME, i) == if i <= 2 then 4 * i else if i <= 34 then 8 * i - 8 else 4 * i + 128
  {
    if i > 0 {
      FrameOffset(i - 1);
    }
  }

  lemma FrameSize()
    ensures Total(FRAME) == FRAME_SIZE
  {
    FrameOffset(|FRAME|);
  }

  lemma FieldInFrame(i: nat)
    requires i < FRAME_FIELDS
    ensures Offset(FRAME, i) + FRAME[i] <= FRAME_SIZE
  {
    FrameSize();
    OffsetMonotone(FRAME, i, |FRAME|);
  }

  function FrameValues(flag: u32, nesting: u32, c: DebugEventContext): (vs: seq<nat>)
    requires c.Shape()
    ensures |vs| == FRAME_FIELDS
  {
    [flag, c.fpscr] + c.vfp[16..] + c.vfp[..16] + [nesting] + c.gpr + [c.lr, c.pc, c.cpsr]
  }

  lemma FrameValuesInRange(flag: u32, nesting: u32, c: DebugEventContext)
    requires c.Shape()
    ensures InRange(FRAME, FrameValues(flag, nesting, c))
  {
    WordRanges();
  }

  /** The field of the frame that holds a register other than the stack pointer. */
  function FrameField(r: ArmRegisterID): (i: nat)
    requires r.Exists() && !r.Sp?
    ensures i < FRAME_FIELDS && FRAME[i] == r.Size() && i != FLAG && i != NESTING
  {
    match r
    case Gpr(i) => 35 + i
    case Lr => 48
    case Pc => 49
    case Cpsr => 50
    case Fpr(i) => if i >= 16 then 2 + (i - 16) else 18 + i
    case Fpscr => 1
  }

  lemma FrameFieldInjective(r: ArmRegisterID, q: ArmRegisterID)
    requires r.Exists() && q.Exists() && !r.Sp? && !q.Sp? && r != q
    ensures FrameField(r) != FrameField(q)
  {
  }

  lemma FrameValueIs(flag: u32, nesting: u32, c: DebugEventContext, r: ArmRegisterID)
    requires c.Shape() && r.Exists() && !r.Sp?
    ensures FrameValues(flag, nesting, c)[FrameField(r)] == Get(c, r)
  {
  }

  // ----- Tasks in memory -----

  /** The first word of a task's control block is its saved stack pointer. */
  function StackPtr(mem: seq<byte>, tcb: nat): u32
    requires tcb + 4 <= |mem|
  {
    WordAt(mem, tcb)
  }

  /** A frame at `at` lies in memory and clear of the control block. */
  predicate FrameClear(size: nat, tcb: nat, at: int) {
    0 <= at && at + FRAME_SIZE < size && (at + FRAME_SIZE <= tcb || tcb + 4 <= at)
  }

  /** The task's stack pointer is valid. */
  predicate Placed(mem: seq<byte>, tcb: nat) {
    |mem| == MEMORY_SIZE && tcb + 4 <= |mem| && FrameClear(|mem|, tcb, StackPtr(mem, tcb))
  }

  function FrameAt(mem: seq<byte>, at: nat): (f: seq<byte>)
    requires at + FRAME_SIZE <= |mem|
    ensures |f| == FRAME_SIZE
  {
    mem[at..at + FRAME_SIZE]
  }

  function FrameValue(f: seq<byte>, i: nat): nat
    requires |f| == FRAME_SIZE && i < FRAME_FIELDS
  {
    FieldInFrame(i);
    Field(FRAME, f, i)
  }

  function TaskFrame(mem: seq<byte>, tcb: nat): (f: seq<byte>)
    requires Placed(mem, tcb)
    ensures |f| == FRAME_SIZE
  {
    FrameAt(mem, StackPtr(mem, tcb))
  }

  /** A saved context is only understood if it says that it holds floating-point registers. */
  predicate HasFpu(f: seq<byte>)
    requires |f| == FRAME_SIZE
  {
    FrameValue(f, FLAG) != 0
  }

  /** The task's stack pointer as the task itself sees it, with the frame popped off. */
  function LogicalSp(mem: seq<byte>, tcb: nat): u32
    requires Placed(mem, tcb)
  {
    StackPtr(mem, tcb) + FRAME_SIZE
  }

  function ReadSingle(mem: seq<byte>, tcb: nat, r: ArmRegisterID): (v: nat)
    requires Placed(mem, tcb) && r.Exists()
    ensures v < Range(r.Size())
  {
    WordRanges();
    if r.Sp? then LogicalSp(mem, tcb)
    else
      FieldInFrame(FrameField(r));
      var i := FrameField(r);
      LeValueRange(TaskFrame(mem, tcb)[Offset(FRAME, i)..Offset(FRAME, i) + FRAME[i]]);
      FrameValue(TaskFrame(mem, tcb), i)
  }

  /** The context that agrees with the task's frame and stack pointer in every register. */
  function ReadRegisters(mem: seq<byte>, tcb: nat): (c: DebugEventContext)
    requires Placed(mem, tcb)
    ensures c.Shape() && forall r: ArmRegisterID :: r.Exists() ==> Get(c, r) == ReadSingle(mem, tcb, r)
  {
    WordRanges();
    var c := DebugEventContext(
      ReadSingle(mem, tcb, Cpsr),
      ReadSingle(mem, tcb, Sp),
      ReadSingle(mem, tcb, Lr),
      ReadSingle(mem, tcb, Fpscr),
      seq(VFPS, i requires 0 <= i < VFPS => ReadSingle(mem, tcb, Fpr(i))),
      seq(GPRS, i requires 0 <= i < GPRS => ReadSingle(mem, tcb, Gpr(i))),
      ReadSingle(mem, tcb, Pc));
    c
  }

  /** Contexts that agree in every register are the same. */
  lemma SameRegisters(c: DebugEventContext, d: DebugEventContext)
    requires c.Shape() && d.Shape() && forall r: ArmRegisterID :: r.Exists() ==> Get(c, r) == Get(d, r)
    ensures c == d
  {
    forall i | 0 <= i < VFPS
      ensures c.vfp[i] == d.vfp[i]
    {
      assert Get(c, Fpr(i)) == Get(d, Fpr(i));
    }
    forall i | 0 <= i < GPRS
      ensures c.gpr[i] == d.gpr[i]
    {
      assert Get(c, Gpr(i)) == Get(d, Gpr(i));
    }
    assert c.vfp == d.vfp && c.gpr == d.gpr;
    assert Get(c, Sp) == Get(d, Sp) && Get(c, Lr) == Get(d, Lr) && Get(c, Pc) == Get(d, Pc);
    assert Get(c, Cpsr) == Get(d, Cpsr) && Get(c, Fpscr) == Get(d, Fpscr);
  }

  // ----- Writing -----

  /** Points the task at a new frame; `copy` brings the old frame's contents along. */
  function SetSp(mem: seq<byte>, tcb: nat, sp: u32, copy: bool): (r: seq<byte>)
    requires Placed(mem, tcb) && FrameClear(|mem|, tcb, sp - FRAME_SIZE)
    ensures |r| == |mem|
  {
    var moved := Splice(mem, tcb, LeBytes(4, sp - FRAME_SIZE));
    if copy then Splice(moved, sp - FRAME_SIZE, FrameAt(moved, StackPtr(mem, tcb))) else moved
  }

  /** Stores a register other than the stack pointer in the frame. */
  function WriteField(mem: seq<byte>, tcb: nat, r: ArmRegisterID, v: nat): (m: seq<byte>)
    requires Placed(mem, tcb) && r.Exists() && !r.Sp? && v < Range(r.Size())
    ensures |m| == |mem|
  {
    FieldInFrame(FrameField(r));
    Splice(mem, StackPtr(mem, tcb) + Offset(FRAME, FrameField(r)), LeBytes(r.Size(), v))
  }

  function WriteSingle(mem: seq<byte>, tcb: nat, r: ArmRegisterID, v: nat): (m: seq<byte>)
    requires Placed(mem, tcb) && r.Exists() && v < Range(r.Size())
    requires r.Sp? ==> FrameClear(|mem|, tcb, v - FRAME_SIZE)
    ensures |m| == |mem|
  {
    WordRanges();
    if r.Sp? then SetSp(mem, tcb, v, true) else WriteField(mem, tcb, r, v)
  }

  datatype Written = Done(mem: seq<byte>) | Panicked(mem: seq<byte>)

  function EncodeFrame(nesting: u32, c: DebugEventContext): (f: seq<byte>)
    requires c.Shape()
    ensures |f| == FRAME_SIZE
  {
    FrameSize();
    Encode(FRAME, FrameValues(1, nesting, c))
  }

  function Nesting(f: seq<byte>): u32
    requires |f| == FRAME_SIZE
  {
    WordRanges();
    FieldInFrame(NESTING);
    LeValueRange(f[Offset(FRAME, NESTING)..Offset(FRAME, NESTING) + FRAME[NESTING]]);
    FrameValue(f, NESTING)
  }

  /** Replaces all registers: the frame moves first, and its new place is checked before it is filled. */
  function WriteRegisters(mem: seq<byte>, tcb: nat, c: DebugEventContext): (w: Written)
    requires Placed(mem, tcb) && c.Shape() && FrameClear(|mem|, tcb, c.sp - FRAME_SIZE)
    ensures |w.mem| == |mem|
  {
    var f := TaskFrame(mem, tcb);
    if !HasFpu(f) then Panicked(mem)
    else
      var moved := SetSp(mem, tcb, c.sp, false);
      if !HasFpu(FrameAt(moved, c.sp - FRAME_SIZE)) then Panicked(moved)
      else Done(Splice(moved, c.sp - FRAME_SIZE, EncodeFrame(Nesting(f), c)))
  }
}
