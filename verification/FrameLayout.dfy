/**
 * Where the registers of a sleeping task lie in memory, byte by byte: the frame at the saved stack
 * pointer as the scheduler's port lays it out.
 */
module FrameLayout {
  import opened Bytes
  import opened Layout
  import opened Registers
  import opened RegisterViews
  import opened SavedTasks
  import opened TaskRegisters

  lemma SliceOfSlice(mem: seq<byte>, at: nat, size: nat, offset: nat, n: nat)
    requires at + size <= |mem| && offset + n <= size
    ensures mem[at..at + size][offset..offset + n] == mem[at + offset..at + offset + n]
  {
    var outer, inner := mem[at..at + size], mem[at + offset..at + offset + n];
    assert forall k :: 0 <= k < n ==> outer[offset..offset + n][k] == outer[offset + k] == inner[k];
  }

  lemma ValueInSlice(mem: seq<byte>, at: nat, size: nat, offset: nat, n: nat)
    requires at + size <= |mem| && offset + n <= size
    ensures ValueAt(mem[at..at + size], offset, n) == ValueAt(mem, at + offset, n)
  {
    SliceOfSlice(mem, at, size, offset, n);
  }

  lemma FieldIsValue(ws: Widths, bs: seq<byte>, i: nat, offset: nat, n: nat)
    requires i < |ws| && offset == Offset(ws, i) && n == ws[i] && offset + n <= |bs|
    ensures Field(ws, bs, i) == ValueAt(bs, offset, n)
  {
  }

  lemma FieldAt(mem: seq<byte>, at: nat, i: nat, offset: nat, n: nat)
    requires at + FRAME_SIZE <= |mem| && i < FRAME_FIELDS && offset == Offset(FRAME, i) && n == FRAME[i]
    ensures offset + n <= FRAME_SIZE
    ensures FrameValue(FrameAt(mem, at), i) == ValueAt(mem, at + offset, n)
  {
    FieldInFrame(i);
    FieldIsValue(FRAME, FrameAt(mem, at), i, offset, n);
    ValueInSlice(mem, at, FRAME_SIZE, offset, n);
  }

  lemma RegisterAt(mem: seq<byte>, tcb: nat, r: ArmRegisterID, offset: nat, n: nat)
    requires Placed(mem, tcb) && r.Exists() && !r.Sp? && offset == Offset(FRAME, FrameField(r)) && n == r.Size()
    ensures offset + n <= FRAME_SIZE
    ensures ReadSingle(mem, tcb, r) == ValueAt(mem, StackPtr(mem, tcb) + offset, n)
  {
    FieldAt(mem, StackPtr(mem, tcb), FrameField(r), offset, n);
  }

  /** The offset and width of each register in the frame. */
  lemma RegisterOffset(r: ArmRegisterID)
    requires r.Exists() && !r.Sp?
    ensures match r
      case Fpscr => Offset(FRAME, FrameField(r)) == 4 && r.Size() == 4
      case Fpr(i) => Offset(FRAME, FrameField(r)) == (if i < 16 then 136 + 8 * i else 8 + 8 * (i - 16)) && r.Size() == 8
      case Gpr(i) => Offset(FRAME, FrameField(r)) == 268 + 4 * i && r.Size() == 4
      case Lr => Offset(FRAME, FrameField(r)) == 320 && r.Size() == 4
      case Pc => Offset(FRAME, FrameField(r)) == 324 && r.Size() == 4
      case Cpsr => Offset(FRAME, FrameField(r)) == 328 && r.Size() == 4
      case Sp => true
  {
    FrameOffset(FrameField(r));
  }

  /** Reading a register of a sleeping task reads the bytes where the scheduler has saved it. */
  lemma ReadsSavedBytes(mem: seq<byte>, tcb: nat, r: ArmRegisterID)
    requires Placed(mem, tcb) && r.Exists()
    ensures var at, v := ValueAt(mem, tcb, 4), ReadSingle(mem, tcb, r);
      at + 332 < |mem| &&
      match r
      case Fpscr => v == ValueAt(mem, at + 4, 4)
      case Fpr(i) => v == ValueAt(mem, at + if i < 16 then 136 + 8 * i else 8 + 8 * (i - 16), 8)
      case Gpr(i) => v == ValueAt(mem, at + 268 + 4 * i, 4)
      case Lr => v == ValueAt(mem, at + 320, 4)
      case Pc => v == ValueAt(mem, at + 324, 4)
      case Cpsr => v == ValueAt(mem, at + 328, 4)
      case Sp => v == at + 332
  {
    if !r.Sp? {
      RegisterOffset(r);
      RegisterAt(mem, tcb, r, Offset(FRAME, FrameField(r)), r.Size());
    }
  }

  /** The flag and the nesting, which are no registers. */
  lemma SavedFlagAndNesting(mem: seq<byte>, tcb: nat)
    requires Placed(mem, tcb)
    ensures var at := ValueAt(mem, tcb, 4);
      && at + 332 < |mem|
      && (HasFpu(TaskFrame(mem, tcb)) <==> ValueAt(mem, at, 4) != 0)
      && Nesting(TaskFrame(mem, tcb)) == ValueAt(mem, at + 264, 4)
  {
    FrameOffset(FLAG);
    FrameOffset(NESTING);
    FieldAt(mem, StackPtr(mem, tcb), FLAG, 0, 4);
    FieldAt(mem, StackPtr(mem, tcb), NESTING, 264, 4);
  }

  /** The floating-point registers, d16 to d31 first, in the frame at `at`. */
  ghost predicate DoublesAt(mem: seq<byte>, at: nat, vfp: seq<u64>)
    requires at + 332 <= |mem| && |vfp| == 32
  {
    && (forall i :: 0 <= i < 16 ==> vfp[16 + i] == ValueAt(mem, at + 8 + 8 * i, 8))
    && (forall i :: 0 <= i < 16 ==> vfp[i] == ValueAt(mem, at + 136 + 8 * i, 8))
  }

  /** r0 to r12. */
  ghost predicate GprsAt(mem: seq<byte>, at: nat, gpr: seq<u32>)
    requires at + 332 <= |mem| && |gpr| == 13
  {
    forall i :: 0 <= i < 13 ==> gpr[i] == ValueAt(mem, at + 268 + 4 * i, 4)
  }

  /** The bytes of a context as the scheduler saves it at `at`. */
  ghost predicate SavedAt(mem: seq<byte>, at: nat, c: DebugEventContext)
    requires at + 332 <= |mem| && c.Shape()
  {
    && c.fpscr == ValueAt(mem, at + 4, 4)
    && DoublesAt(mem, at, c.vfp)
    && GprsAt(mem, at, c.gpr)
    && c.lr == ValueAt(mem, at + 320, 4)
    && c.pc == ValueAt(mem, at + 324, 4)
    && c.cpsr == ValueAt(mem, at + 328, 4)
    && c.sp == at + 332
  }

  lemma FprAt(mem: seq<byte>, tcb: nat, i: nat)
    requires Placed(mem, tcb) && i < 32
    ensures ReadRegisters(mem, tcb).vfp[i]
      == ValueAt(mem, StackPtr(mem, tcb) + if i < 16 then 136 + 8 * i else 8 + 8 * (i - 16), 8)
  {
    ReadsSavedBytes(mem, tcb, Fpr(i));
    assert Get(ReadRegisters(mem, tcb), Fpr(i)) == ReadSingle(mem, tcb, Fpr(i));
  }

  lemma GprAt(mem: seq<byte>, tcb: nat, i: nat)
    requires Placed(mem, tcb) && i < 13
    ensures ReadRegisters(mem, tcb).gpr[i] == ValueAt(mem, StackPtr(mem, tcb) + 268 + 4 * i, 4)
  {
    ReadsSavedBytes(mem, tcb, Gpr(i));
    assert Get(ReadRegisters(mem, tcb), Gpr(i)) == ReadSingle(mem, tcb, Gpr(i));
  }

  lemma SpecialsAt(mem: seq<byte>, tcb: nat)
    requires Placed(mem, tcb)
    ensures var c, at := ReadRegisters(mem, tcb), StackPtr(mem, tcb);
      && c.lr == ValueAt(mem, at + 320, 4) && c.pc == ValueAt(mem, at + 324, 4)
      && c.cpsr == ValueAt(mem, at + 328, 4) && c.fpscr == ValueAt(mem, at + 4, 4) && c.sp == at + 332
  {
    var c := ReadRegisters(mem, tcb);
    ReadsSavedBytes(mem, tcb, Lr);
    ReadsSavedBytes(mem, tcb, Pc);
    ReadsSavedBytes(mem, tcb, Cpsr);
    ReadsSavedBytes(mem, tcb, Fpscr);
    assert Get(c, Lr) == ReadSingle(mem, tcb, Lr) && Get(c, Pc) == ReadSingle(mem, tcb, Pc);
    assert Get(c, Cpsr) == ReadSingle(mem, tcb, Cpsr) && Get(c, Fpscr) == ReadSingle(mem, tcb, Fpscr);
    assert Get(c, Sp) == ReadSingle(mem, tcb, Sp);
  }

  lemma DoublesFromEach(mem: seq<byte>, at: nat, vfp: seq<u64>)
    requires at + 332 <= |mem| && |vfp| == 32
    requires forall i :: 0 <= i < 32 ==> vfp[i] == ValueAt(mem, at + if i < 16 then 136 + 8 * i else 8 + 8 * (i - 16), 8)
    ensures DoublesAt(mem, at, vfp)
  {
  }

  lemma ReadsDoubles(mem: seq<byte>, tcb: nat)
    requires Placed(mem, tcb)
    ensures DoublesAt(mem, StackPtr(mem, tcb), ReadRegisters(mem, tcb).vfp)
  {
    var vfp, at := ReadRegisters(mem, tcb).vfp, StackPtr(mem, tcb);
    forall i | 0 <= i < 32
      ensures vfp[i] == ValueAt(mem, at + if i < 16 then 136 + 8 * i else 8 + 8 * (i - 16), 8)
    {
      FprAt(mem, tcb, i);
    }
    DoublesFromEach(mem, at, vfp);
  }

  lemma ReadsGprs(mem: seq<byte>, tcb: nat)
    requires Placed(mem, tcb)
    ensures GprsAt(mem, StackPtr(mem, tcb), ReadRegisters(mem, tcb).gpr)
  {
    forall i | 0 <= i < 13
      ensures ReadRegisters(mem, tcb).gpr[i] == ValueAt(mem, StackPtr(mem, tcb) + 268 + 4 * i, 4)
    {
      GprAt(mem, tcb, i);
    }
  }

  lemma StackPtrIs(mem: seq<byte>, tcb: nat)
    requires Placed(mem, tcb)
    ensures StackPtr(mem, tcb) == ValueAt(mem, tcb, 4)
  {
  }

  /** Reading all registers of a sleeping task reads its saved context. */
  lemma ReadsSavedContext(mem: seq<byte>, tcb: nat)
    requires Placed(mem, tcb)
    ensures ValueAt(mem, tcb, 4) + 332 < |mem| && SavedAt(mem, ValueAt(mem, tcb, 4), ReadRegisters(mem, tcb))
  {
    StackPtrIs(mem, tcb);
    SpecialsAt(mem, tcb);
    ReadsDoubles(mem, tcb);
    ReadsGprs(mem, tcb);
  }

  /** A register that was written reads back. */
  lemma WrittenReadsBack(mem: seq<byte>, tcb: nat, r: ArmRegisterID, v: nat)
    requires Placed(mem, tcb) && r.Exists() && v < Range(r.Size())
    requires r.Sp? ==> FrameClear(|mem|, tcb, v - FRAME_SIZE)
    ensures var m := WriteSingle(mem, tcb, r, v);
      Placed(m, tcb) && ReadSingle(m, tcb, r) == v && (!r.Sp? ==> StackPtr(m, tcb) == StackPtr(mem, tcb))
  {
    var m := WriteSingle(mem, tcb, r, v);
    WritingChangesOne(mem, tcb, r, v);
    GetOfSet(ReadRegisters(mem, tcb), r, v, r);
    assert Get(ReadRegisters(m, tcb), r) == ReadSingle(m, tcb, r);
    if !r.Sp? {
      WriteFieldFrame(mem, tcb, r, v);
    }
  }

  lemma ShownBytes(m: seq<byte>, tcb: nat, at: nat, r: ArmRegisterID, v: nat)
    requires Placed(m, tcb) && r.Exists() && ReadSingle(m, tcb, r) == v
    requires at + 332 < |m| && (!r.Sp? ==> StackPtr(m, tcb) == at)
    ensures match r
      case Fpscr => ValueAt(m, at + 4, 4) == v
      case Fpr(i) => ValueAt(m, at + if i < 16 then 136 + 8 * i else 8 + 8 * (i - 16), 8) == v
      case Gpr(i) => ValueAt(m, at + 268 + 4 * i, 4) == v
      case Lr => ValueAt(m, at + 320, 4) == v
      case Pc => ValueAt(m, at + 324, 4) == v
      case Cpsr => ValueAt(m, at + 328, 4) == v
      case Sp => ValueAt(m, tcb, 4) == v - 332
  {
    StackPtrIs(m, tcb);
    ReadsSavedBytes(m, tcb, r);
  }

  /** Writing a register leaves its value in the bytes from which the scheduler restores it. */
  lemma WritesSavedBytes(mem: seq<byte>, tcb: nat, r: ArmRegisterID, v: nat)
    requires Placed(mem, tcb) && r.Exists() && v < Range(r.Size())
    requires r.Sp? ==> FrameClear(|mem|, tcb, v - FRAME_SIZE)
    ensures var m, at := WriteSingle(mem, tcb, r, v), ValueAt(mem, tcb, 4);
      at + 332 < |m| == |mem| &&
      match r
      case Fpscr => ValueAt(m, at + 4, 4) == v
      case Fpr(i) => ValueAt(m, at + if i < 16 then 136 + 8 * i else 8 + 8 * (i - 16), 8) == v
      case Gpr(i) => ValueAt(m, at + 268 + 4 * i, 4) == v
      case Lr => ValueAt(m, at + 320, 4) == v
      case Pc => ValueAt(m, at + 324, 4) == v
      case Cpsr => ValueAt(m, at + 328, 4) == v
      case Sp => ValueAt(m, tcb, 4) == v - 332
  {
    var m := WriteSingle(mem, tcb, r, v);
    StackPtrIs(mem, tcb);
    WrittenReadsBack(mem, tcb, r, v);
    ShownBytes(m, tcb, ValueAt(mem, tcb, 4), r, v);
  }

  lemma WrittenFlag(m: seq<byte>, at: nat, nesting: u32, c: DebugEventContext)
    requires at + FRAME_SIZE <= |m| && c.Shape() && FrameAt(m, at) == EncodeFrame(nesting, c)
    ensures ValueAt(m, at, 4) == 1
  {
    FrameOffset(FLAG);
    EncodedFrameValue(nesting, c, FLAG);
    FieldAt(m, at, FLAG, 0, 4);
  }

  /** What a successful write of all registers leaves besides the context. */
  lemma WritesFlagAndNesting(mem: seq<byte>, tcb: nat, c: DebugEventContext)
    requires Placed(mem, tcb) && c.Shape() && FrameClear(|mem|, tcb, c.sp - FRAME_SIZE)
    requires WriteRegisters(mem, tcb, c).Done?
    ensures var m := WriteRegisters(mem, tcb, c).mem;
      && Placed(m, tcb) && StackPtr(m, tcb) == c.sp - 332
      && ValueAt(m, StackPtr(m, tcb), 4) == 1
      && Nesting(TaskFrame(m, tcb)) == Nesting(TaskFrame(mem, tcb))
  {
    WriteThenRead(mem, tcb, c);
    WrittenFrame(mem, tcb, c);
    WrittenFlag(WriteRegisters(mem, tcb, c).mem, c.sp - FRAME_SIZE, Nesting(TaskFrame(mem, tcb)), c);
  }

  /** A successful write of all registers leaves the whole context there, flagged, with the nesting it had. */
  lemma WritesSavedContext(mem: seq<byte>, tcb: nat, c: DebugEventContext)
    requires Placed(mem, tcb) && c.Shape() && FrameClear(|mem|, tcb, c.sp - FRAME_SIZE)
    requires WriteRegisters(mem, tcb, c).Done?
    ensures var m, was, at := WriteRegisters(mem, tcb, c).mem, ValueAt(mem, tcb, 4), c.sp - 332;
      && was + 332 < |mem| && 0 <= at && at + 332 < |m|
      && ValueAt(m, tcb, 4) == at && SavedAt(m, at, c)
      && ValueAt(m, at, 4) == 1
      && ValueAt(m, at + 264, 4) == ValueAt(mem, was + 264, 4)
  {
    var m := WriteRegisters(mem, tcb, c).mem;
    WriteThenRead(mem, tcb, c);
    WritesFlagAndNesting(mem, tcb, c);
    ReadsSavedContext(m, tcb);
    SavedFlagAndNesting(mem, tcb);
    SavedFlagAndNesting(m, tcb);
    StackPtrIs(m, tcb);
  }

  // ----- Which write succeeds -----

  /** Some task has this number and is not deleted. */
  ghost predicate Exists(tasks: seq<TaskStatus>, tid: nat) {
    exists k :: 0 <= k < |tasks| && tasks[k].number == tid && tasks[k].state != DeletedTask
  }

  /** The `k`-th task is the first of this number that is not deleted. */
  ghost predicate FirstOf(tasks: seq<TaskStatus>, tid: nat, k: nat) {
    && k < |tasks| && tasks[k].number == tid && tasks[k].state != DeletedTask
    && forall j :: 0 <= j < k ==> tasks[j].number != tid || tasks[j].state == DeletedTask
  }

  /** Without such a task every write is refused, the length of its value being looked at first. */
  lemma NobodyWritten(mem: seq<byte>, tasks: seq<TaskStatus>, tid: nat, r: ArmRegisterID, val: seq<byte>)
    requires r.Exists() && !Exists(tasks, tid)
    ensures LookupSavedTask(tasks, tid).NoSuchTid?
    ensures AfterWrite(mem, LookupSavedTask(tasks, tid), r, val)
      == (if |val| == 4 || |val| == 8 then NoSuchTask else Access.NonFatal, mem)
  {
    forall k | 0 <= k < |tasks|
      ensures !Live(tasks[k], tid)
    {
    }
  }

  /**
   * With such a task, a write succeeds if and only if the first of them is not the running one, its
   * frame has the flag set, and the value is eight bytes wide for a floating-point register and four
   * for any other. Any other write changes nothing: it is refused or, at a width of some register,
   * panics.
   */
  lemma WriteAnswers(mem: seq<byte>, tasks: seq<TaskStatus>, tid: nat, k: nat, r: ArmRegisterID, val: seq<byte>)
    requires r.Exists() && FirstOf(tasks, tid, k) && ValidWrite(mem, LookupSavedTask(tasks, tid), r, val)
    requires tasks[k].state != RunningTask ==> Placed(mem, tasks[k].tcb)
    ensures var (result, m) := AfterWrite(mem, LookupSavedTask(tasks, tid), r, val);
      var saved := tasks[k].state != RunningTask && ValueAt(mem, ValueAt(mem, tasks[k].tcb, 4), 4) != 0;
      && (result == Succeeded(()) <==> saved && |val| == (if r.Fpr? then 8 else 4))
      && (result == Panic <==> (|val| == 4 || |val| == 8) && !(saved && |val| == (if r.Fpr? then 8 else 4)))
      && (result == Access.NonFatal <==> |val| != 4 && |val| != 8)
      && (!result.Succeeded? ==> m == mem)
  {
    assert FirstLive(tasks, tid, k);
    if tasks[k].state != RunningTask {
      SavedFlagAndNesting(mem, tasks[k].tcb);
    }
  }
}
