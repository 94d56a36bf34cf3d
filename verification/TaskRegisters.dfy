/**
 * What reading and writing the registers of a switched-out task means, and the operations in
 * place on memory.
 */
module TaskRegisters {
  import opened Wrappers
  import opened Bytes
  import opened CodeMemory
  import opened Layout
  import opened Registers
  import opened RegisterViews
  import opened SavedTasks

  // ----- Moving the frame -----

  /** The control block then points at the new frame, whose contents come along if asked for. */
  lemma SetSpPlaces(mem: seq<byte>, tcb: nat, sp: u32, copy: bool)
    requires Placed(mem, tcb) && FrameClear(|mem|, tcb, sp - FRAME_SIZE)
    ensures var r := SetSp(mem, tcb, sp, copy);
      && Placed(r, tcb) && StackPtr(r, tcb) == sp - FRAME_SIZE
      && (copy ==> TaskFrame(r, tcb) == TaskFrame(mem, tcb))
  {
    var at, from := sp - FRAME_SIZE, StackPtr(mem, tcb);
    var moved := Splice(mem, tcb, LeBytes(4, at));
    StoredStackPtr(mem, tcb, at);
    SliceOfSplice(mem, tcb, LeBytes(4, at), from, from + FRAME_SIZE);
    if copy {
      SliceOfSplice(moved, at, FrameAt(moved, from), tcb, tcb + 4);
    }
  }

  lemma StoredStackPtr(mem: seq<byte>, tcb: nat, at: u32)
    requires tcb + 4 <= |mem|
    ensures StackPtr(Splice(mem, tcb, LeBytes(4, at)), tcb) == at
  {
    WordRanges();
    LeValueOfLeBytes(4, at);
    SliceOfSplice(mem, tcb, LeBytes(4, at), tcb, tcb + 4);
  }

  /** Only the control block's first word and, when copying, the new frame change. */
  lemma SetSpFrame(mem: seq<byte>, tcb: nat, sp: u32, copy: bool, i: nat)
    requires Placed(mem, tcb) && FrameClear(|mem|, tcb, sp - FRAME_SIZE) && i < |mem|
    requires !(tcb <= i < tcb + 4) && !(copy && sp - FRAME_SIZE <= i < sp)
    ensures SetSp(mem, tcb, sp, copy)[i] == mem[i]
  {
  }

  /** Reading depends on the frame's contents and the stack pointer only. */
  lemma SameFrameSameRegisters(mem: seq<byte>, mem': seq<byte>, tcb: nat, r: ArmRegisterID)
    requires Placed(mem, tcb) && Placed(mem', tcb) && r.Exists() && !r.Sp?
    requires TaskFrame(mem, tcb) == TaskFrame(mem', tcb)
    ensures ReadSingle(mem, tcb, r) == ReadSingle(mem', tcb, r)
  {
  }

  /**
   * Writing the stack pointer of a sleeping task moves its frame, possibly over part of itself:
   * the task then reads the value written, and every other register as before.
   */
  lemma MovingKeepsRegisters(mem: seq<byte>, tcb: nat, sp: u32)
    requires Placed(mem, tcb) && FrameClear(|mem|, tcb, sp - FRAME_SIZE)
    ensures var r := SetSp(mem, tcb, sp, true);
      && Placed(r, tcb) && LogicalSp(r, tcb) == sp
      && TaskFrame(r, tcb) == TaskFrame(mem, tcb)
      && ReadRegisters(r, tcb) == ReadRegisters(mem, tcb).(sp := sp)
  {
    SetSpPlaces(mem, tcb, sp, true);
    var r := SetSp(mem, tcb, sp, true);
    var c := ReadRegisters(mem, tcb).(sp := sp);
    forall q: ArmRegisterID | q.Exists()
      ensures Get(ReadRegisters(r, tcb), q) == Get(c, q)
    {
      if !q.Sp? {
        SameFrameSameRegisters(mem, r, tcb, q);
        assert Get(c, q) == Get(ReadRegisters(mem, tcb), q);
      }
    }
    SameRegisters(ReadRegisters(r, tcb), c);
  }

  // ----- Writing one register -----

  /** A store inside the frame leaves the task where it is. */
  lemma StoreInFrame(mem: seq<byte>, tcb: nat, offset: nat, bs: seq<byte>)
    requires Placed(mem, tcb) && offset + |bs| <= FRAME_SIZE
    ensures var m := Splice(mem, StackPtr(mem, tcb) + offset, bs);
      Placed(m, tcb) && StackPtr(m, tcb) == StackPtr(mem, tcb) && TaskFrame(m, tcb) == Splice(TaskFrame(mem, tcb), offset, bs)
  {
    var at := StackPtr(mem, tcb);
    SliceOfSplice(mem, at + offset, bs, tcb, tcb + 4);
    SpliceInSlice(mem, at, at + FRAME_SIZE, offset, bs);
  }

  lemma WriteFieldFrame(mem: seq<byte>, tcb: nat, r: ArmRegisterID, v: nat)
    requires Placed(mem, tcb) && r.Exists() && !r.Sp? && v < Range(r.Size())
    ensures var m := WriteField(mem, tcb, r, v);
      && Placed(m, tcb) && StackPtr(m, tcb) == StackPtr(mem, tcb)
      && Offset(FRAME, FrameField(r)) + r.Size() <= FRAME_SIZE
      && TaskFrame(m, tcb) == Splice(TaskFrame(mem, tcb), Offset(FRAME, FrameField(r)), LeBytes(r.Size(), v))
  {
    var offset, bs := Offset(FRAME, FrameField(r)), LeBytes(r.Size(), v);
    FieldInFrame(FrameField(r));
    assert WriteField(mem, tcb, r, v) == Splice(mem, StackPtr(mem, tcb) + offset, bs);
    StoreInFrame(mem, tcb, offset, bs);
  }

  lemma WriteFieldValue(mem: seq<byte>, tcb: nat, r: ArmRegisterID, v: nat, j: nat)
    requires Placed(mem, tcb) && r.Exists() && !r.Sp? && v < Range(r.Size()) && j < FRAME_FIELDS
    ensures Placed(WriteField(mem, tcb, r, v), tcb)
    ensures FrameValue(TaskFrame(WriteField(mem, tcb, r, v), tcb), j)
      == if j == FrameField(r) then v else FrameValue(TaskFrame(mem, tcb), j)
  {
    WriteFieldFrame(mem, tcb, r, v);
    FrameSize();
    FieldOfSplice(FRAME, TaskFrame(mem, tcb), FrameField(r), j, v);
  }

  /** Writing any one register changes that register and no other, nor the flag or the nesting. */
  lemma WritingChangesOne(mem: seq<byte>, tcb: nat, r: ArmRegisterID, v: nat)
    requires Placed(mem, tcb) && r.Exists() && v < Range(r.Size())
    requires r.Sp? ==> FrameClear(|mem|, tcb, v - FRAME_SIZE)
    ensures var m := WriteSingle(mem, tcb, r, v);
      && Placed(m, tcb)
      && ReadRegisters(m, tcb) == Set(ReadRegisters(mem, tcb), r, v)
      && HasFpu(TaskFrame(m, tcb)) == HasFpu(TaskFrame(mem, tcb))
      && Nesting(TaskFrame(m, tcb)) == Nesting(TaskFrame(mem, tcb))
  {
    WordRanges();
    if r.Sp? {
      MovingKeepsRegisters(mem, tcb, v);
    } else {
      var m, c := WriteField(mem, tcb, r, v), Set(ReadRegisters(mem, tcb), r, v);
      WriteFieldFrame(mem, tcb, r, v);
      WriteFieldValue(mem, tcb, r, v, FLAG);
      WriteFieldValue(mem, tcb, r, v, NESTING);
      forall q: ArmRegisterID | q.Exists()
        ensures Get(ReadRegisters(m, tcb), q) == Get(c, q)
      {
        WriteOneReadOther(mem, tcb, r, v, q);
      }
      SameRegisters(ReadRegisters(m, tcb), c);
    }
  }

  lemma WriteOneReadOther(mem: seq<byte>, tcb: nat, r: ArmRegisterID, v: nat, q: ArmRegisterID)
    requires Placed(mem, tcb) && r.Exists() && !r.Sp? && v < Range(r.Size()) && q.Exists()
    ensures Placed(WriteField(mem, tcb, r, v), tcb)
    ensures ReadSingle(WriteField(mem, tcb, r, v), tcb, q) == Get(Set(ReadRegisters(mem, tcb), r, v), q)
  {
    WriteFieldFrame(mem, tcb, r, v);
    GetOfSet(ReadRegisters(mem, tcb), r, v, q);
    if !q.Sp? {
      WriteFieldValue(mem, tcb, r, v, FrameField(q));
      if q != r {
        FrameFieldInjective(r, q);
      }
    }
  }

  lemma GetOfSet(c: DebugEventContext, r: ArmRegisterID, v: nat, q: ArmRegisterID)
    requires c.Shape() && r.Exists() && q.Exists() && v < Range(r.Size())
    ensures Get(Set(c, r, v), q) == if q == r then v else Get(c, q)
  {
  }

  /** Byte `i` belongs to the frame at `at`. */
  predicate InFrame(at: int, i: int) {
    at <= i < at + FRAME_SIZE
  }

  /**
   * A write to a register leaves memory alone outside the task's frame or, if it moves the frame,
   * outside the new frame and the saved stack pointer.
   */
  lemma WriteStaysInFrame(mem: seq<byte>, tcb: nat, r: ArmRegisterID, v: nat, i: nat)
    requires Placed(mem, tcb) && r.Exists() && v < Range(r.Size()) && i < |mem|
    requires r.Sp? ==> FrameClear(|mem|, tcb, v - FRAME_SIZE)
    requires if r.Sp? then !(tcb <= i < tcb + 4) && !InFrame(v - FRAME_SIZE, i) else !InFrame(StackPtr(mem, tcb), i)
    ensures WriteSingle(mem, tcb, r, v)[i] == mem[i]
  {
    WordRanges();
    if r.Sp? {
      SetSpFrame(mem, tcb, v, true, i);
    } else {
      FieldInFrame(FrameField(r));
    }
  }

  // ----- Writing all registers -----

  lemma EncodedFrameValue(nesting: u32, c: DebugEventContext, j: nat)
    requires c.Shape() && j < FRAME_FIELDS
    ensures FrameValue(EncodeFrame(nesting, c), j) == FrameValues(1, nesting, c)[j]
  {
    FrameValuesInRange(1, nesting, c);
    FieldOfEncode(FRAME, FrameValues(1, nesting, c), j);
  }

  /** It succeeds exactly when both the old and the new place of the frame carry the FPU flag. */
  lemma WriteRegistersSucceedsIff(mem: seq<byte>, tcb: nat, c: DebugEventContext)
    requires Placed(mem, tcb) && c.Shape() && FrameClear(|mem|, tcb, c.sp - FRAME_SIZE)
    ensures WriteRegisters(mem, tcb, c).Done? <==>
      HasFpu(TaskFrame(mem, tcb)) && HasFpu(FrameAt(mem, c.sp - FRAME_SIZE))
  {
    var at, moved := c.sp - FRAME_SIZE, SetSp(mem, tcb, c.sp, false);
    SliceOfSplice(mem, tcb, LeBytes(4, at), at, at + FRAME_SIZE);
  }

  /**
   * The new place is checked before it is filled: on a stack whose memory happens to hold a zero
   * there, the write panics with the task already pointing at a context nobody can read.
   */
  lemma FreshStackPanics(mem: seq<byte>, tcb: nat, c: DebugEventContext)
    requires Placed(mem, tcb) && c.Shape() && FrameClear(|mem|, tcb, c.sp - FRAME_SIZE)
    requires HasFpu(TaskFrame(mem, tcb)) && !HasFpu(FrameAt(mem, c.sp - FRAME_SIZE))
    ensures var w := WriteRegisters(mem, tcb, c);
      w.Panicked? && Placed(w.mem, tcb) && LogicalSp(w.mem, tcb) == c.sp && !HasFpu(TaskFrame(w.mem, tcb))
  {
    WriteRegistersSucceedsIff(mem, tcb, c);
    SetSpPlaces(mem, tcb, c.sp, false);
    var at, moved := c.sp - FRAME_SIZE, SetSp(mem, tcb, c.sp, false);
    SliceOfSplice(mem, tcb, LeBytes(4, at), at, at + FRAME_SIZE);
  }

  /** What was written is what is read, as a whole and register by register; the nesting stays. */
  lemma WriteThenRead(mem: seq<byte>, tcb: nat, c: DebugEventContext)
    requires Placed(mem, tcb) && c.Shape() && FrameClear(|mem|, tcb, c.sp - FRAME_SIZE)
    requires WriteRegisters(mem, tcb, c).Done?
    ensures var m := WriteRegisters(mem, tcb, c).mem;
      && Placed(m, tcb) && LogicalSp(m, tcb) == c.sp
      && ReadRegisters(m, tcb) == c
      && HasFpu(TaskFrame(m, tcb)) && Nesting(TaskFrame(m, tcb)) == Nesting(TaskFrame(mem, tcb))
  {
    var nesting := Nesting(TaskFrame(mem, tcb));
    var m := WriteRegisters(mem, tcb, c).mem;
    WrittenFrame(mem, tcb, c);
    EncodedFlags(nesting, c);
    forall q: ArmRegisterID | q.Exists() && !q.Sp?
      ensures ReadSingle(m, tcb, q) == Get(c, q)
    {
      EncodedFrameValue(nesting, c, FrameField(q));
      FrameValueIs(1, nesting, c, q);
    }
    SameRegisters(ReadRegisters(m, tcb), c);
  }

  lemma EncodedFlags(nesting: u32, c: DebugEventContext)
    requires c.Shape()
    ensures HasFpu(EncodeFrame(nesting, c)) && Nesting(EncodeFrame(nesting, c)) == nesting
  {
    EncodedFrameValue(nesting, c, FLAG);
    EncodedFrameValue(nesting, c, NESTING);
  }

  lemma WrittenFrame(mem: seq<byte>, tcb: nat, c: DebugEventContext)
    requires Placed(mem, tcb) && c.Shape() && FrameClear(|mem|, tcb, c.sp - FRAME_SIZE)
    requires WriteRegisters(mem, tcb, c).Done?
    ensures var m := WriteRegisters(mem, tcb, c).mem;
      && Placed(m, tcb) && StackPtr(m, tcb) == c.sp - FRAME_SIZE
      && TaskFrame(m, tcb) == EncodeFrame(Nesting(TaskFrame(mem, tcb)), c)
  {
    SetSpPlaces(mem, tcb, c.sp, false);
    var moved, m := SetSp(mem, tcb, c.sp, false), WriteRegisters(mem, tcb, c).mem;
    assert m[tcb..tcb + 4] == moved[tcb..tcb + 4];
  }

  /** Whether or not it succeeds, it leaves memory alone outside the saved stack pointer and the new frame. */
  lemma WriteRegistersStaysInFrame(mem: seq<byte>, tcb: nat, c: DebugEventContext, i: nat)
    requires Placed(mem, tcb) && c.Shape() && FrameClear(|mem|, tcb, c.sp - FRAME_SIZE) && i < |mem|
    requires !(tcb <= i < tcb + 4) && !InFrame(c.sp - FRAME_SIZE, i)
    ensures WriteRegisters(mem, tcb, c).mem[i] == mem[i]
  {
    SetSpFrame(mem, tcb, c.sp, false, i);
  }

  /** The whole-context packet of a sleeping task and its single registers show the same bytes. */
  lemma TaskViewsAgree(mem: seq<byte>, tcb: nat, r: ArmRegisterID)
    requires Placed(mem, tcb) && r.Exists()
    ensures var at := Offset(WIDTHS, FieldOf(r));
      at + r.Size() <= PACKET_SIZE
      && LeBytes(r.Size(), ReadSingle(mem, tcb, r)) == Serialize(ReadRegisters(mem, tcb))[at..at + r.Size()]
  {
    ReadIsSlice(ReadRegisters(mem, tcb), r);
  }

  // ----- Reading all registers -----

  function FrameWord(f: seq<byte>, i: nat): u32
    requires |f| == FRAME_SIZE && i < FRAME_FIELDS && FRAME[i] == 4
  {
    WordRanges();
    FieldInFrame(i);
    LeValueRange(f[Offset(FRAME, i)..Offset(FRAME, i) + FRAME[i]]);
    FrameValue(f, i)
  }

  function FrameDouble(f: seq<byte>, i: nat): u64
    requires |f| == FRAME_SIZE && i < FRAME_FIELDS && FRAME[i] == 8
  {
    WordRanges();
    FieldInFrame(i);
    LeValueRange(f[Offset(FRAME, i)..Offset(FRAME, i) + FRAME[i]]);
    FrameValue(f, i)
  }

  /** The context in a frame, where d16 to d31 come before d0 to d15. */
  function ContextOf(f: seq<byte>, sp: u32): DebugEventContext
    requires |f| == FRAME_SIZE
  {
    var d16to31 := seq(16, i requires 0 <= i < 16 => FrameDouble(f, 2 + i));
    var d0to15 := seq(16, i requires 0 <= i < 16 => FrameDouble(f, 18 + i));
    DebugEventContext(FrameWord(f, 50), sp, FrameWord(f, 48), FrameWord(f, 1), d0to15 + d16to31,
                      seq(13, i requires 0 <= i < 13 => FrameWord(f, 35 + i)), FrameWord(f, 49))
  }

  /** Reading the whole frame agrees with reading every register by itself. */
  lemma ContextOfTask(mem: seq<byte>, tcb: nat)
    requires Placed(mem, tcb)
    ensures ContextOf(TaskFrame(mem, tcb), LogicalSp(mem, tcb)) == ReadRegisters(mem, tcb)
  {
    var c := ContextOf(TaskFrame(mem, tcb), LogicalSp(mem, tcb));
    forall r: ArmRegisterID | r.Exists()
      ensures Get(c, r) == Get(ReadRegisters(mem, tcb), r)
    {
      assert Get(c, r) == ReadSingle(mem, tcb, r);
    }
    SameRegisters(c, ReadRegisters(mem, tcb));
  }

  // ----- Finding the task -----

  datatype TaskState = RunningTask | ReadyTask | BlockedTask | SuspendedTask | DeletedTask

  /** What the scheduler reports of a task. */
  datatype TaskStatus = TaskStatus(tcb: nat, number: nat, state: TaskState)

  predicate Live(task: TaskStatus, tid: nat) {
    task.number == tid && !task.state.DeletedTask?
  }

  /** The first entry with this id that is not deleted. */
  ghost predicate FirstLive(tasks: seq<TaskStatus>, tid: nat, k: nat) {
    k < |tasks| && Live(tasks[k], tid) && forall j :: 0 <= j < k ==> !Live(tasks[j], tid)
  }

  /** The task to work on; none exists under this id; or the id is the running task's, a panic. */
  datatype Lookup = Found(tcb: nat) | NoSuchTid | IsRunning

  function LookupSavedTask(tasks: seq<TaskStatus>, tid: nat): (l: Lookup)
    ensures l.NoSuchTid? <==> forall k :: 0 <= k < |tasks| ==> !Live(tasks[k], tid)
    ensures forall k: nat :: FirstLive(tasks, tid, k) ==>
      l == if tasks[k].state.RunningTask? then IsRunning else Found(tasks[k].tcb)
  {
    if tasks == [] then NoSuchTid
    else if Live(tasks[0], tid) then
      if tasks[0].state.RunningTask? then IsRunning else Found(tasks[0].tcb)
    else
      assert forall k: nat :: FirstLive(tasks, tid, k) ==> k > 0 && FirstLive(tasks[1..], tid, k - 1);
      var l := LookupSavedTask(tasks[1..], tid);
      assert forall k :: 0 < k < |tasks| ==> tasks[k] == tasks[1..][k - 1];
      l
  }

  // ----- In place -----

  /** A register's value, of one of two widths. */
  datatype SavedRegister = U32(word: u32) | U64(double: u64)

  datatype Access<T> = Succeeded(value: T) | NonFatal | NoSuchTask | Panic

  /** Four bytes make a word, eight a double word, anything else no register. */
  function FromLeBytes(val: seq<byte>): Option<SavedRegister> {
    LeValueRange(val);
    WordRanges();
    if |val| == 8 then Some(U64(LeValue(val)))
    else if |val| == 4 then Some(U32(LeValue(val)))
    else None
  }

  /** The stack pointers involved are valid. */
  predicate ValidWrite(mem: seq<byte>, task: Lookup, r: ArmRegisterID, val: seq<byte>) {
    task.Found? ==>
      Placed(mem, task.tcb) && (r.Sp? && |val| == 4 ==> FrameClear(|mem|, task.tcb, LeValue(val) - FRAME_SIZE))
  }

  /** What a write of some bytes to a register of another task comes to. */
  function AfterWrite(mem: seq<byte>, task: Lookup, r: ArmRegisterID, val: seq<byte>): (Access<()>, seq<byte>)
    requires r.Exists() && ValidWrite(mem, task, r, val)
  {
    if |val| != 4 && |val| != 8 then (Access.NonFatal, mem)
    else if task.NoSuchTid? then (NoSuchTask, mem)
    else if task.IsRunning? then (Panic, mem)
    else if !HasFpu(TaskFrame(mem, task.tcb)) || |val| != r.Size() then (Panic, mem)
    else
      LeValueRange(val);
      (Succeeded(()), WriteSingle(mem, task.tcb, r, LeValue(val)))
  }

  /**
   * A successful write shows in the task's packet as a splice of the bytes written. Bytes of the
   * other register width make it panic, where the same write to the current task is refused.
   */
  lemma WriteShowsInPacket(mem: seq<byte>, tcb: nat, r: ArmRegisterID, val: seq<byte>)
    requires r.Exists() && ValidWrite(mem, Found(tcb), r, val) && HasFpu(TaskFrame(mem, tcb))
    ensures var (result, m) := AfterWrite(mem, Found(tcb), r, val);
      && (result == Succeeded(()) <==> |val| == r.Size())
      && (result == Panic <==> |val| != r.Size() && (|val| == 4 || |val| == 8))
      && (result.Succeeded? ==> Placed(m, tcb) && Offset(WIDTHS, FieldOf(r)) + |val| <= PACKET_SIZE)
      && (result.Succeeded? ==>
            Serialize(ReadRegisters(m, tcb)) == Splice(Serialize(ReadRegisters(mem, tcb)), Offset(WIDTHS, FieldOf(r)), val))
  {
    if |val| == r.Size() {
      LeValueRange(val);
      WritingChangesOne(mem, tcb, r, LeValue(val));
      WriteIsSplice(ReadRegisters(mem, tcb), r, val);
    }
  }

  class TaskMemory {
    const bytes: array<byte>

    constructor (contents: array<byte>)
      requires contents.Length == MEMORY_SIZE
      ensures bytes == contents
    {
      bytes := contents;
    }

    method StoreBytes(at: nat, bs: seq<byte>)
      requires at + |bs| <= bytes.Length
      modifies bytes
      ensures bytes[..] == Splice(old(bytes[..]), at, bs)
    {
      for k := 0 to |bs|
        invariant forall j :: 0 <= j < bytes.Length ==>
          bytes[j] == if at <= j < at + k then bs[j - at] else old(bytes[j])
      {
        bytes[at + k] := bs[k];
      }
    }

    method Sp(tcb: nat) returns (sp: u32)
      requires Placed(bytes[..], tcb)
      ensures sp == LogicalSp(bytes[..], tcb)
    {
      sp := WordAt(bytes[..], tcb) + FRAME_SIZE;
    }

    /** Where the saved context lies, unless it has no floating-point part. */
    method SavedContext(tcb: nat) returns (ctx: Option<u32>)
      requires Placed(bytes[..], tcb)
      ensures ctx == if HasFpu(TaskFrame(bytes[..], tcb)) then Some(StackPtr(bytes[..], tcb)) else None
    {
      var at := WordAt(bytes[..], tcb);
      FrameOffset(FLAG);
      assert FrameAt(bytes[..], at)[0..4] == bytes[..][at..at + 4];
      ctx := if WordAt(bytes[..], at) != 0 then Some(at) else None;
    }

    method SavedSp(tcb: nat) returns (at: u32)
      requires tcb + 4 <= bytes.Length
      ensures at == StackPtr(bytes[..], tcb)
    {
      at := WordAt(bytes[..], tcb);
    }

    method SetSavedSp(tcb: nat, sp: u32, copy: bool)
      requires Placed(bytes[..], tcb) && FrameClear(bytes.Length, tcb, sp - FRAME_SIZE)
      modifies bytes
      ensures bytes[..] == SetSp(old(bytes[..]), tcb, sp, copy)
    {
      var at := sp - FRAME_SIZE;
      var oldCtx := SavedSp(tcb);
      StoreBytes(tcb, LeBytes(4, at));
      if copy {
        CopyFrame(oldCtx, at);
      }
    }

    /** Copies a whole frame, which may overlap its new place. */
    method CopyFrame(from: nat, at: nat)
      requires from + FRAME_SIZE <= bytes.Length && at + FRAME_SIZE <= bytes.Length
      modifies bytes
      ensures bytes[..] == Splice(old(bytes[..]), at, FrameAt(old(bytes[..]), from))
    {
      var frame := bytes[from..from + FRAME_SIZE];
      assert frame == FrameAt(bytes[..], from);
      StoreBytes(at, frame);
    }

    method ReadRegister(tasks: seq<TaskStatus>, tid: nat, r: ArmRegisterID) returns (result: Access<seq<byte>>)
      requires r.Exists()
      requires var l := LookupSavedTask(tasks, tid); l.Found? ==> Placed(bytes[..], l.tcb)
      ensures match LookupSavedTask(tasks, tid)
        case NoSuchTid => result == NoSuchTask
        case IsRunning => result == Panic
        case Found(tcb) => result == if HasFpu(TaskFrame(bytes[..], tcb))
          then Succeeded(LeBytes(r.Size(), ReadSingle(bytes[..], tcb, r))) else Panic
    {
      var task := LookupSavedTask(tasks, tid);
      if task.NoSuchTid? {
        return NoSuchTask;
      }
      if task.IsRunning? {
        return Panic;
      }
      var ctx := SavedContext(task.tcb);
      if ctx.None? {
        return Panic;
      }
      result := Succeeded(LeBytes(r.Size(), ReadSingle(bytes[..], task.tcb, r)));
    }

    method StoreField(tcb: nat, r: ArmRegisterID, v: nat)
      requires Placed(bytes[..], tcb) && r.Exists() && !r.Sp? && v < Range(r.Size())
      modifies bytes
      ensures bytes[..] == WriteField(old(bytes[..]), tcb, r, v)
    {
      FieldInFrame(FrameField(r));
      var at, offset, bs := WordAt(bytes[..], tcb), Offset(FRAME, FrameField(r)), LeBytes(r.Size(), v);
      assert WriteField(bytes[..], tcb, r, v) == Splice(bytes[..], at + offset, bs);
      StoreBytes(at + offset, bs);
    }

    /** Stores a value of the register's own width. */
    method WriteValue(tcb: nat, r: ArmRegisterID, v: nat)
      requires Placed(bytes[..], tcb) && r.Exists() && v < Range(r.Size())
      requires r.Sp? ==> FrameClear(bytes.Length, tcb, v - FRAME_SIZE)
      modifies bytes
      ensures bytes[..] == WriteSingle(old(bytes[..]), tcb, r, v)
    {
      WordRanges();
      if r.Sp? {
        SetSavedSp(tcb, v, true);
      } else {
        StoreField(tcb, r, v);
      }
    }

    /** The client's write to a register of a task other than the running one. */
    method WriteRegister(tasks: seq<TaskStatus>, tid: nat, r: ArmRegisterID, val: seq<byte>) returns (result: Access<()>)
      requires r.Exists() && ValidWrite(bytes[..], LookupSavedTask(tasks, tid), r, val)
      modifies bytes
      ensures (result, bytes[..]) == AfterWrite(old(bytes[..]), LookupSavedTask(tasks, tid), r, val)
    {
      var value := FromLeBytes(val);
      if value.None? {
        return Access.NonFatal;
      }
      var task := LookupSavedTask(tasks, tid);
      if task.NoSuchTid? {
        return NoSuchTask;
      }
      if task.IsRunning? {
        return Panic;
      }
      var ctx := SavedContext(task.tcb);
      if ctx.None? || value.value.U64? != r.Fpr? {
        return Panic;
      }
      LeValueRange(val);
      WriteValue(task.tcb, r, if value.value.U64? then value.value.double else value.value.word);
      result := Succeeded(());
    }

    method WriteAllRegisters(tasks: seq<TaskStatus>, tid: nat, c: DebugEventContext) returns (result: Access<()>)
      requires c.Shape()
      requires var l := LookupSavedTask(tasks, tid);
        l.Found? ==> Placed(bytes[..], l.tcb) && FrameClear(bytes.Length, l.tcb, c.sp - FRAME_SIZE)
      modifies bytes
      ensures match LookupSavedTask(tasks, tid)
        case NoSuchTid => result == NoSuchTask && bytes[..] == old(bytes[..])
        case IsRunning => result == Panic && bytes[..] == old(bytes[..])
        case Found(tcb) =>
          var w := SavedTasks.WriteRegisters(old(bytes[..]), tcb, c);
          bytes[..] == w.mem && result == if w.Done? then Succeeded(()) else Panic
    {
      var task := LookupSavedTask(tasks, tid);
      if task.NoSuchTid? {
        return NoSuchTask;
      }
      if task.IsRunning? {
        return Panic;
      }
      var done := WriteContext(task.tcb, c);
      result := if done then Succeeded(()) else Panic;
    }

    /** Moves the frame of a sleeping task and fills it, unless it panics before or after moving. */
    method WriteContext(tcb: nat, c: DebugEventContext) returns (done: bool)
      requires c.Shape() && Placed(bytes[..], tcb) && FrameClear(bytes.Length, tcb, c.sp - FRAME_SIZE)
      modifies bytes
      ensures var w := SavedTasks.WriteRegisters(old(bytes[..]), tcb, c); bytes[..] == w.mem && done == w.Done?
    {
      var ctx := SavedContext(tcb);
      if ctx.None? {
        return false;
      }
      var criticalNesting := Nesting(bytes[ctx.value..ctx.value + FRAME_SIZE]);
      done := FillMoved(tcb, c, criticalNesting);
    }

    /** The second half: the frame has somewhere to go, and is filled there if the place carries the flag. */
    method FillMoved(tcb: nat, c: DebugEventContext, criticalNesting: u32) returns (done: bool)
      requires c.Shape() && Placed(bytes[..], tcb) && FrameClear(bytes.Length, tcb, c.sp - FRAME_SIZE)
      modifies bytes
      ensures var moved := SetSp(old(bytes[..]), tcb, c.sp, false);
        && done == HasFpu(FrameAt(moved, c.sp - FRAME_SIZE))
        && bytes[..] == if done then Splice(moved, c.sp - FRAME_SIZE, EncodeFrame(criticalNesting, c)) else moved
    {
      SetSpPlaces(bytes[..], tcb, c.sp, false);
      SetSavedSp(tcb, c.sp, false);
      var ctx := SavedContext(tcb);
      if ctx.None? {
        return false;
      }
      StoreBytes(ctx.value, EncodeFrame(criticalNesting, c));
      done := true;
    }

    /** All registers of a task at once; the two halves of the floating-point bank swap places. */
    method ReadAllRegisters(tasks: seq<TaskStatus>, tid: nat) returns (result: Access<DebugEventContext>)
      requires var l := LookupSavedTask(tasks, tid); l.Found? ==> Placed(bytes[..], l.tcb)
      ensures match LookupSavedTask(tasks, tid)
        case NoSuchTid => result == NoSuchTask
        case IsRunning => result == Panic
        case Found(tcb) => result == if HasFpu(TaskFrame(bytes[..], tcb))
          then Succeeded(ReadRegisters(bytes[..], tcb)) else Panic
    {
      var task := LookupSavedTask(tasks, tid);
      if task.NoSuchTid? {
        return NoSuchTask;
      }
      if task.IsRunning? {
        return Panic;
      }
      var tcb := task.tcb;
      var ctx := SavedContext(tcb);
      if ctx.None? {
        return Panic;
      }
      result := Succeeded(ContextOf(bytes[ctx.value..ctx.value + FRAME_SIZE], ctx.value + FRAME_SIZE));
      ContextOfTask(bytes[..], tcb);
    }
  }
}
