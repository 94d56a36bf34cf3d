/**
 * Patching a function so that calling it branches to another one: the code that is planted, and
 * what a processor makes of it.
 */
module Trampoline {
  import opened Wrappers
  import opened Bytes
  import opened CodeMemory

  /** `ldr r12, [pc]` and `bx r12`. */
  const ARM_LOAD := Arm(0xE59F_C000)
  const ARM_BRANCH := Arm(0xE12F_FF1C)
  /** `mov r12, pc`, `ldr.w r12, [r12, #4]` and `bx r12`. */
  const THUMB_MOVE := Thumb16(0x46FC)
  const THUMB_LOAD := Thumb32(0xF8DC, 0xC004)
  const THUMB_BRANCH := Thumb16(0x4760)

  /** Both trampolines are eight bytes of code, followed by the slot for the destination. */
  const CODE_SIZE := 8
  const PATCH_SIZE := 12

  function Code(thumb: bool): (bs: seq<byte>)
    ensures |bs| == CODE_SIZE
  {
    if thumb then THUMB_MOVE.Encode() + THUMB_LOAD.Encode() + THUMB_BRANCH.Encode()
    else ARM_LOAD.Encode() + ARM_BRANCH.Encode()
  }

  /** A function pointer carries the instruction set in its lowest bit. */
  predicate IsThumb(pointer: u32) {
    pointer % 2 == 1
  }

  function CodeAddr(pointer: u32): u32 {
    pointer - pointer % 2
  }

  /** The target is aligned for its instruction set and long enough. */
  predicate Patchable(target: u32) {
    (!IsThumb(target) ==> target % 4 == 0) && CodeAddr(target) + PATCH_SIZE <= MEMORY_SIZE
  }

  function PatchedData(data: seq<byte>, target: u32, destination: u32): (r: seq<byte>)
    requires |data| == MEMORY_SIZE && Patchable(target)
    ensures |r| == |data|
  {
    var at := CodeAddr(target);
    Splice(Splice(data, at, Code(IsThumb(target))), at + CODE_SIZE, LeBytes(4, destination))
  }

  /** The lines of the first byte of the code and of the slot are synced, and no others. */
  function PatchedFetch(data: seq<byte>, fetch: seq<byte>, target: u32): (r: seq<byte>)
    requires |data| == |fetch| == MEMORY_SIZE && Patchable(target)
    ensures |r| == |data|
  {
    var at := CodeAddr(target);
    SyncLine(SyncLine(fetch, data, at), data, at + CODE_SIZE)
  }

  method RedirectFunction(mem: CodeMemory, target: u32, destination: u32)
    requires mem.Valid() && Patchable(target)
    modifies mem.data, mem.fetch
    ensures mem.data[..] == PatchedData(old(mem.data[..]), target, destination)
    ensures mem.fetch[..] == PatchedFetch(mem.data[..], old(mem.fetch[..]), target)
  {
    var writeAddr := CodeAddr(target);
    var destinationSlot := writeAddr + CODE_SIZE;
    mem.WriteBytes(writeAddr, Code(IsThumb(target)));
    mem.WriteBytes(destinationSlot, LeBytes(4, destination));
    mem.SyncInstruction(writeAddr);
    mem.SyncInstruction(destinationSlot);
  }

  // ----- Executing -----

  /** The registers r0 to r14, the program counter and the instruction set. */
  datatype Cpu = Cpu(pc: u32, thumb: bool, regs: seq<u32>) {
    predicate Ok() {
      |regs| == 15
    }
  }

  /** The few operations that matter here, by register number and offset. */
  datatype Operation =
    | LoadRelative(rt: nat, offset: nat)
    | Load(rt: nat, rn: nat, offset: nat)
    | Move(rd: nat, rm: nat)
    | Branch(rm: nat)

  /**
   * The architecture's encodings of `ldr rt, [pc, #offset]` and `bx rm` in the ARM set, and of
   * `mov rd, rm`, `bx rm` and `ldr.w rt, [rn, #offset]` in the Thumb set.
   */
  function Decode(i: Instruction): Option<Operation> {
    match i
    case Arm(w) =>
      if w / 0x1_0000 == 0xE59F then Some(LoadRelative(w / 0x1000 % 0x10, w % 0x1000))
      else if w / 0x10 == 0xE12_FFF1 then Some(Branch(w % 0x10))
      else None
    case Thumb16(h) =>
      if h / 0x100 == 0x46 then Some(Move(8 * (h / 0x80 % 2) + h % 8, h / 8 % 0x10))
      else if h / 0x80 == 0x8E && h % 8 == 0 then Some(Branch(h / 8 % 0x10))
      else None
    case Thumb32(h1, h2) =>
      if h1 / 0x10 == 0xF8D then Some(Load(h2 / 0x1000, h1 % 0x10, h2 % 0x1000)) else None
  }

  /** A register as an operand; the program counter reads two instructions ahead. */
  function Operand(c: Cpu, r: nat): Option<int>
    requires c.Ok()
  {
    if r < 15 then Some(c.regs[r]) else if r == 15 then Some(c.pc + if c.thumb then 4 else 8) else None
  }

  function WithRegister(c: Cpu, r: nat, v: Option<int>, size: nat): Option<Cpu>
    requires c.Ok()
  {
    if r < 15 && v.Some? && 0 <= v.value < MEMORY_SIZE && c.pc + size < MEMORY_SIZE
    then Some(c.(pc := c.pc + size, regs := c.regs[r := v.value]))
    else None
  }

  /** A branch to a pointer selects the instruction set; an ARM destination must be aligned. */
  function BranchExchange(c: Cpu, pointer: Option<int>): Option<Cpu> {
    if pointer.None? || !(0 <= pointer.value < MEMORY_SIZE) then None
    else if pointer.value % 2 == 1 then Some(c.(pc := pointer.value - 1, thumb := true))
    else if pointer.value % 4 == 0 then Some(c.(pc := pointer.value, thumb := false))
    else None
  }

  function LoadWord(data: seq<byte>, base: Option<int>, offset: nat): Option<int> {
    if base.Some? && 0 <= base.value && base.value + offset + 4 <= |data| then Some(WordAt(data, base.value + offset))
    else None
  }

  /** One instruction; what is not decoded is not executed here. */
  function Step(data: seq<byte>, fetch: seq<byte>, c: Cpu): (next: Option<Cpu>)
    requires |data| == |fetch| == MEMORY_SIZE && c.Ok()
    ensures next.Some? ==> next.value.Ok()
  {
    if !InstrAddr(fetch, c.pc, c.thumb) then None
    else
      var i := ReadInstr(fetch, c.pc, c.thumb);
      match Decode(i)
      case None => None
      case Some(LoadRelative(rt, offset)) => WithRegister(c, rt, LoadWord(data, Operand(c, 15), offset), i.Size())
      case Some(Load(rt, rn, offset)) => WithRegister(c, rt, LoadWord(data, Operand(c, rn), offset), i.Size())
      case Some(Move(rd, rm)) => WithRegister(c, rd, Operand(c, rm), i.Size())
      case Some(Branch(rm)) => BranchExchange(c, Operand(c, rm))
  }

  function Steps(data: seq<byte>, fetch: seq<byte>, c: Cpu, n: nat): (last: Option<Cpu>)
    requires |data| == |fetch| == MEMORY_SIZE && c.Ok()
    ensures last.Some? ==> last.value.Ok()
    decreases n
  {
    if n == 0 then Some(c)
    else
      var next := Step(data, fetch, c);
      if next.None? then None else Steps(data, fetch, next.value, n - 1)
  }

  // ----- What was planted -----

  lemma SlotHoldsDestination(data: seq<byte>, target: u32, destination: u32)
    requires |data| == MEMORY_SIZE && Patchable(target)
    ensures WordAt(PatchedData(data, target, destination), CodeAddr(target) + CODE_SIZE) == destination
  {
    var at := CodeAddr(target);
    WordRanges();
    LeValueOfLeBytes(4, destination);
    SliceOfSplice(Splice(data, at, Code(IsThumb(target))), at + CODE_SIZE, LeBytes(4, destination), 0, 0);
  }

  /** Two lines cover the code, wherever it starts. */
  lemma CodeIsSynced(data: seq<byte>, fetch: seq<byte>, target: u32, i: nat)
    requires |data| == |fetch| == MEMORY_SIZE && Patchable(target)
    requires CodeAddr(target) <= i < CodeAddr(target) + CODE_SIZE
    ensures PatchedFetch(data, fetch, target)[i] == data[i]
  {
    TwoLinesCover(CodeAddr(target), i);
  }

  lemma TwoLinesCover(at: nat, i: nat)
    requires at <= i < at + CODE_SIZE
    ensures InLine(i, at) || InLine(i, at + CODE_SIZE)
  {
    var line, offset := at / LINE, at % LINE;
    assert at == LINE * line + offset;
    if i < LINE * (line + 1) {
      assert i / LINE == line;
    } else {
      assert i / LINE == line + 1 && (at + CODE_SIZE) / LINE == line + 1;
    }
  }

  /** Instruction fetches in the patched function see the trampoline. */
  lemma FetchedCode(data: seq<byte>, fetch: seq<byte>, target: u32, destination: u32)
    requires |data| == |fetch| == MEMORY_SIZE && Patchable(target)
    ensures var d := PatchedData(data, target, destination);
      PatchedFetch(d, fetch, target)[CodeAddr(target)..CodeAddr(target) + CODE_SIZE] == Code(IsThumb(target))
  {
    var at, code := CodeAddr(target), Code(IsThumb(target));
    var d := PatchedData(data, target, destination);
    var f := PatchedFetch(d, fetch, target);
    forall k | 0 <= k < CODE_SIZE
      ensures f[at + k] == code[k]
    {
      CodeIsSynced(d, fetch, target, at + k);
    }
    assert f[at..at + CODE_SIZE] == code;
  }

  /** The planted code instruction by instruction. */
  lemma CodeParts()
    ensures Code(false)[0..4] == ARM_LOAD.Encode() && Code(false)[4..8] == ARM_BRANCH.Encode()
    ensures Code(true)[0..2] == THUMB_MOVE.Encode() && Code(true)[2..6] == THUMB_LOAD.Encode()
    ensures Code(true)[6..8] == THUMB_BRANCH.Encode()
  {
    Parts(ARM_LOAD.Encode(), ARM_BRANCH.Encode(), []);
    Parts(THUMB_MOVE.Encode(), THUMB_LOAD.Encode(), THUMB_BRANCH.Encode());
    assert ARM_LOAD.Encode() + ARM_BRANCH.Encode() + [] == Code(false);
  }

  lemma Parts(a: seq<byte>, b: seq<byte>, c: seq<byte>)
    ensures (a + b + c)[0..|a|] == a
    ensures (a + b + c)[|a|..|a| + |b|] == b
    ensures (a + b + c)[|a| + |b|..|a| + |b| + |c|] == c
  {
  }

  lemma SliceOfSlice(bs: seq<byte>, at: nat, size: nat, offset: nat, n: nat)
    requires at + size <= |bs| && offset + n <= size
    ensures bs[at..at + size][offset..offset + n] == bs[at + offset..at + offset + n]
  {
    var outer, inner := bs[at..at + size], bs[at + offset..at + offset + n];
    assert forall k :: 0 <= k < n ==> outer[offset..offset + n][k] == outer[offset + k] == inner[k];
  }

  /** The instruction at its place in the code is the one that is fetched there. */
  lemma FetchedInstr(fetch: seq<byte>, at: nat, code: seq<byte>, offset: nat, i: Instruction)
    requires at + |code| <= |fetch| && fetch[at..at + |code|] == code
    requires i.WellFormed() && offset + i.Size() <= |code| && code[offset..offset + i.Size()] == i.Encode()
    requires (at + offset) % (if i.Arm? then 4 else 2) == 0
    ensures InstrAddr(fetch, at + offset, i.IsThumb()) && ReadInstr(fetch, at + offset, i.IsThumb()) == i
  {
    var from, to := at + offset, at + offset + i.Size();
    SliceOfSlice(fetch, at, |code|, offset, i.Size());
    assert fetch[from..to] == i.Encode();
    ReadOfEncode(fetch, from, i);
  }

  /** The processor is about to execute `i`. */
  predicate Executes(fetch: seq<byte>, c: Cpu, i: Instruction) {
    InstrAddr(fetch, c.pc, c.thumb) && c.pc + 4 < MEMORY_SIZE && ReadInstr(fetch, c.pc, c.thumb) == i
  }

  /** One instruction of the planted code, given where it lies. */
  lemma Planted(fetch: seq<byte>, c: Cpu, code: seq<byte>, offset: nat, i: Instruction)
    requires |fetch| == MEMORY_SIZE && |code| == CODE_SIZE && c.pc + CODE_SIZE <= |fetch|
    requires fetch[c.pc..c.pc + CODE_SIZE] == code && i.IsThumb() == c.thumb
    requires i.WellFormed() && offset + i.Size() <= CODE_SIZE && code[offset..offset + i.Size()] == i.Encode()
    requires (c.pc + offset) % (if i.Arm? then 4 else 2) == 0 && c.pc + offset + 4 < MEMORY_SIZE
    ensures Executes(fetch, c.(pc := c.pc + offset), i)
  {
    FetchedInstr(fetch, c.pc, code, offset, i);
  }

  lemma ArmPlanted(fetch: seq<byte>, c: Cpu, code: seq<byte>, load: Instruction, branch: Instruction)
    requires |fetch| == MEMORY_SIZE && |code| == CODE_SIZE && c.pc + PATCH_SIZE <= MEMORY_SIZE && !c.thumb && c.pc % 4 == 0
    requires fetch[c.pc..c.pc + CODE_SIZE] == code && load.Arm? && branch.Arm?
    requires code[0..4] == load.Encode() && code[4..8] == branch.Encode()
    ensures Executes(fetch, c, load) && Executes(fetch, c.(pc := c.pc + 4), branch)
  {
    Planted(fetch, c, code, 0, load);
    Planted(fetch, c, code, 4, branch);
    assert c.(pc := c.pc + 0) == c;
  }

  lemma ThumbPlanted(fetch: seq<byte>, c: Cpu, code: seq<byte>, move: Instruction, load: Instruction, branch: Instruction)
    requires |fetch| == MEMORY_SIZE && |code| == CODE_SIZE && c.pc + PATCH_SIZE <= MEMORY_SIZE && c.thumb && c.pc % 2 == 0
    requires fetch[c.pc..c.pc + CODE_SIZE] == code && move.Thumb16? && load.Thumb32? && branch.Thumb16?
    requires move.WellFormed() && load.WellFormed() && branch.WellFormed()
    requires code[0..2] == move.Encode() && code[2..6] == load.Encode() && code[6..8] == branch.Encode()
    ensures Executes(fetch, c, move) && Executes(fetch, c.(pc := c.pc + 2), load)
    ensures Executes(fetch, c.(pc := c.pc + 6), branch)
  {
    Planted(fetch, c, code, 0, move);
    Planted(fetch, c, code, 2, load);
    Planted(fetch, c, code, 6, branch);
    assert c.(pc := c.pc + 0) == c;
  }

  lemma StepsFirst(data: seq<byte>, fetch: seq<byte>, c: Cpu, next: Cpu, n: nat)
    requires |data| == |fetch| == MEMORY_SIZE && c.Ok() && n > 0 && Step(data, fetch, c) == Some(next)
    ensures Steps(data, fetch, c, n) == Steps(data, fetch, next, n - 1)
  {
  }

  /** What the five instructions of the two trampolines are. */
  lemma PlantedOperations()
    ensures Decode(ARM_LOAD) == Some(LoadRelative(12, 0)) && Decode(ARM_BRANCH) == Some(Branch(12))
    ensures Decode(THUMB_MOVE) == Some(Move(12, 15)) && Decode(THUMB_LOAD) == Some(Load(12, 12, 4))
    ensures Decode(THUMB_BRANCH) == Some(Branch(12))
  {
  }

  /** Loading the destination from the slot, in either instruction set. */
  lemma StepLoad(data: seq<byte>, fetch: seq<byte>, c: Cpu, destination: u32)
    requires |data| == |fetch| == MEMORY_SIZE && c.Ok()
    requires if c.thumb then Executes(fetch, c, THUMB_LOAD) else Executes(fetch, c, ARM_LOAD)
    requires var slot := if c.thumb then c.regs[12] + 4 else c.pc + 8;
      slot + 4 <= |data| && WordAt(data, slot) == destination
    ensures Step(data, fetch, c) == Some(c.(pc := c.pc + 4, regs := c.regs[12 := destination]))
  {
    PlantedOperations();
  }

  lemma StepMove(data: seq<byte>, fetch: seq<byte>, c: Cpu)
    requires |data| == |fetch| == MEMORY_SIZE && c.Ok() && c.thumb && Executes(fetch, c, THUMB_MOVE)
    ensures Step(data, fetch, c) == Some(c.(pc := c.pc + 2, regs := c.regs[12 := c.pc + 4]))
  {
    PlantedOperations();
  }

  /** A pointer to Thumb code, which is odd, or an aligned one to ARM code. */
  predicate Callable(pointer: u32) {
    pointer % 2 == 1 || pointer % 4 == 0
  }

  /** The first instruction's address. */
  function Entry(pointer: u32): u32 {
    if pointer % 2 == 1 then pointer - 1 else pointer
  }

  lemma BranchesTo(c: Cpu, pointer: u32)
    requires c.Ok() && Callable(pointer)
    ensures BranchExchange(c, Some(pointer)) == Some(c.(pc := Entry(pointer), thumb := pointer % 2 == 1))
  {
  }

  lemma StepIs(data: seq<byte>, fetch: seq<byte>, c: Cpu, i: Instruction, rm: nat)
    requires |data| == |fetch| == MEMORY_SIZE && c.Ok() && Executes(fetch, c, i) && Decode(i) == Some(Branch(rm))
    ensures Step(data, fetch, c) == BranchExchange(c, Operand(c, rm))
  {
  }

  lemma StepBranch(data: seq<byte>, fetch: seq<byte>, c: Cpu)
    requires |data| == |fetch| == MEMORY_SIZE && c.Ok() && Callable(c.regs[12])
    requires if c.thumb then Executes(fetch, c, THUMB_BRANCH) else Executes(fetch, c, ARM_BRANCH)
    ensures Step(data, fetch, c) == Some(c.(pc := Entry(c.regs[12]), thumb := c.regs[12] % 2 == 1))
  {
    PlantedOperations();
    BranchesTo(c, c.regs[12]);
    StepIs(data, fetch, c, if c.thumb then THUMB_BRANCH else ARM_BRANCH, 12);
  }

  /** The processor state at the destination: only r12 has changed. */
  function Arrived(c: Cpu, destination: u32): Cpu
    requires c.Ok()
  {
    c.(pc := Entry(destination), thumb := destination % 2 == 1, regs := c.regs[12 := destination])
  }

  lemma SameSlot(regs: seq<u32>, a: u32, b: u32)
    requires |regs| == 15
    ensures regs[12 := a][12 := b] == regs[12 := b] && regs[12 := a][12] == a
  {
  }

  lemma ArmTrampoline(data: seq<byte>, fetch: seq<byte>, c: Cpu, destination: u32, n: nat)
    requires |data| == |fetch| == MEMORY_SIZE && c.Ok() && c.pc + PATCH_SIZE <= MEMORY_SIZE && n == 2
    requires !c.thumb && Executes(fetch, c, ARM_LOAD) && Executes(fetch, c.(pc := c.pc + 4), ARM_BRANCH)
    requires WordAt(data, c.pc + CODE_SIZE) == destination && Callable(destination)
    ensures Steps(data, fetch, c, n) == Some(Arrived(c, destination))
  {
    var c1 := c.(pc := c.pc + 4, regs := c.regs[12 := destination]);
    StepLoad(data, fetch, c, destination);
    StepBranch(data, fetch, c1);
    StepsFirst(data, fetch, c, c1, n);
    StepsFirst(data, fetch, c1, Arrived(c, destination), n - 1);
  }

  lemma ThumbTrampoline(data: seq<byte>, fetch: seq<byte>, c: Cpu, destination: u32, n: nat)
    requires |data| == |fetch| == MEMORY_SIZE && c.Ok() && c.pc + PATCH_SIZE <= MEMORY_SIZE && n == 3
    requires c.thumb && Executes(fetch, c, THUMB_MOVE) && Executes(fetch, c.(pc := c.pc + 2), THUMB_LOAD)
    requires Executes(fetch, c.(pc := c.pc + 6), THUMB_BRANCH)
    requires WordAt(data, c.pc + CODE_SIZE) == destination && Callable(destination)
    ensures Steps(data, fetch, c, n) == Some(Arrived(c, destination))
  {
    var c1 := c.(pc := c.pc + 2, regs := c.regs[12 := c.pc + 4]);
    var c2 := c.(pc := c.pc + 6, regs := c.regs[12 := destination]);
    SameSlot(c.regs, c.pc + 4, destination);
    StepMove(data, fetch, c);
    StepLoad(data, fetch, c1, destination);
    StepBranch(data, fetch, c2);
    StepsFirst(data, fetch, c, c1, n);
    StepsFirst(data, fetch, c1, c2, n - 1);
    StepsFirst(data, fetch, c2, Arrived(c, destination), n - 2);
  }

  lemma TrampolineRuns(data: seq<byte>, fetch: seq<byte>, c: Cpu, destination: u32, n: nat)
    requires |data| == |fetch| == MEMORY_SIZE && c.Ok() && c.pc + PATCH_SIZE <= MEMORY_SIZE
    requires c.pc % (if c.thumb then 2 else 4) == 0 && n == if c.thumb then 3 else 2
    requires fetch[c.pc..c.pc + CODE_SIZE] == Code(c.thumb)
    requires WordAt(data, c.pc + CODE_SIZE) == destination && Callable(destination)
    ensures Steps(data, fetch, c, n) == Some(Arrived(c, destination))
  {
    CodeParts();
    if c.thumb {
      ThumbPlanted(fetch, c, Code(c.thumb), THUMB_MOVE, THUMB_LOAD, THUMB_BRANCH);
      ThumbTrampoline(data, fetch, c, destination, n);
    } else {
      ArmPlanted(fetch, c, Code(c.thumb), ARM_LOAD, ARM_BRANCH);
      ArmTrampoline(data, fetch, c, destination, n);
    }
  }

  /**
   * Calling a redirected function, by an odd pointer for a Thumb one, ends up at the destination in
   * the instruction set that its lowest bit tells, with only r12 changed; the code and the slot may
   * lie at any alignment and in any lines.
   */
  lemma CallReachesDestination(data: seq<byte>, fetch: seq<byte>, target: u32, destination: u32, c: Cpu)
    returns (patched: seq<byte>, synced: seq<byte>)
    requires |data| == |fetch| == MEMORY_SIZE && c.Ok() && c.pc + 12 <= MEMORY_SIZE
    requires destination % 2 == 1 || destination % 4 == 0
    requires if c.thumb then c.pc % 2 == 0 && target == c.pc + 1 else c.pc % 4 == 0 && target == c.pc
    ensures Patchable(target)
    ensures patched == PatchedData(data, target, destination) && synced == PatchedFetch(patched, fetch, target)
    ensures Steps(patched, synced, c, if c.thumb then 3 else 2)
      == Some(c.(pc := if destination % 2 == 1 then destination - 1 else destination, thumb := destination % 2 == 1,
                 regs := c.regs[12 := destination]))
  {
    TargetOf(c, target);
    patched, synced := PatchesPlanted(data, fetch, target, destination);
    TrampolineRuns(patched, synced, c, destination, if c.thumb then 3 else 2);
  }

  lemma TargetOf(c: Cpu, target: u32)
    requires c.pc + 12 <= MEMORY_SIZE
    requires if c.thumb then c.pc % 2 == 0 && target == c.pc + 1 else c.pc % 4 == 0 && target == c.pc
    ensures Patchable(target) && CodeAddr(target) == c.pc && IsThumb(target) == c.thumb
  {
  }

  lemma PatchesPlanted(data: seq<byte>, fetch: seq<byte>, target: u32, destination: u32)
    returns (patched: seq<byte>, synced: seq<byte>)
    requires |data| == |fetch| == MEMORY_SIZE && Patchable(target)
    ensures patched == PatchedData(data, target, destination) && synced == PatchedFetch(patched, fetch, target)
    ensures WordAt(patched, CodeAddr(target) + CODE_SIZE) == destination
    ensures synced[CodeAddr(target)..CodeAddr(target) + CODE_SIZE] == Code(IsThumb(target))
  {
    patched := PatchedData(data, target, destination);
    synced := PatchedFetch(patched, fetch, target);
    SlotHoldsDestination(data, target, destination);
    FetchedCode(data, fetch, target, destination);
  }

  /** Nothing but the twelve patched bytes changes in memory. */
  lemma OnlyThePatchChanges(data: seq<byte>, target: u32, destination: u32, i: nat)
    requires |data| == MEMORY_SIZE && Patchable(target) && i < |data|
    requires !(CodeAddr(target) <= i < CodeAddr(target) + PATCH_SIZE)
    ensures PatchedData(data, target, destination)[i] == data[i]
  {
  }
}
