/**
 * Instructions of the two ARM instruction sets as they lie in memory, and the
 * two views of that memory: the one data accesses see and the one instruction
 * fetches see.
 */
module CodeMemory {
  import opened Bytes

  /** Size of the address space. */
  const MEMORY_SIZE := 0x1_0000_0000
  /** Width of a cache line. */
  const LINE := 32

  datatype Instruction =
    | Arm(word: u32)
    | Thumb16(half: u16)
    | Thumb32(first: u16, second: u16)
  {
    predicate IsThumb() {
      !Arm?
    }

    function Size(): nat {
      if Thumb16? then 2 else 4
    }

    /** The bytes a volatile store of this instruction puts in memory. */
    function Encode(): (bs: seq<byte>)
      ensures |bs| == Size()
    {
      match this
      case Arm(w) => LeBytes(4, w)
      case Thumb16(h) => LeBytes(2, h)
      case Thumb32(h1, h2) => LeBytes(2, h1) + LeBytes(2, h2)
    }

    /** Whether the constructor agrees with the length its first halfword announces. */
    predicate WellFormed() {
      match this
      case Arm(_) => true
      case Thumb16(h) => !IsThumb32(h)
      case Thumb32(h, _) => IsThumb32(h)
    }

    /** `bkpt` with any immediate, the instruction that raises a debug event when executed. */
    predicate IsBkpt() {
      match this
      case Arm(w) => w / 0x10_0000 == 0xE12 && w / 0x10 % 0x10 == 7
      case Thumb16(h) => h / 0x100 == 0xBE
      case Thumb32(_, _) => false
    }
  }

  /** Whether a Thumb instruction starting with this halfword is 32 bits long. */
  predicate IsThumb32(half: u16) {
    0x1D <= half / 0x800 <= 0x1F
  }

  /** These are the halfwords from 0xE800 up: the five top bits are 11101, 11110 or 11111. */
  lemma Thumb32Range(half: u16)
    ensures IsThumb32(half) <==> 0xE800 <= half
  {
  }

  function HalfAt(mem: seq<byte>, addr: nat): u16
    requires addr + 2 <= |mem|
  {
    LeValueRange(mem[addr..addr + 2]);
    WordRanges();
    LeValue(mem[addr..addr + 2])
  }

  function WordAt(mem: seq<byte>, addr: nat): u32
    requires addr + 4 <= |mem|
  {
    LeValueRange(mem[addr..addr + 4]);
    WordRanges();
    LeValue(mem[addr..addr + 4])
  }

  /** An instruction of the given set starts at `addr`, aligned and inside memory. */
  predicate InstrAddr(mem: seq<byte>, addr: nat, thumb: bool) {
    if thumb then
      addr % 2 == 0 && addr + 2 <= |mem| && (IsThumb32(HalfAt(mem, addr)) ==> addr + 4 <= |mem|)
    else
      addr % 4 == 0 && addr + 4 <= |mem|
  }

  function ReadInstr(mem: seq<byte>, addr: nat, thumb: bool): (i: Instruction)
    requires InstrAddr(mem, addr, thumb)
    ensures i.IsThumb() == thumb && i.WellFormed() && addr + i.Size() <= |mem|
  {
    if thumb then
      var h := HalfAt(mem, addr);
      if IsThumb32(h) then Thumb32(h, HalfAt(mem, addr + 2)) else Thumb16(h)
    else
      Arm(WordAt(mem, addr))
  }

  /** Writing back an instruction that was read restores exactly the bytes it was read from. */
  lemma EncodeOfRead(mem: seq<byte>, addr: nat, thumb: bool)
    requires InstrAddr(mem, addr, thumb)
    ensures var i := ReadInstr(mem, addr, thumb); i.Encode() == mem[addr..addr + i.Size()]
  {
    var i := ReadInstr(mem, addr, thumb);
    LeBytesOfLeValue(mem[addr..addr + i.Size()]);
    if i.Thumb32? {
      LeBytesOfLeValue(mem[addr..addr + 2]);
      LeBytesOfLeValue(mem[addr + 2..addr + 4]);
    }
  }

  lemma HalfOfEncoded(mem: seq<byte>, addr: nat, h: u16)
    requires addr + 2 <= |mem| && mem[addr..addr + 2] == LeBytes(2, h)
    ensures HalfAt(mem, addr) == h
  {
    WordRanges();
    LeValueOfLeBytes(2, h);
  }

  /** Reading where a well-formed instruction was written gives that instruction. */
  lemma ReadOfEncode(mem: seq<byte>, addr: nat, i: Instruction)
    requires i.WellFormed() && addr % (if i.Arm? then 4 else 2) == 0
    requires addr + i.Size() <= |mem| && mem[addr..addr + i.Size()] == i.Encode()
    ensures InstrAddr(mem, addr, i.IsThumb()) && ReadInstr(mem, addr, i.IsThumb()) == i
  {
    match i
    case Arm(w) =>
      WordRanges();
      LeValueOfLeBytes(4, w);
    case Thumb16(h) =>
      HalfOfEncoded(mem, addr, h);
    case Thumb32(h1, h2) =>
      assert mem[addr..addr + 2] == mem[addr..addr + 4][..2];
      assert mem[addr + 2..addr + 4] == mem[addr..addr + 4][2..];
      HalfOfEncoded(mem, addr, h1);
      HalfOfEncoded(mem, addr + 2, h2);
  }

  /** Whether byte `i` lies in the cache line that contains `addr`. */
  predicate InLine(i: nat, addr: nat) {
    i / LINE == addr / LINE
  }

  /** A line is 32 bytes from a multiple of 32 on. */
  lemma LineOf(i: nat, addr: nat)
    ensures InLine(i, addr) <==> addr - addr % 32 <= i < addr - addr % 32 + 32
  {
    assert addr == 32 * (addr / 32) + addr % 32 && i == 32 * (i / 32) + i % 32;
  }

  /** The fetch view after the line containing `addr` has been cleaned and invalidated. */
  function SyncLine(fetch: seq<byte>, data: seq<byte>, addr: nat): (r: seq<byte>)
    requires |fetch| == |data|
    ensures |r| == |fetch|
    ensures forall i :: 0 <= i < |r| ==> r[i] == if InLine(i, addr) then data[i] else fetch[i]
  {
    seq(|fetch|, i requires 0 <= i < |fetch| => if InLine(i, addr) then data[i] else fetch[i])
  }

  /** An aligned instruction-sized span never leaves the line it starts in. */
  lemma AlignedSpanInLine(addr: nat, size: nat, i: nat)
    requires (size == 4 && addr % 4 == 0) || (size == 2 && addr % 2 == 0)
    requires addr <= i < addr + size
    ensures InLine(i, addr)
  {
    var line, offset := addr / 32, addr % 32;
    assert addr == 32 * line + offset;
    if size == 4 {
      assert offset % 4 == 0;
    } else {
      assert offset % 2 == 0;
    }
    assert offset + size <= 32;
    assert i / 32 == line;
  }

  /** Memory with its data view and its instruction-fetch view. */
  class CodeMemory {
    const data: array<byte>
    const fetch: array<byte>

    ghost predicate Valid()
    {
      data != fetch && data.Length == fetch.Length == MEMORY_SIZE
    }

    /** Both views start from the same contents. */
    constructor (contents: array<byte>, fetched: array<byte>)
      requires contents != fetched && contents.Length == fetched.Length == MEMORY_SIZE
      ensures Valid() && data == contents && fetch == fetched
    {
      data := contents;
      fetch := fetched;
    }

    /** Reads an instruction through the data view, as a volatile load does. */
    method Read(addr: u32, thumb: bool) returns (i: Instruction)
      requires Valid() && InstrAddr(data[..], addr, thumb)
      ensures i == ReadInstr(data[..], addr, thumb)
    {
      if thumb {
        var h1 := HalfAt(data[..], addr);
        if IsThumb32(h1) {
          i := Thumb32(h1, HalfAt(data[..], addr + 2));
        } else {
          i := Thumb16(h1);
        }
      } else {
        i := Arm(WordAt(data[..], addr));
      }
    }

    /** Stores bytes through the data view; the fetch view is left alone. */
    method WriteBytes(addr: u32, bs: seq<byte>)
      requires Valid() && addr + |bs| <= MEMORY_SIZE
      modifies data
      ensures data[..] == Splice(old(data[..]), addr, bs)
    {
      for k := 0 to |bs|
        invariant forall j :: 0 <= j < data.Length ==>
          data[j] == if addr <= j < addr + k then bs[j - addr] else old(data[j])
      {
        data[addr + k] := bs[k];
      }
    }

    /** Stores an instruction as a volatile write does. */
    method Write(addr: u32, i: Instruction)
      requires Valid() && addr + i.Size() <= MEMORY_SIZE
      modifies data
      ensures data[..] == Splice(old(data[..]), addr, i.Encode())
    {
      WriteBytes(addr, i.Encode());
    }

    /** Makes the data in the line containing `addr` visible to instruction fetches. */
    method SyncInstruction(addr: u32)
      requires Valid()
      modifies fetch
      ensures fetch[..] == SyncLine(old(fetch[..]), data[..], addr)
    {
      var base := addr - addr % LINE;
      for k := 0 to LINE
        invariant forall j :: 0 <= j < fetch.Length ==>
          fetch[j] == if base <= j < base + k then data[j] else old(fetch[j])
      {
        fetch[base + k] := data[base + k];
      }
    }
  }
}
