/**
 * Where the registers lie in the packet with all of them, byte by byte, and which bytes the client's
 * register numbers stand for.
 */
module PacketLayout {
  import opened Bytes
  import opened Registers
  import opened RegisterViews

  lemma FieldInPacket(c: DebugEventContext, r: ArmRegisterID, offset: nat, n: nat)
    requires c.Shape() && r.Exists() && offset == Position(FieldOf(r)) && n == r.Size()
    ensures offset + n <= 328 && Serialize(c)[offset..offset + n] == LeBytes(n, Get(c, r))
    ensures ValueAt(Serialize(c), offset, n) == Get(c, r)
  {
    FieldOffset(FieldOf(r));
    ReadIsSlice(c, r);
    LeValueOfLeBytes(n, Get(c, r));
  }

  /** r0 to r12, the stack pointer, the link register, the program counter and the status register. */
  lemma CoreInPacket(c: DebugEventContext)
    requires c.Shape()
    ensures var p := Serialize(c);
      && (forall i :: 0 <= i < 13 ==> ValueAt(p, 4 * i, 4) == c.gpr[i])
      && ValueAt(p, 52, 4) == c.sp && ValueAt(p, 56, 4) == c.lr
      && ValueAt(p, 60, 4) == c.pc && ValueAt(p, 64, 4) == c.cpsr
  {
    forall i | 0 <= i < 13
      ensures ValueAt(Serialize(c), 4 * i, 4) == c.gpr[i]
    {
      FieldInPacket(c, Gpr(i), 4 * i, 4);
    }
    FieldInPacket(c, Sp, 52, 4);
    FieldInPacket(c, Lr, 56, 4);
    FieldInPacket(c, Pc, 60, 4);
    FieldInPacket(c, Cpsr, 64, 4);
  }

  /** d0 to d31 and the floating-point status. */
  lemma FloatsInPacket(c: DebugEventContext)
    requires c.Shape()
    ensures var p := Serialize(c);
      && (forall i :: 0 <= i < 32 ==> ValueAt(p, 68 + 8 * i, 8) == c.vfp[i])
      && ValueAt(p, 324, 4) == c.fpscr
  {
    forall i | 0 <= i < 32
      ensures ValueAt(Serialize(c), 68 + 8 * i, 8) == c.vfp[i]
    {
      FieldInPacket(c, Fpr(i), 68 + 8 * i, 8);
    }
    FieldInPacket(c, Fpscr, 324, 4);
  }

  /** Where the packet holds the register of a number, and how many bytes it has. */
  function SliceOfId(id: nat): (r: (nat, nat))
    requires id <= 15 || 25 <= id <= 58
    ensures r.0 + r.1 <= 328
  {
    if id <= 15 then (4 * id, 4)
    else if id == 25 then (64, 4)
    else if id <= 57 then (68 + 8 * (id - 26), 8)
    else (324, 4)
  }

  lemma IdPosition(id: nat)
    ensures FromRawId(id).Some? <==> id <= 15 || 25 <= id <= 58
    ensures FromRawId(id).Some? ==>
      var r := FromRawId(id).value;
      r.Exists() && (Position(FieldOf(r)), r.Size()) == SliceOfId(id)
  {
  }

  /** Reading by number gives the bytes of the packet that the number stands for. */
  lemma IdReads(c: DebugEventContext, id: nat)
    requires c.Shape()
    ensures FromRawId(id).Some? <==> id <= 15 || 25 <= id <= 58
    ensures FromRawId(id).Some? ==>
      var (at, n) := SliceOfId(id);
      FromRawId(id).value.Exists() && ReadBytes(c, FromRawId(id).value) == Serialize(c)[at..at + n]
  {
    IdPosition(id);
    if FromRawId(id).Some? {
      var (at, n) := SliceOfId(id);
      FieldInPacket(c, FromRawId(id).value, at, n);
    }
  }

  /** What the numbers stand for in the context. */
  lemma IdMeans(c: DebugEventContext, id: nat)
    requires c.Shape() && FromRawId(id).Some?
    ensures FromRawId(id).value.Exists()
    ensures var bytes := ReadBytes(c, FromRawId(id).value);
      && (id <= 12 ==> bytes == LeBytes(4, c.gpr[id]))
      && (id == 13 ==> bytes == LeBytes(4, c.sp)) && (id == 14 ==> bytes == LeBytes(4, c.lr))
      && (id == 15 ==> bytes == LeBytes(4, c.pc)) && (id == 25 ==> bytes == LeBytes(4, c.cpsr))
      && (26 <= id <= 57 ==> bytes == LeBytes(8, c.vfp[id - 26]))
      && (id == 58 ==> bytes == LeBytes(4, c.fpscr))
  {
    IdPosition(id);
  }

  /** Writing by number splices them. */
  lemma IdWrites(c: DebugEventContext, id: nat, val: seq<byte>)
    requires c.Shape() && (id <= 15 || 25 <= id <= 58) && |val| == SliceOfId(id).1
    ensures FromRawId(id).Some? && FromRawId(id).value.Exists() && FromRawId(id).value.Size() == |val|
    ensures LeValue(val) < Range(|val|)
    ensures Serialize(Set(c, FromRawId(id).value, LeValue(val))) == Splice(Serialize(c), SliceOfId(id).0, val)
  {
    IdPosition(id);
    FieldOffset(FieldOf(FromRawId(id).value));
    WriteIsSplice(c, FromRawId(id).value, val);
  }
}
