/**
 * The client's two views of the captured registers: the packet with all of them, and access to
 * one at a time.
 */
module RegisterViews {
  import opened Wrappers
  import opened Bytes
  import opened Layout
  import opened Registers

  // ----- The packet with all registers -----

  const FIELDS := 50
  const PACKET_SIZE := 328

  /** r0 to r12, sp, lr, pc, cpsr; d0 to d31; fpscr. */
  function FieldWidths(): (ws: Widths)
    ensures |ws| == FIELDS && forall i :: 0 <= i < FIELDS ==> ws[i] == if 17 <= i < 49 then 8 else 4
  {
    seq(FIELDS, i => if 17 <= i < 49 then 8 else 4)
  }

  const WIDTHS: Widths := FieldWidths()

  function Values(c: DebugEventContext): (vs: seq<nat>)
    requires c.Shape()
    ensures |vs| == FIELDS
  {
    c.gpr + [c.sp, c.lr, c.pc, c.cpsr] + c.vfp + [c.fpscr]
  }

  lemma ValuesInRange(c: DebugEventContext)
    requires c.Shape()
    ensures InRange(WIDTHS, Values(c))
  {
    WordRanges();
  }

  /** Where field `i` lies in the packet. */
  function Position(i: nat): nat {
    if i <= 17 then 4 * i else if i <= 49 then 8 * i - 68 else PACKET_SIZE
  }

  lemma {:induction false} FieldOffset(i: nat)
    requires i <= FIELDS
    ensures Offset(WIDTHS, i) == Position(i)
  {
    if i > 0 {
      FieldOffset(i - 1);
    }
  }

  lemma PacketSize()
    ensures Total(WIDTHS) == PACKET_SIZE
  {
    FieldOffset(|WIDTHS|);
  }

  function Serialize(c: DebugEventContext): (bytes: seq<byte>)
    requires c.Shape()
    ensures |bytes| == PACKET_SIZE
  {
    PacketSize();
    Encode(WIDTHS, Values(c))
  }

  /** Contexts with the same fields are the same. */
  lemma ValuesInjective(c: DebugEventContext, d: DebugEventContext)
    requires c.Shape() && d.Shape() && Values(c) == Values(d)
    ensures c == d
  {
    var vs, us := Values(c), Values(d);
    assert vs[..13] == c.gpr && us[..13] == d.gpr;
    assert vs[17..49] == c.vfp && us[17..49] == d.vfp;
    assert vs[13] == c.sp && vs[14] == c.lr && vs[15] == c.pc && vs[16] == c.cpsr && vs[49] == c.fpscr;
    assert us[13] == d.sp && us[14] == d.lr && us[15] == d.pc && us[16] == d.cpsr && us[49] == d.fpscr;
  }

  // ----- Single registers -----

  datatype ArmRegisterID = Gpr(index: nat) | Sp | Lr | Pc | Cpsr | Fpr(index: nat) | Fpscr {
    function Size(): nat {
      if Fpr? then 8 else 4
    }

    /** The register exists. */
    predicate Exists() {
      match this
      case Gpr(i) => i < GPRS
      case Fpr(i) => i < VFPS
      case _ => true
    }
  }

  /** The client's numbering. */
  function FromRawId(id: nat): Option<ArmRegisterID> {
    if id <= 12 then Some(Gpr(id))
    else if id == 13 then Some(Sp)
    else if id == 14 then Some(Lr)
    else if id == 15 then Some(Pc)
    else if id == 25 then Some(Cpsr)
    else if 26 <= id <= 57 then Some(Fpr(id - 26))
    else if id == 58 then Some(Fpscr)
    else None
  }

  function Get(c: DebugEventContext, r: ArmRegisterID): (v: nat)
    requires c.Shape() && r.Exists()
    ensures v < Range(r.Size())
  {
    WordRanges();
    match r
    case Gpr(i) => c.gpr[i]
    case Sp => c.sp
    case Lr => c.lr
    case Pc => c.pc
    case Cpsr => c.cpsr
    case Fpr(i) => c.vfp[i]
    case Fpscr => c.fpscr
  }

  function Set(c: DebugEventContext, r: ArmRegisterID, v: nat): (d: DebugEventContext)
    requires c.Shape() && r.Exists() && v < Range(r.Size())
    ensures d.Shape()
  {
    WordRanges();
    match r
    case Gpr(i) => c.(gpr := c.gpr[i := v])
    case Sp => c.(sp := v)
    case Lr => c.(lr := v)
    case Pc => c.(pc := v)
    case Cpsr => c.(cpsr := v)
    case Fpr(i) => c.(vfp := c.vfp[i := v])
    case Fpscr => c.(fpscr := v)
  }

  /** The field of the packet that holds a register. */
  function FieldOf(r: ArmRegisterID): (i: nat)
    requires r.Exists()
    ensures i < FIELDS && WIDTHS[i] == r.Size()
  {
    match r
    case Gpr(i) => i
    case Sp => 13
    case Lr => 14
    case Pc => 15
    case Cpsr => 16
    case Fpr(i) => 17 + i
    case Fpscr => 49
  }

  /** Ids name existing registers, each by one id, in the order of the packet. */
  lemma RawIds(id: nat, id': nat)
    requires FromRawId(id).Some? && FromRawId(id').Some? && id < id'
    ensures FromRawId(id).value.Exists() && FromRawId(id').value.Exists()
    ensures FieldOf(FromRawId(id).value) < FieldOf(FromRawId(id').value)
  {
  }

  /** Every existing register has an id. */
  lemma RawIdOf(r: ArmRegisterID) returns (id: nat)
    requires r.Exists()
    ensures FromRawId(id) == Some(r)
  {
    id := match r
      case Gpr(i) => i
      case Sp => 13
      case Lr => 14
      case Pc => 15
      case Cpsr => 25
      case Fpr(i) => 26 + i
      case Fpscr => 58;
  }

  lemma GetIsValue(c: DebugEventContext, r: ArmRegisterID)
    requires c.Shape() && r.Exists()
    ensures Values(c)[FieldOf(r)] == Get(c, r)
  {
  }

  lemma SetUpdatesValue(c: DebugEventContext, r: ArmRegisterID, v: nat)
    requires c.Shape() && r.Exists() && v < Range(r.Size())
    ensures Values(Set(c, r, v)) == Values(c)[FieldOf(r) := v]
  {
    var vs, us, k := Values(c), Values(Set(c, r, v)), FieldOf(r);
    forall j | 0 <= j < FIELDS
      ensures us[j] == vs[k := v][j]
    {
    }
  }

  function ReadBytes(c: DebugEventContext, r: ArmRegisterID): seq<byte>
    requires c.Shape() && r.Exists()
  {
    LeBytes(r.Size(), Get(c, r))
  }

  /** Reading one register gives its slice of the packet with all of them. */
  lemma ReadIsSlice(c: DebugEventContext, r: ArmRegisterID)
    requires c.Shape() && r.Exists()
    ensures var at := Offset(WIDTHS, FieldOf(r));
      at + r.Size() <= |Serialize(c)| == PACKET_SIZE && ReadBytes(c, r) == Serialize(c)[at..at + r.Size()]
  {
    ValuesInRange(c);
    PacketSize();
    FieldOfEncode(WIDTHS, Values(c), FieldOf(r));
    GetIsValue(c, r);
  }

  /** Writing one register splices its slice into the packet and changes nothing else. */
  lemma WriteIsSplice(c: DebugEventContext, r: ArmRegisterID, val: seq<byte>)
    requires c.Shape() && r.Exists() && |val| == r.Size()
    ensures LeValue(val) < Range(r.Size())
    ensures var at := Offset(WIDTHS, FieldOf(r));
      at + r.Size() <= PACKET_SIZE && |Serialize(c)| == PACKET_SIZE
      && Serialize(Set(c, r, LeValue(val))) == Splice(Serialize(c), at, val)
  {
    LeValueRange(val);
    PacketSize();
    SetUpdatesValue(c, r, LeValue(val));
    EncodeUpdate(WIDTHS, Values(c), FieldOf(r), LeValue(val));
    LeBytesOfLeValue(val);
  }

  // ----- Deserialising -----

  /** Field `i` is completely contained in the packet. */
  predicate Contained(bytes: seq<byte>, i: nat)
    requires i < FIELDS
  {
    Offset(WIDTHS, i) + WIDTHS[i] <= |bytes|
  }

  /** The fields after the first `n` have been taken from a packet. */
  function Taken(before: seq<nat>, bytes: seq<byte>, n: nat): (vs: seq<nat>)
    requires |before| == FIELDS && n <= FIELDS && forall i :: 0 <= i < n ==> Contained(bytes, i)
    ensures |vs| == FIELDS
  {
    seq(FIELDS, i requires 0 <= i < FIELDS => if i < n then (assert Contained(bytes, i); Field(WIDTHS, bytes, i)) else before[i])
  }

  /** How many fields a packet of some length contains. */
  function FieldsIn(bytes: seq<byte>, from: nat): (n: nat)
    requires from <= FIELDS && forall i :: 0 <= i < from ==> Contained(bytes, i)
    ensures from <= n <= FIELDS && (forall i :: 0 <= i < n ==> Contained(bytes, i))
    ensures n < FIELDS ==> !Contained(bytes, n)
    decreases FIELDS - from
  {
    if from == FIELDS || !Contained(bytes, from) then from else FieldsIn(bytes, from + 1)
  }

  lemma FieldsInIs(bytes: seq<byte>, n: nat)
    requires n <= FIELDS && forall i :: 0 <= i < n ==> Contained(bytes, i)
    requires n < FIELDS ==> !Contained(bytes, n)
    ensures FieldsIn(bytes, 0) == n
  {
    var k := FieldsIn(bytes, 0);
  }

  /** A packet contains all fields exactly if it is long enough. */
  lemma AllContained(bytes: seq<byte>)
    ensures FieldsIn(bytes, 0) == FIELDS <==> PACKET_SIZE <= |bytes|
  {
    var n := FieldsIn(bytes, 0);
    PacketSize();
    if n < FIELDS {
      OffsetMonotone(WIDTHS, n, |WIDTHS|);
    } else {
      assert Contained(bytes, FIELDS - 1);
    }
  }

  /** Fields that were taken have the packet's bytes as their image. */
  lemma TakenHead(before: seq<nat>, vs: seq<nat>, bytes: seq<byte>, n: nat)
    requires |before| == FIELDS && n <= FIELDS && (forall i :: 0 <= i < n ==> Contained(bytes, i))
    requires vs == Taken(before, bytes, n)
    ensures Offset(WIDTHS, n) <= |bytes| && EncodeFirst(WIDTHS, vs, n) == bytes[..Offset(WIDTHS, n)]
  {
    if n > 0 {
      assert Contained(bytes, n - 1);
    }
    forall i | 0 <= i < n
      ensures FieldIs(WIDTHS, vs, bytes, i)
    {
      assert Contained(bytes, i);
    }
    EncodeOfFields(WIDTHS, vs, bytes, n);
  }

  /** The image after deserialising: whole fields of the packet, then what was there before. */
  lemma TakenImage(c: DebugEventContext, d: DebugEventContext, bytes: seq<byte>, n: nat)
    requires c.Shape() && d.Shape() && n <= FIELDS && (forall i :: 0 <= i < n ==> Contained(bytes, i))
    requires Values(d) == Taken(Values(c), bytes, n)
    ensures Offset(WIDTHS, n) <= |bytes| && Offset(WIDTHS, n) <= PACKET_SIZE
    ensures Serialize(d)[..Offset(WIDTHS, n)] == bytes[..Offset(WIDTHS, n)]
    ensures Serialize(d)[Offset(WIDTHS, n)..] == Serialize(c)[Offset(WIDTHS, n)..]
  {
    var vs, us := Values(c), Values(d);
    PacketSize();
    TakenHead(vs, us, bytes, n);
    SameTail(WIDTHS, vs, us, n, |WIDTHS|);
  }

  lemma {:induction false} SameTail(ws: Widths, vs: seq<nat>, us: seq<nat>, n: nat, k: nat)
    requires n <= k <= |ws| == |vs| == |us| && forall i :: n <= i < k ==> vs[i] == us[i]
    ensures Offset(ws, n) <= Offset(ws, k)
    ensures EncodeFirst(ws, us, k)[Offset(ws, n)..] == EncodeFirst(ws, vs, k)[Offset(ws, n)..]
    ensures EncodeFirst(ws, us, k)[..Offset(ws, n)] == EncodeFirst(ws, us, n)
  {
    if n < k {
      SameTail(ws, vs, us, n, k - 1);
      var at, last := Offset(ws, n), LeBytes(ws[k - 1], us[k - 1]);
      var f, g := EncodeFirst(ws, us, k - 1), EncodeFirst(ws, vs, k - 1);
      assert (f + last)[at..] == f[at..] + last && (g + last)[at..] == g[at..] + last;
      assert (f + last)[..at] == f[..at];
    }
  }

  function FromValues(vs: seq<nat>): (c: DebugEventContext)
    requires InRange(WIDTHS, vs)
    ensures c.Shape() && Values(c) == vs
  {
    WordRanges();
    assert forall i :: 0 <= i < FIELDS ==> vs[i] < Range(WIDTHS[i]);
    var c := DebugEventContext(vs[16], vs[13], vs[14], vs[49], vs[17..49], vs[..13], vs[15]);
    assert Values(c) == vs;
    c
  }

  lemma TakenInRange(vs: seq<nat>, bytes: seq<byte>, n: nat)
    requires InRange(WIDTHS, vs) && n <= FIELDS && forall i :: 0 <= i < n ==> Contained(bytes, i)
    ensures InRange(WIDTHS, Taken(vs, bytes, n))
  {
    var us := Taken(vs, bytes, n);
    forall i | 0 <= i < FIELDS
      ensures us[i] < Range(WIDTHS[i])
    {
      if i < n {
        assert Contained(bytes, i);
        LeValueRange(bytes[Offset(WIDTHS, i)..Offset(WIDTHS, i) + WIDTHS[i]]);
      }
    }
  }

  /** The registers after deserialising a packet, which may be too short. */
  function Deserialize(c: DebugEventContext, bytes: seq<byte>): (d: DebugEventContext)
    requires c.Shape()
    ensures d.Shape() && Values(d) == Taken(Values(c), bytes, FieldsIn(bytes, 0))
  {
    ValuesInRange(c);
    TakenInRange(Values(c), bytes, FieldsIn(bytes, 0));
    FromValues(Taken(Values(c), bytes, FieldsIn(bytes, 0)))
  }

  /** What follows a packet does not disturb its fields. */
  lemma FieldOfLonger(c: DebugEventContext, extra: seq<byte>, i: nat)
    requires c.Shape() && i < FIELDS
    ensures Contained(Serialize(c) + extra, i) && Field(WIDTHS, Serialize(c) + extra, i) == Values(c)[i]
  {
    ValuesInRange(c);
    FieldOfEncode(WIDTHS, Values(c), i);
    SliceOfFirst(Serialize(c), extra, Offset(WIDTHS, i), Offset(WIDTHS, i) + WIDTHS[i]);
  }

  /** Deserialising what was serialised restores it, whatever the registers held before. */
  lemma DeserializeSerialize(before: DebugEventContext, c: DebugEventContext, extra: seq<byte>)
    requires before.Shape() && c.Shape()
    ensures Deserialize(before, Serialize(c) + extra) == c
  {
    var bytes := Serialize(c) + extra;
    AllContained(bytes);
    ValuesInRange(c);
    var vs := Taken(Values(before), bytes, FIELDS);
    forall i | 0 <= i < FIELDS
      ensures vs[i] == Values(c)[i]
    {
      assert Contained(bytes, i);
      FieldOfLonger(c, extra, i);
    }
    ValuesInjective(Deserialize(before, bytes), c);
  }

  /** Serialising what a full packet deserialises to gives the packet back. */
  lemma SerializeDeserialize(before: DebugEventContext, bytes: seq<byte>)
    requires before.Shape() && PACKET_SIZE <= |bytes|
    ensures Serialize(Deserialize(before, bytes)) == bytes[..PACKET_SIZE]
  {
    AllContained(bytes);
    PacketSize();
    var d := Deserialize(before, bytes);
    TakenImage(before, d, bytes, FIELDS);
    assert Serialize(d)[..PACKET_SIZE] == Serialize(d);
  }

  lemma StopsInsideField(bytes: seq<byte>)
    requires |bytes| < PACKET_SIZE
    ensures FieldsIn(bytes, 0) < FIELDS
    ensures Offset(WIDTHS, FieldsIn(bytes, 0)) <= |bytes| < Offset(WIDTHS, FieldsIn(bytes, 0)) + 8
  {
    var n := FieldsIn(bytes, 0);
    AllContained(bytes);
    if n > 0 {
      assert Contained(bytes, n - 1);
    }
    assert !Contained(bytes, n) && WIDTHS[n] <= 8;
  }

  lemma Rejoin(bs: seq<byte>, at: nat)
    requires at <= |bs|
    ensures bs == bs[..at] + bs[at..]
  {
  }

  /** A packet cut short is refused, but the registers it contains completely are taken all the same. */
  lemma ShortPacketIsHalfTaken(before: DebugEventContext, bytes: seq<byte>)
    requires before.Shape() && |bytes| < PACKET_SIZE
    ensures var at := Offset(WIDTHS, FieldsIn(bytes, 0));
      && at <= |bytes| < at + 8
      && Serialize(Deserialize(before, bytes)) == bytes[..at] + Serialize(before)[at..]
  {
    StopsInsideField(bytes);
    var d, n := Deserialize(before, bytes), FieldsIn(bytes, 0);
    TakenImage(before, d, bytes, n);
    Rejoin(Serialize(d), Offset(WIDTHS, n));
  }

  /** The first `n` of these values have been taken and `rest` is what is left of the packet. */
  ghost predicate TakenSoFar(before: seq<nat>, vs: seq<nat>, bytes: seq<byte>, rest: seq<byte>, n: nat)
    requires |before| == FIELDS
  {
    && n <= FIELDS
    && (forall i :: 0 <= i < n ==> Contained(bytes, i))
    && Position(n) <= |bytes| && rest == bytes[Position(n)..]
    && vs == Taken(before, bytes, n)
  }

  /** The same of two contexts. */
  ghost predicate Progress(c: DebugEventContext, d: DebugEventContext, bytes: seq<byte>, rest: seq<byte>, n: nat) {
    c.Shape() && d.Shape() && TakenSoFar(Values(c), Values(d), bytes, rest, n)
  }

  lemma Stopped(c: DebugEventContext, d: DebugEventContext, bytes: seq<byte>, rest: seq<byte>, n: nat)
    requires Progress(c, d, bytes, rest, n) && (n < FIELDS ==> !Contained(bytes, n))
    ensures d == Deserialize(c, bytes)
    ensures n == FIELDS <==> PACKET_SIZE <= |bytes|
  {
    FieldsInIs(bytes, n);
    AllContained(bytes);
    ValuesInjective(d, Deserialize(c, bytes));
  }

  lemma SliceRest(bytes: seq<byte>, at: nat, n: nat)
    requires at + n <= |bytes|
    ensures bytes[at..][..n] == bytes[at..at + n] && bytes[at..][n..] == bytes[at + n..]
  {
  }

  lemma TakenNext(before: seq<nat>, bytes: seq<byte>, n: nat)
    requires |before| == FIELDS && n < FIELDS && forall i :: 0 <= i <= n ==> Contained(bytes, i)
    ensures Contained(bytes, n)
    ensures Taken(before, bytes, n + 1) == Taken(before, bytes, n)[n := Field(WIDTHS, bytes, n)]
  {
    assert Contained(bytes, n);
  }

  lemma TakeOne(before: seq<nat>, vs: seq<nat>, bytes: seq<byte>, rest: seq<byte>, n: nat)
    requires |before| == FIELDS && n < FIELDS && TakenSoFar(before, vs, bytes, rest, n) && WIDTHS[n] <= |rest|
    ensures TakenSoFar(before, vs[n := LeValue(rest[..WIDTHS[n]])], bytes, rest[WIDTHS[n]..], n + 1)
  {
    FieldOffset(n);
    SliceRest(bytes, Position(n), WIDTHS[n]);
    assert Position(n + 1) == Position(n) + WIDTHS[n];
    assert Contained(bytes, n);
    TakenNext(before, bytes, n);
  }

  lemma OneMore(c: DebugEventContext, d: DebugEventContext, bytes: seq<byte>, rest: seq<byte>, r: ArmRegisterID, v: nat)
    requires r.Exists() && Progress(c, d, bytes, rest, FieldOf(r)) && r.Size() <= |rest|
    requires v == LeValue(rest[..r.Size()]) && v < Range(r.Size())
    ensures Progress(c, Set(d, r, v), bytes, rest[r.Size()..], FieldOf(r) + 1)
  {
    SetUpdatesValue(d, r, v);
    TakeOne(Values(c), Values(d), bytes, rest, FieldOf(r));
  }

  datatype AccessError = NonFatal

  /** The captured registers as the target holds them. */
  class CapturedRegisters {
    var ctx: DebugEventContext

    ghost predicate Valid()
      reads this
    {
      ctx.Shape()
    }

    constructor (captured: DebugEventContext)
      requires captured.Shape()
      ensures Valid() && ctx == captured
    {
      ctx := captured;
    }

    method GdbSerialize() returns (out: seq<byte>)
      requires Valid()
      ensures out == Serialize(ctx)
    {
      ghost var vs := Values(ctx);
      out := [];
      for i := 0 to GPRS
        invariant out == EncodeFirst(WIDTHS, vs, i)
      {
        out := out + LeBytes(4, ctx.gpr[i]);
      }
      out := out + LeBytes(4, ctx.sp);
      assert out == EncodeFirst(WIDTHS, vs, 14);
      out := out + LeBytes(4, ctx.lr);
      assert out == EncodeFirst(WIDTHS, vs, 15);
      out := out + LeBytes(4, ctx.pc);
      assert out == EncodeFirst(WIDTHS, vs, 16);
      out := out + LeBytes(4, ctx.cpsr);
      assert out == EncodeFirst(WIDTHS, vs, 17);
      for i := 0 to VFPS
        invariant out == EncodeFirst(WIDTHS, vs, 17 + i)
      {
        out := out + LeBytes(8, ctx.vfp[i]);
        assert out == EncodeFirst(WIDTHS, vs, 18 + i);
      }
      out := out + LeBytes(4, ctx.fpscr);
    }

    /** Takes the next register from the packet, or reports that it is not all there. */
    method TakeRegister(r: ArmRegisterID, rest: seq<byte>, ghost c: DebugEventContext, ghost bytes: seq<byte>)
      returns (ok: bool, remaining: seq<byte>)
      requires r.Exists() && Progress(c, ctx, bytes, rest, FieldOf(r))
      modifies this
      ensures ok ==> Progress(c, ctx, bytes, remaining, FieldOf(r) + 1)
      ensures !ok ==> ctx == Deserialize(c, bytes) && |bytes| < PACKET_SIZE
    {
      FieldOffset(FieldOf(r));
      if |rest| < r.Size() {
        Stopped(c, ctx, bytes, rest, FieldOf(r));
        return false, rest;
      }
      LeValueRange(rest[..r.Size()]);
      OneMore(c, ctx, bytes, rest, r, LeValue(rest[..r.Size()]));
      ctx := Set(ctx, r, LeValue(rest[..r.Size()]));
      ok, remaining := true, rest[r.Size()..];
    }

    /** r0 to r12. */
    method TakeGprs(bytes: seq<byte>) returns (ok: bool, rest: seq<byte>)
      requires Valid()
      modifies this
      ensures ok ==> Progress(old(ctx), ctx, bytes, rest, GPRS)
      ensures !ok ==> ctx == Deserialize(old(ctx), bytes) && |bytes| < PACKET_SIZE
    {
      ok, rest := true, bytes;
      assert Taken(Values(ctx), bytes, 0) == Values(ctx);
      for i := 0 to GPRS
        invariant Progress(old(ctx), ctx, bytes, rest, i) && ok
      {
        ok, rest := TakeRegister(Gpr(i), rest, old(ctx), bytes);
        if !ok { return; }
      }
    }

    /** sp, lr, pc and cpsr. */
    method TakeSpecials(from: seq<byte>, ghost c: DebugEventContext, ghost bytes: seq<byte>)
      returns (ok: bool, rest: seq<byte>)
      requires Progress(c, ctx, bytes, from, 13)
      modifies this
      ensures ok ==> Progress(c, ctx, bytes, rest, 17)
      ensures !ok ==> ctx == Deserialize(c, bytes) && |bytes| < PACKET_SIZE
    {
      ok, rest := TakeRegister(Sp, from, c, bytes);
      if !ok { return; }
      ok, rest := TakeRegister(Lr, rest, c, bytes);
      if !ok { return; }
      ok, rest := TakeRegister(Pc, rest, c, bytes);
      if !ok { return; }
      ok, rest := TakeRegister(Cpsr, rest, c, bytes);
    }

    /** d0 to d31 and fpscr. */
    method TakeFloats(from: seq<byte>, ghost c: DebugEventContext, ghost bytes: seq<byte>)
      returns (ok: bool, rest: seq<byte>)
      requires Progress(c, ctx, bytes, from, 17)
      modifies this
      ensures ok ==> Progress(c, ctx, bytes, rest, FIELDS)
      ensures !ok ==> ctx == Deserialize(c, bytes) && |bytes| < PACKET_SIZE
    {
      ok, rest := true, from;
      for i := 0 to VFPS
        invariant Progress(c, ctx, bytes, rest, 17 + i) && ok
      {
        ok, rest := TakeRegister(Fpr(i), rest, c, bytes);
        if !ok { return; }
      }
      ok, rest := TakeRegister(Fpscr, rest, c, bytes);
    }

    method GdbDeserialize(bytes: seq<byte>) returns (ok: bool)
      requires Valid()
      modifies this
      ensures Valid() && ctx == Deserialize(old(ctx), bytes)
      ensures ok <==> PACKET_SIZE <= |bytes|
    {
      ghost var c := ctx;
      var rest;
      ok, rest := TakeGprs(bytes);
      if !ok { return; }
      ok, rest := TakeSpecials(rest, c, bytes);
      if !ok { return; }
      ok, rest := TakeFloats(rest, c, bytes);
      if !ok { return; }
      Stopped(c, ctx, bytes, rest, FIELDS);
    }

    /** Copies a register into a buffer of its size. */
    method ReadRegister(r: ArmRegisterID, buf: array<byte>) returns (result: Result<nat, AccessError>)
      requires Valid() && (r.Exists() ==> buf.Length == r.Size())
      modifies buf
      ensures if r.Exists() then result == Ok(r.Size()) && buf[..] == ReadBytes(ctx, r)
        else result == Err(NonFatal) && buf[..] == old(buf[..])
    {
      if !r.Exists() {
        return Err(NonFatal);
      }
      var bytes := LeBytes(r.Size(), Get(ctx, r));
      for k := 0 to |bytes|
        invariant buf[..k] == bytes[..k]
      {
        buf[k] := bytes[k];
      }
      assert buf[..] == buf[..|bytes|];
      result := Ok(|bytes|);
    }

    /** Sets a register from bytes, which must be as many as it has. */
    method WriteRegister(r: ArmRegisterID, val: seq<byte>) returns (result: Result<(), AccessError>)
      requires Valid()
      modifies this
      ensures Valid()
      ensures result.Ok? <==> r.Exists() && |val| == r.Size()
      ensures result.Ok? ==> LeValue(val) < Range(r.Size()) && ctx == Set(old(ctx), r, LeValue(val))
      ensures result.Err? ==> ctx == old(ctx)
    {
      if !r.Exists() || |val| != r.Size() {
        return Err(NonFatal);
      }
      LeValueRange(val);
      ctx := Set(ctx, r, LeValue(val));
      result := Ok(());
    }
  }
}
