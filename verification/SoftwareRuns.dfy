/**
 * Breakpoints while the program runs, and what becomes of bytes written around them.
 */
module SoftwareRuns {
  import opened Wrappers
  import opened Bytes
  import opened CodeMemory
  import opened SoftwareBreakpoints
  import opened SoftwareInvariants
  import opened SoftwareRefinement

  // ----- Enabled breakpoints are really there -----

  /** The trap instruction is in memory at the breakpoint, and instruction fetches see it. */
  ghost predicate InPlace(st: SoftState, b: SwBreakpoint) {
    forall i :: 0 <= i < |st.data| && i < |st.fetch| && b.InPatch(i) ==>
      st.fetch[i] == st.data[i] == b.Patch().Encode()[i - b.addr]
  }

  /** The patches of two breakpoints share a byte. */
  predicate Overlap(b: SwBreakpoint, c: SwBreakpoint) {
    b.addr < c.addr + c.Patch().Size() && c.addr < b.addr + b.Patch().Size()
  }

  /** A later slot's patch shares a byte with slot `k`'s, so unpausing writes over it. */
  predicate Overwritten(slots: seq<Slot>, k: nat)
    requires k < |slots| && slots[k].Some?
  {
    exists j :: k < j < |slots| && slots[j].Some? && Overlap(slots[j].value, slots[k].value)
  }

  /** A breakpoint is in place exactly if no later slot overlaps it. */
  ghost predicate Armed(st: SoftState) {
    forall k :: 0 <= k < |st.slots| && st.slots[k].Some? ==>
      (InPlace(st, st.slots[k].value) <==> !Overwritten(st.slots, k))
  }

  lemma AlignedOverlap(a: int, c: int)
    requires a % 4 == 0 && c % 2 == 0 && a != c && a < c + 2 && c < a + 4
    ensures c == a + 2
  {
  }

  /** Patches can only collide between the two instruction sets: half an ARM word is Thumb code. */
  lemma OverlapCases(b: SwBreakpoint, c: SwBreakpoint, image: seq<byte>)
    requires Tracks(b, image) && Tracks(c, image) && b.addr != c.addr
    ensures Overlap(b, c) <==>
      || (!b.backup.IsThumb() && c.backup.IsThumb() && c.addr == b.addr + 2)
      || (b.backup.IsThumb() && !c.backup.IsThumb() && b.addr == c.addr + 2)
  {
    if Overlap(b, c) {
      if b.backup.IsThumb() && !c.backup.IsThumb() {
        AlignedOverlap(c.addr, b.addr);
      } else if !b.backup.IsThumb() && c.backup.IsThumb() {
        AlignedOverlap(b.addr, c.addr);
      } else {
        SameSizeApart(b.addr, c.addr, if b.backup.IsThumb() then 2 else 4);
      }
    }
  }

  lemma SameSizeApart(a: int, c: int, size: int)
    requires (size == 2 || size == 4) && a % size == 0 && c % size == 0 && a != c
    ensures a + size <= c || c + size <= a
  {
    if size == 2 {
      assert a % 2 == 0 && c % 2 == 0;
    } else {
      assert a % 4 == 0 && c % 4 == 0;
    }
  }

  lemma OneInstructionSetNeverOverlaps(slots: seq<Slot>, image: seq<byte>, thumb: bool, j: nat, k: nat)
    requires AllTrack(slots, image) && DistinctAddrs(slots)
    requires j < |slots| && slots[j].Some? && k < |slots| && slots[k].Some? && j != k
    requires slots[j].value.backup.IsThumb() == slots[k].value.backup.IsThumb() == thumb
    ensures !Overlap(slots[j].value, slots[k].value)
  {
    assert slots[j].value.addr != slots[k].value.addr;
    OverlapCases(slots[j].value, slots[k].value, image);
  }

  lemma EnableInPlace(st: SoftState, k: nat, image: seq<byte>)
    requires st.WellFormed() && k < SLOTS && st.slots[k].Some? && !st.slots[k].value.enabled
    requires Tracks(st.slots[k].value, image)
    ensures InPlace(IgnoreSlot(st, k, false), st.slots[k].value)
  {
    var b, r := st.slots[k].value, IgnoreSlot(st, k, false);
    forall i | 0 <= i < |r.data| && b.InPatch(i)
      ensures r.fetch[i] == r.data[i] == b.Patch().Encode()[i - b.addr]
    {
      AlignedSpanInLine(b.addr, b.Patch().Size(), i);
    }
  }

  lemma EnableKeepsInPlace(st: SoftState, k: nat, image: seq<byte>, b: SwBreakpoint)
    requires st.WellFormed() && |image| == |st.data| && k < SLOTS && InPlace(st, b)
    requires st.slots[k].Some? ==> Tracks(st.slots[k].value, image) && !Overlap(st.slots[k].value, b)
    ensures InPlace(IgnoreSlot(st, k, false), b)
  {
    if st.slots[k].Some? {
      var r := IgnoreSlot(st, k, false);
      forall i | 0 <= i < |r.data| && b.InPatch(i)
        ensures r.fetch[i] == r.data[i] == b.Patch().Encode()[i - b.addr]
      {
        EnabledData(st.data, st.slots[k].value, image, i);
      }
    }
  }

  /** Slots from `n` on have not had their turn. */
  lemma NotYet(st: SoftState, n: nat, k: nat)
    requires st.WellFormed() && n <= k < SLOTS
    ensures IgnoreSlots(st, n, false).slots[k] == st.slots[k]
  {
    IgnoreSlotsFlags(st, n, false);
  }

  /** Slot `j`'s turn after the slots before it. */
  lemma EnableStep(st: SoftState, j: nat, image: seq<byte>, k: nat)
    requires st.WellFormed() && |image| == |st.data| && k <= j < SLOTS && st.slots[k].Some?
    requires st.slots[j].Some? ==> Tracks(st.slots[j].value, image) && !st.slots[j].value.enabled
    requires k < j ==> InPlace(IgnoreSlots(st, j, false), st.slots[k].value)
    requires k < j && st.slots[j].Some? ==> !Overlap(st.slots[j].value, st.slots[k].value)
    ensures InPlace(IgnoreSlot(IgnoreSlots(st, j, false), j, false), st.slots[k].value)
  {
    NotYet(st, j, j);
    if k == j {
      EnableInPlace(IgnoreSlots(st, j, false), k, image);
    } else {
      EnableKeepsInPlace(IgnoreSlots(st, j, false), j, image, st.slots[k].value);
    }
  }

  lemma {:induction false} UnpauseInPlace(st: SoftState, n: nat, image: seq<byte>, k: nat)
    requires st.WellFormed() && |image| == |st.data| && AllTrack(st.slots, image) && AllEnabled(st.slots, false)
    requires k < n <= SLOTS && st.slots[k].Some?
    requires forall j :: k < j < n && st.slots[j].Some? ==> !Overlap(st.slots[j].value, st.slots[k].value)
    ensures InPlace(IgnoreSlots(st, n, false), st.slots[k].value)
  {
    if k < n - 1 {
      UnpauseInPlace(st, n - 1, image, k);
    }
    EnableStep(st, n - 1, image, k);
  }

  /** The bytes of the two trap instructions. */
  lemma PatchBytes()
    ensures ARM_BKPT.Encode() == [0x70, 0x00, 0x20, 0xE1] && THUMB_BKPT.Encode() == [0x00, 0xBE]
  {
    assert LeBytes(1, 0xE1) == [0xE1] && LeBytes(2, 0xE120) == [0x20, 0xE1];
    assert LeBytes(3, 0xE1_2000) == [0x00, 0x20, 0xE1];
    assert LeBytes(1, 0xBE) == [0xBE];
  }

  /** Of two overlapping breakpoints only one can be in place. */
  lemma OverlapExcludes(st: SoftState, b: SwBreakpoint, c: SwBreakpoint, image: seq<byte>)
    requires st.WellFormed() && Tracks(b, image) && Tracks(c, image) && b.addr != c.addr && Overlap(b, c)
    requires Fits(b, |st.data|) && Fits(c, |st.data|) && InPlace(st, b)
    ensures !InPlace(st, c)
  {
    PatchBytes();
    OverlapCases(b, c, image);
    var i := if b.backup.IsThumb() then b.addr else c.addr;
    assert b.InPatch(i) && c.InPatch(i);
    assert b.Patch().Encode()[i - b.addr] != c.Patch().Encode()[i - c.addr];
  }

  /** What overwrites a breakpoint is not itself overwritten: nothing else reaches into an ARM word. */
  lemma OverwriterIsClear(slots: seq<Slot>, image: seq<byte>, k: nat, j: nat)
    requires AllTrack(slots, image) && DistinctAddrs(slots)
    requires k < j < |slots| && slots[k].Some? && slots[j].Some? && Overlap(slots[j].value, slots[k].value)
    ensures !Overwritten(slots, j)
  {
    OverlapCases(slots[j].value, slots[k].value, image);
    forall l | j < l < |slots| && slots[l].Some?
      ensures !Overlap(slots[l].value, slots[j].value)
    {
      OverlapCases(slots[l].value, slots[j].value, image);
    }
  }

  /** Unpausing does not change which breakpoints overlap. */
  lemma OverwrittenAfterUnpause(slots: seq<Slot>, slots': seq<Slot>, k: nat)
    requires |slots| == |slots'| && k < |slots| && slots[k].Some?
    requires forall j :: 0 <= j < |slots| ==> slots'[j].Some? == slots[j].Some?
    requires forall j :: 0 <= j < |slots| && slots[j].Some? ==> slots'[j].value == slots[j].value.(enabled := true)
    ensures Overwritten(slots', k) <==> Overwritten(slots, k)
  {
    if Overwritten(slots, k) {
      var j :| k < j < |slots| && slots[j].Some? && Overlap(slots[j].value, slots[k].value);
      assert Overlap(slots'[j].value, slots'[k].value);
    }
    if Overwritten(slots', k) {
      var j :| k < j < |slots| && slots'[j].Some? && Overlap(slots'[j].value, slots'[k].value);
      assert Overlap(slots[j].value, slots[k].value);
    }
  }

  /** After unpausing, a breakpoint is in memory and in the fetch view if and only if no later slot overlaps it. */
  lemma UnpauseInPlaceIff(st: SoftState, image: seq<byte>, k: nat)
    requires SoftInv(st, image) && st.paused && k < SLOTS && st.slots[k].Some?
    ensures InPlace(SetIgnored(st, false), st.slots[k].value) <==> !Overwritten(st.slots, k)
  {
    var st0, r := st.(paused := false), SetIgnored(st, false);
    if Overwritten(st.slots, k) {
      var j :| k < j < SLOTS && st.slots[j].Some? && Overlap(st.slots[j].value, st.slots[k].value);
      OverwriterIsClear(st.slots, image, k, j);
      UnpauseInPlace(st0, |st.slots|, image, j);
      OverlapExcludes(r, st.slots[j].value, st.slots[k].value, image);
    } else {
      UnpauseInPlace(st0, |st.slots|, image, k);
    }
  }

  lemma UnpauseArms(st: SoftState, image: seq<byte>)
    requires SoftInv(st, image) && st.paused
    ensures Armed(SetIgnored(st, false))
  {
    var st0, r := st.(paused := false), SetIgnored(st, false);
    IgnoreSlotsFlags(st0, |st.slots|, false);
    forall k | 0 <= k < SLOTS && r.slots[k].Some?
      ensures InPlace(r, r.slots[k].value) <==> !Overwritten(r.slots, k)
    {
      UnpauseInPlaceIff(st, image, k);
      OverwrittenAfterUnpause(st.slots, r.slots, k);
      SamePatch(r, st.slots[k].value, r.slots[k].value);
    }
  }

  lemma SamePatch(st: SoftState, b: SwBreakpoint, b': SwBreakpoint)
    requires b' == b.(enabled := b'.enabled)
    ensures InPlace(st, b) <==> InPlace(st, b')
  {
    assert b'.Patch() == b.Patch() && b'.addr == b.addr;
    assert forall i :: b'.InPatch(i) <==> b.InPatch(i);
  }

  lemma PatchIsTrap(b: SwBreakpoint)
    ensures b.Patch().WellFormed() && b.Patch().IsBkpt()
    ensures b.Patch().IsThumb() == b.backup.IsThumb() && b.Patch().Size() <= b.backup.Size()
  {
  }

  lemma SliceIs(mem: seq<byte>, at: nat, bs: seq<byte>)
    requires at + |bs| <= |mem| && forall i :: at <= i < at + |bs| ==> mem[i] == bs[i - at]
    ensures mem[at..at + |bs|] == bs
  {
  }

  /** A breakpoint in place is fetched as a trap of its own instruction set. */
  lemma InPlaceTraps(st: SoftState, b: SwBreakpoint, image: seq<byte>)
    requires st.WellFormed() && Tracks(b, image) && Fits(b, |st.data|) && InPlace(st, b)
    ensures InstrAddr(st.fetch, b.addr, b.backup.IsThumb())
    ensures ReadInstr(st.fetch, b.addr, b.backup.IsThumb()) == b.Patch() && b.Patch().IsBkpt()
  {
    var patch := b.Patch();
    PatchIsTrap(b);
    forall i | b.addr <= i < b.addr + patch.Size()
      ensures st.fetch[i] == patch.Encode()[i - b.addr]
    {
      assert b.InPatch(i);
    }
    SliceIs(st.fetch, b.addr, patch.Encode());
    ReadOfEncode(st.fetch, b.addr, patch);
  }

  // ----- A breakpoint that another one has written over -----

  /** The top byte of a fetched word, and of a fetched halfword. */
  lemma TopByte(mem: seq<byte>, addr: nat)
    requires addr + 4 <= |mem|
    ensures WordAt(mem, addr) / 0x100_0000 == mem[addr + 3]
    ensures HalfAt(mem, addr) / 0x100 == mem[addr + 1]
  {
    WordBytes(mem[addr..addr + 4]);
    HalfBytes(mem[addr..addr + 2]);
  }

  lemma WordBytes(bs: seq<byte>)
    requires |bs| == 4
    ensures LeValue(bs) == bs[0] as int + 0x100 * bs[1] as int + 0x1_0000 * bs[2] as int + 0x100_0000 * bs[3] as int
  {
    var r1, r2, r3 := bs[1..], bs[2..], bs[3..];
    assert r1[1..] == r2 && r2[1..] == r3 && r3[1..] == [];
    assert LeValue(r3) == bs[3] && LeValue(r2) == bs[2] + 0x100 * LeValue(r3);
    assert LeValue(r1) == bs[1] + 0x100 * LeValue(r2);
  }

  lemma HalfBytes(bs: seq<byte>)
    requires |bs| == 2
    ensures LeValue(bs) == bs[0] as int + 0x100 * bs[1] as int
  {
    assert bs[1..][1..] == [];
    assert LeValue(bs[1..]) == bs[1];
  }

  /** Where a breakpoint was written over, the processor does not fetch a trap of its instruction set. */
  lemma OverwrittenDoesNotTrap(st: SoftState, b: SwBreakpoint, c: SwBreakpoint, image: seq<byte>)
    requires st.WellFormed() && Tracks(b, image) && Tracks(c, image) && b.addr != c.addr && Overlap(b, c)
    requires Fits(b, |st.data|) && Fits(c, |st.data|) && InPlace(st, b)
    requires InstrAddr(st.fetch, c.addr, c.backup.IsThumb())
    ensures !ReadInstr(st.fetch, c.addr, c.backup.IsThumb()).IsBkpt()
  {
    PatchBytes();
    OverlapCases(b, c, image);
    if c.backup.IsThumb() {
      assert b.InPatch(c.addr + 1);
      HalfBytes(st.fetch[c.addr..c.addr + 2]);
    } else {
      assert b.InPatch(c.addr + 3);
      TopByte(st.fetch, c.addr);
    }
  }

  /** While armed, the trap of a breakpoint is fetched at its address if and only if no later slot overlaps it. */
  lemma ArmedTrapsIff(st: SoftState, image: seq<byte>, k: nat)
    requires SoftInv(st, image) && Armed(st) && k < SLOTS && st.slots[k].Some?
    requires InstrAddr(st.fetch, st.slots[k].value.addr, st.slots[k].value.backup.IsThumb())
    ensures ReadInstr(st.fetch, st.slots[k].value.addr, st.slots[k].value.backup.IsThumb()).IsBkpt()
      <==> !Overwritten(st.slots, k)
  {
    var b := st.slots[k].value;
    if Overwritten(st.slots, k) {
      var j :| k < j < SLOTS && st.slots[j].Some? && Overlap(st.slots[j].value, b);
      OverwriterIsClear(st.slots, image, k, j);
      OverwrittenDoesNotTrap(st, st.slots[j].value, b, image);
    } else {
      InPlaceTraps(st, b, image);
    }
  }

  lemma {:induction false} EmptySlotsIgnored(st: SoftState, m: nat, n: nat)
    requires st.WellFormed() && m <= n <= SLOTS && forall k :: m <= k < n ==> st.slots[k].None?
    ensures IgnoreSlots(st, n, false) == IgnoreSlots(st, m, false)
  {
    if m < n {
      EmptySlotsIgnored(st, m, n - 1);
      IgnoreSlotsFlags(st, n - 1, false);
    }
  }

  /** Enabling a Thumb breakpoint leaves the two bytes before it, in memory and in the fetch view. */
  lemma LowerHalfStays(st: SoftState, image: seq<byte>, arm: SwBreakpoint, k: nat)
    requires Tracking(st, image) && k < SLOTS && st.slots[k].Some? && InPlace(st, arm)
    requires Tracks(arm, image) && Fits(arm, |st.data|) && !arm.backup.IsThumb()
    requires st.slots[k].value.backup.IsThumb() && st.slots[k].value.addr == arm.addr + 2
    ensures var r := IgnoreSlot(st, k, false);
      r.fetch[arm.addr] == arm.Patch().Encode()[0] && r.fetch[arm.addr + 1] == arm.Patch().Encode()[1]
  {
    forall i | arm.addr <= i < arm.addr + 2
      ensures IgnoreSlot(st, k, false).fetch[i] == arm.Patch().Encode()[i - arm.addr]
    {
      assert arm.InPatch(i);
      EnabledData(st.data, st.slots[k].value, image, i);
    }
  }

  /** The ARM trap's lower half below the Thumb trap. */
  lemma BytesOfClobbered(mem: seq<byte>, arm: SwBreakpoint, thumb: SwBreakpoint)
    requires arm.addr + 4 <= |mem| && !arm.backup.IsThumb() && thumb.backup.IsThumb() && thumb.addr == arm.addr + 2
    requires mem[arm.addr] == arm.Patch().Encode()[0] && mem[arm.addr + 1] == arm.Patch().Encode()[1]
    requires mem[thumb.addr] == thumb.Patch().Encode()[0] && mem[thumb.addr + 1] == thumb.Patch().Encode()[1]
    ensures WordAt(mem, arm.addr) == 0xBE00_0070
  {
    PatchBytes();
    WordBytes(mem[arm.addr..arm.addr + 4]);
  }

  /** An ARM breakpoint in the first slot, a Thumb one two bytes further on in the second, no others. */
  ghost predicate Colliding(slots: seq<Slot>) {
    && |slots| == SLOTS && slots[0].Some? && slots[1].Some?
    && (forall k :: 1 < k < SLOTS ==> slots[k].None?)
    && !slots[0].value.backup.IsThumb() && slots[1].value.backup.IsThumb()
    && slots[1].value.addr == slots[0].value.addr + 2
  }

  lemma CollidingLower(st: SoftState, image: seq<byte>, n: nat)
    requires Tracking(st, image) && AllEnabled(st.slots, false) && Colliding(st.slots) && n == 2
    ensures var b, r := st.slots[0].value, IgnoreSlots(st, n, false);
      r.fetch[b.addr] == b.Patch().Encode()[0] && r.fetch[b.addr + 1] == b.Patch().Encode()[1]
  {
    IgnoreSlotsTracking(st, n - 1, false, image);
    IgnoreSlotsFlags(st, n - 1, false);
    UnpauseInPlace(st, n - 1, image, 0);
    LowerHalfStays(IgnoreSlots(st, n - 1, false), image, st.slots[0].value, 1);
  }

  lemma CollidingUpper(st: SoftState, image: seq<byte>, n: nat)
    requires Tracking(st, image) && AllEnabled(st.slots, false) && Colliding(st.slots) && n == 2
    ensures var b, r := st.slots[1].value, IgnoreSlots(st, n, false);
      r.fetch[b.addr] == b.Patch().Encode()[0] && r.fetch[b.addr + 1] == b.Patch().Encode()[1]
  {
    var b := st.slots[1].value;
    UnpauseInPlace(st, n, image, 1);
    assert b.InPatch(b.addr) && b.InPatch(b.addr + 1);
  }

  lemma CollidingWord(st: SoftState, image: seq<byte>, n: nat)
    requires Tracking(st, image) && AllEnabled(st.slots, false) && Colliding(st.slots) && n == 2
    ensures WordAt(IgnoreSlots(st, n, false).fetch, st.slots[0].value.addr) == 0xBE00_0070
  {
    CollidingLower(st, image, n);
    CollidingUpper(st, image, n);
    BytesOfClobbered(IgnoreSlots(st, n, false).fetch, st.slots[0].value, st.slots[1].value);
  }

  /** The input that shows it: the word that is then fetched at the ARM breakpoint is no trap. */
  lemma ThumbInsideArm(st: SoftState, image: seq<byte>)
    requires SoftInv(st, image) && st.paused && Colliding(st.slots)
    ensures WordAt(SetIgnored(st, false).fetch, st.slots[0].value.addr) == 0xBE00_0070
    ensures !Arm(0xBE00_0070).IsBkpt()
  {
    var st0, n := st.(paused := false), 2;
    assert Tracking(st0, image);
    EmptySlotsIgnored(st0, n, |st.slots|);
    CollidingWord(st0, image, n);
  }

  /** Both registrations of that input are accepted, in these slots. */
  lemma ThumbInsideArmAccepted(st: SoftState, image: seq<byte>, addr: u32)
    requires SoftInv(st, image) && st.paused && (forall k :: 0 <= k < SLOTS ==> st.slots[k].None?)
    requires LOWEST_WRITABLE <= addr && InstrAddr(image, addr, false) && InstrAddr(image, addr + 2, true)
    ensures st.data == image
    ensures var (st1, first) := Register(st, addr, false, false);
      && first == Ok(()) && st1.data == image
      && var (st2, second) := Register(st1, addr + 2, true, false);
        && second == Ok(()) && SoftInv(st2, image) && st2.paused
        && Colliding(st2.slots) && st2.slots[0].value.addr == addr && Overwritten(st2.slots, 0)
  {
    PausedMemoryIsOriginal(st, image);
    assert FindAddr(st.slots, addr, 0).None? && FindFree(st.slots, 0) == Some(0);
    RegisterInv(st, addr, false, false, image);
    var st1 := Register(st, addr, false, false).0;
    assert st1.slots == st.slots[0 := Some(NewBreakpoint(image, addr, false, false))];
    assert FindAddr(st1.slots, addr + 2, 0).None? && FindFree(st1.slots, 0) == Some(1);
    RegisterInv(st1, addr + 2, true, false, image);
    var st2 := Register(st1, addr + 2, true, false).0;
    assert st2.slots == st1.slots[1 := Some(NewBreakpoint(image, addr + 2, true, false))];
    assert Overlap(st2.slots[1].value, st2.slots[0].value);
  }

  // ----- Removal while the program runs -----

  /** No other slot's patch reaches into slot `k`'s instruction. */
  ghost predicate ExtentAlone(slots: seq<Slot>, k: nat)
    requires k < |slots| && slots[k].Some?
  {
    forall j, i :: 0 <= j < |slots| && j != k && slots[j].Some? && slots[j].value.InPatch(i) ==>
      !slots[k].value.InExtent(i)
  }

  /** Dropping a live breakpoint puts the instruction back and, with the sync, lets fetches see it. */
  lemma DropLive(st: SoftState, k: nat, image: seq<byte>, touched: set<int>)
    requires SoftInv(st, image) && !st.paused && Coherent(st, touched)
    requires k < SLOTS && st.slots[k].Some? && ExtentAlone(st.slots, k)
    ensures var b := st.slots[k].value;
      var data := SetEnabledData(st.data, b, false);
      var r := st.(data := data, fetch := SyncLine(st.fetch, data, b.addr), slots := st.slots[k := None]);
      SoftInv(r, image) && Coherent(r, touched)
  {
    var b := st.slots[k].value;
    var data := SetEnabledData(st.data, b, false);
    var r := st.(data := data, fetch := SyncLine(st.fetch, data, b.addr), slots := st.slots[k := None]);
    forall i | 0 <= i < |image|
      ensures data[i] == if b.InExtent(i) then image[i] else st.data[i]
      ensures data[i] != st.data[i] ==> InLine(i, b.addr)
    {
      DisabledData(st.data, b, image, i);
      if data[i] != st.data[i] {
        OnlyOwnPatch(st, k, image, i);
        AlignedSpanInLine(b.addr, b.Patch().Size(), i);
      }
    }
    forall i | 0 <= i < |image| && data[i] != image[i]
      ensures Patched(r.slots, i)
    {
      var j :| 0 <= j < SLOTS && st.slots[j].Some? && st.slots[j].value.enabled && st.slots[j].value.InPatch(i);
      PatchInExtent(b, i);
      assert r.slots[j] == st.slots[j];
    }
  }

  lemma {:induction false} RemoveLiveSlots(st: SoftState, n: nat, k: nat, internal: bool)
    requires st.WellFormed() && n <= SLOTS && k < SLOTS && st.slots[k].Some?
    requires DistinctAddrs(st.slots) && NoneUnwanted(st.slots)
    requires SlotAfterRemove(st.slots[k], st.slots[k].value.addr, internal).None?
    ensures var b := st.slots[k].value;
      RemoveSlots(st, n, b.addr, internal).0
        == if n <= k then st else st.(data := SetEnabledData(st.data, b, false), slots := st.slots[k := None])
  {
    var addr := st.slots[k].value.addr;
    if n > 0 {
      RemoveLiveSlots(st, n - 1, k, internal);
      var before := RemoveSlots(st, n - 1, addr, internal).0;
      assert before.slots[n - 1] == st.slots[n - 1];
      if n - 1 != k && st.slots[n - 1].Some? {
        assert st.slots[n - 1].value.addr != addr;
        assert before.slots[n - 1 := Some(before.slots[n - 1].value)] == before.slots;
      }
    }
  }

  /** Removing a breakpoint while the program runs keeps memory and fetches right as well. */
  lemma RemoveLive(st: SoftState, k: nat, internal: bool, image: seq<byte>, touched: set<int>)
    requires SoftInv(st, image) && !st.paused && Coherent(st, touched)
    requires k < SLOTS && st.slots[k].Some? && ExtentAlone(st.slots, k)
    requires SlotAfterRemove(st.slots[k], st.slots[k].value.addr, internal).None?
    ensures var (r, changed) := Remove(st, st.slots[k].value.addr, internal);
      changed && SoftInv(r, image) && Coherent(r, touched)
  {
    RemoveLiveSlots(st, |st.slots|, k, internal);
    RemoveSlotsChanged(st, |st.slots|, st.slots[k].value.addr, internal);
    DropLive(st, k, image, touched);
  }

  /** Within an undisturbed instruction only its own patch differs from the program. */
  lemma OnlyOwnPatch(st: SoftState, k: nat, image: seq<byte>, i: int)
    requires SoftInv(st, image) && k < SLOTS && st.slots[k].Some? && ExtentAlone(st.slots, k)
    requires 0 <= i < |image| && st.slots[k].value.InExtent(i) && st.data[i] != image[i]
    ensures st.slots[k].value.InPatch(i)
  {
    var j :| 0 <= j < SLOTS && st.slots[j].Some? && st.slots[j].value.enabled && st.slots[j].value.InPatch(i);
  }

  // ----- Writes to memory -----

  /** Byte `i` belongs to an instruction that a breakpoint stands for. */
  ghost predicate InSomeExtent(slots: seq<Slot>, i: int) {
    exists k :: 0 <= k < |slots| && slots[k].Some? && slots[k].value.InExtent(i)
  }

  /** A store of `bs` at `at`, by the program or by a debugger; the fetch view is not synced. */
  function Store(st: SoftState, at: nat, bs: seq<byte>): (r: SoftState)
    requires st.WellFormed() && at + |bs| <= |st.data|
    ensures r.WellFormed()
  {
    st.(data := Splice(st.data, at, bs))
  }

  /** The `n` addresses from `at` on. */
  ghost function Span(at: nat, n: nat): (r: set<int>)
    ensures forall i :: i in r <==> at <= i < at + n
  {
    if n == 0 then {} else Span(at, n - 1) + {at + n - 1}
  }

  ghost predicate AvoidsExtents(slots: seq<Slot>, at: nat, n: nat) {
    forall i :: at <= i < at + n ==> !InSomeExtent(slots, i)
  }

  lemma TracksAfterStore(b: SwBreakpoint, image: seq<byte>, at: nat, bs: seq<byte>)
    requires Tracks(b, image) && at + |bs| <= |image|
    requires forall i :: at <= i < at + |bs| ==> !b.InExtent(i)
    ensures Tracks(b, Splice(image, at, bs))
  {
    var image', thumb := Splice(image, at, bs), b.backup.IsThumb();
    assert forall i :: b.InExtent(i) ==> image'[i] == image[i];
    if thumb {
      assert image'[b.addr..b.addr + 2] == image[b.addr..b.addr + 2];
      if b.backup.Thumb32? {
        assert image'[b.addr + 2..b.addr + 4] == image[b.addr + 2..b.addr + 4];
      }
    } else {
      assert image'[b.addr..b.addr + 4] == image[b.addr..b.addr + 4];
    }
  }

  /** A write that stays clear of tracked instructions is a write to the program itself. */
  lemma StoreInv(st: SoftState, image: seq<byte>, at: nat, bs: seq<byte>, touched: set<int>)
    requires SoftInv(st, image) && Coherent(st, touched) && at + |bs| <= |image|
    requires AvoidsExtents(st.slots, at, |bs|)
    ensures SoftInv(Store(st, at, bs), Splice(image, at, bs))
    ensures Coherent(Store(st, at, bs), touched + Span(at, |bs|))
  {
    forall k | 0 <= k < SLOTS && st.slots[k].Some?
      ensures Tracks(st.slots[k].value, Splice(image, at, bs))
    {
      forall i | at <= i < at + |bs|
        ensures !st.slots[k].value.InExtent(i)
      {
        assert !InSomeExtent(st.slots, i);
      }
      TracksAfterStore(st.slots[k].value, image, at, bs);
    }
  }

  lemma StoreKeepsArmed(st: SoftState, at: nat, bs: seq<byte>)
    requires st.WellFormed() && Armed(st) && at + |bs| <= |st.data| && AvoidsExtents(st.slots, at, |bs|)
    ensures Armed(Store(st, at, bs))
  {
    var r := Store(st, at, bs);
    forall k | 0 <= k < |r.slots| && r.slots[k].Some?
      ensures InPlace(r, r.slots[k].value) <==> InPlace(st, r.slots[k].value)
    {
      var b := r.slots[k].value;
      forall i | 0 <= i < |r.data| && b.InPatch(i)
        ensures r.data[i] == st.data[i]
      {
        PatchInExtent(b, i);
        assert InSomeExtent(st.slots, i);
      }
    }
  }

  // ----- A write over a tracked instruction is lost -----

  lemma {:induction false} UnpauseOutsideExtents(st: SoftState, n: nat, i: int)
    requires st.WellFormed() && n <= SLOTS && 0 <= i < |st.data| && !InSomeExtent(st.slots, i)
    ensures IgnoreSlots(st, n, false).data[i] == st.data[i]
  {
    if n > 0 {
      UnpauseOutsideExtents(st, n - 1, i);
      IgnoreSlotsFlags(st, n - 1, false);
      if st.slots[n - 1].Some? {
        assert !st.slots[n - 1].value.InExtent(i);
        PatchInExtent(st.slots[n - 1].value, i);
      }
    }
  }

  lemma {:induction false} PauseRestoresExtents(st: SoftState, n: nat, image: seq<byte>, i: int)
    requires st.WellFormed() && AllTrack(st.slots, image) && |image| == |st.data| && AllEnabled(st.slots, true)
    requires n <= SLOTS && 0 <= i < |st.data|
    ensures IgnoreSlots(st, n, true).data[i] == if InSomeExtent(st.slots[..n], i) then image[i] else st.data[i]
  {
    if n > 0 {
      PauseRestoresExtents(st, n - 1, image, i);
      IgnoreSlotsFlags(st, n - 1, true);
      var before, slot := IgnoreSlots(st, n - 1, true), st.slots[n - 1];
      assert before.slots[n - 1] == slot;
      assert st.slots[..n] == st.slots[..n - 1] + [slot];
      ExtentSnoc(st.slots[..n - 1], slot, i);
      if slot.Some? {
        DisabledData(before.data, slot.value, image, i);
      }
    }
  }

  lemma ExtentSnoc(slots: seq<Slot>, slot: Slot, i: int)
    ensures InSomeExtent(slots + [slot], i) <==> InSomeExtent(slots, i) || (slot.Some? && slot.value.InExtent(i))
  {
    var all := slots + [slot];
    assert all[|slots|] == slot;
    if InSomeExtent(slots, i) {
      var k :| 0 <= k < |slots| && slots[k].Some? && slots[k].value.InExtent(i);
      assert all[k].value.InExtent(i);
    }
  }

  lemma ExtentsAfterUnpause(st: SoftState, i: int)
    requires st.WellFormed()
    ensures InSomeExtent(SetIgnored(st, false).slots, i) <==> InSomeExtent(st.slots, i)
  {
    var r := SetIgnored(st, false);
    IgnoreSlotsFlags(st.(paused := false), |st.slots|, false);
    if InSomeExtent(st.slots, i) {
      var k :| 0 <= k < SLOTS && st.slots[k].Some? && st.slots[k].value.InExtent(i);
      assert r.slots[k].value.InExtent(i);
    }
    if InSomeExtent(r.slots, i) {
      var k :| 0 <= k < SLOTS && r.slots[k].Some? && r.slots[k].value.InExtent(i);
      assert st.slots[k].value.InExtent(i);
    }
  }

  /** Running and stopping again: tracked instructions revert to their backups, all else stays. */
  lemma ResumeAndStop(st: SoftState, image: seq<byte>, i: int)
    requires st.WellFormed() && AllTrack(st.slots, image) && |image| == |st.data| && 0 <= i < |st.data|
    ensures SetIgnored(SetIgnored(st, false), true).data[i] == if InSomeExtent(st.slots, i) then image[i] else st.data[i]
  {
    var running := SetIgnored(st, false);
    IgnoreSlotsFlags(st.(paused := false), |st.slots|, false);
    ExtentsAfterUnpause(st, i);
    PauseRestoresExtents(running.(paused := true), |st.slots|, image, i);
    assert running.slots[..|st.slots|] == running.slots;
    if !InSomeExtent(st.slots, i) {
      UnpauseOutsideExtents(st.(paused := false), |st.slots|, i);
    }
  }

  /**
   * A debugger's write made while stopped survives the next resume and stop exactly when it
   * changes no byte of a tracked instruction: the backups are not refreshed by writes.
   */
  lemma WriteSurvivesIff(st: SoftState, image: seq<byte>, at: nat, bs: seq<byte>)
    requires SoftInv(st, image) && st.paused && at + |bs| <= |image|
    ensures SetIgnored(SetIgnored(Store(st, at, bs), false), true).data == Store(st, at, bs).data
      <==> forall i :: at <= i < at + |bs| && InSomeExtent(st.slots, i) ==> bs[i - at] == st.data[i]
  {
    var written := Store(st, at, bs);
    var stopped := SetIgnored(SetIgnored(written, false), true);
    PausedMemoryIsOriginal(st, image);
    forall i | 0 <= i < |image|
      ensures stopped.data[i] == if InSomeExtent(st.slots, i) then image[i] else written.data[i]
    {
      ResumeAndStop(written, image, i);
    }
    if forall i :: at <= i < at + |bs| && InSomeExtent(st.slots, i) ==> bs[i - at] == st.data[i] {
      assert forall i :: 0 <= i < |image| ==> stopped.data[i] == written.data[i];
      assert stopped.data == written.data;
    } else {
      var i :| at <= i < at + |bs| && InSomeExtent(st.slots, i) && bs[i - at] != st.data[i];
      assert stopped.data[i] != written.data[i];
    }
  }
}
