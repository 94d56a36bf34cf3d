/**
 * The slot table as two sets of addresses: those the user wants and those the debugger wants.
 */
module SoftwareRefinement {
  import opened Wrappers
  import opened Bytes
  import opened CodeMemory
  import opened SoftwareBreakpoints
  import opened SoftwareInvariants

  predicate WantedBy(reason: BreakpointReason, internal: bool) {
    if internal then reason.internal else reason.user
  }

  /** Addresses wanted by the debugger itself (`internal`) or by the user. */
  ghost function Wanted(slots: seq<Slot>, internal: bool): set<int> {
    set k | 0 <= k < |slots| && slots[k].Some? && WantedBy(slots[k].value.reason, internal) :: slots[k].value.addr
  }

  /** Addresses that occupy a slot. */
  ghost function Tracked(slots: seq<Slot>): set<int> {
    set k | 0 <= k < |slots| && slots[k].Some? :: slots[k].value.addr
  }

  ghost predicate NoneUnwanted(slots: seq<Slot>) {
    forall k :: 0 <= k < |slots| && slots[k].Some? ==> !slots[k].value.reason.Unwanted()
  }

  /** No slot is held for nobody: the tracked addresses are exactly the wanted ones. */
  lemma TrackedIsWanted(slots: seq<Slot>)
    requires NoneUnwanted(slots)
    ensures Tracked(slots) == Wanted(slots, false) + Wanted(slots, true)
  {
    forall a | a in Tracked(slots)
      ensures a in Wanted(slots, false) + Wanted(slots, true)
    {
      var k :| 0 <= k < |slots| && slots[k].Some? && slots[k].value.addr == a;
      assert WantedBy(slots[k].value.reason, false) || WantedBy(slots[k].value.reason, true);
    }
  }

  lemma TrackedSnoc(slots: seq<Slot>, last: Slot)
    ensures Tracked(slots + [last]) == if last.Some? then Tracked(slots) + {last.value.addr} else Tracked(slots)
  {
    var all := slots + [last];
    assert forall k :: 0 <= k < |slots| ==> all[k] == slots[k];
    if last.Some? {
      assert all[|slots|] == last;
    }
    forall a | a in Tracked(slots)
      ensures a in Tracked(all)
    {
      var k :| 0 <= k < |slots| && slots[k].Some? && slots[k].value.addr == a;
      assert all[k].Some? && all[k].value.addr == a;
    }
  }

  /** With distinct addresses, a slot is free exactly when fewer addresses than slots are tracked. */
  lemma {:induction false} TrackedSize(slots: seq<Slot>)
    requires DistinctAddrs(slots)
    ensures |Tracked(slots)| <= |slots|
    ensures |Tracked(slots)| == |slots| <==> forall k :: 0 <= k < |slots| ==> slots[k].Some?
  {
    if slots != [] {
      var front, last := slots[..|slots| - 1], slots[|slots| - 1];
      assert slots == front + [last];
      TrackedSize(front);
      TrackedSnoc(front, last);
      if last.Some? {
        assert last.value.addr !in Tracked(front);
      }
    }
  }

  lemma FoundIsTracked(slots: seq<Slot>, addr: int)
    ensures FindAddr(slots, addr, 0).Some? <==> addr in Tracked(slots)
  {
    if addr in Tracked(slots) {
      var k :| 0 <= k < |slots| && slots[k].Some? && slots[k].value.addr == addr;
      assert AtSlot(slots, k, addr);
    }
  }

  lemma FoundWanted(slots: seq<Slot>, k: nat, internal: bool)
    requires DistinctAddrs(slots) && k < |slots| && slots[k].Some?
    ensures slots[k].value.addr in Wanted(slots, internal) <==> WantedBy(slots[k].value.reason, internal)
  {
  }

  lemma WantedAfterUpdate(slots: seq<Slot>, k: nat, b: SwBreakpoint, internal: bool)
    requires DistinctAddrs(slots) && k < |slots|
    requires slots[k].Some? ==> slots[k].value.addr == b.addr
    requires slots[k].None? ==> b.addr !in Tracked(slots)
    ensures DistinctAddrs(slots[k := Some(b)])
    ensures Wanted(slots[k := Some(b)], internal)
      == if WantedBy(b.reason, internal) then Wanted(slots, internal) + {b.addr} else Wanted(slots, internal) - {b.addr}
  {
    var slots' := slots[k := Some(b)];
    assert forall j :: 0 <= j < |slots| && j != k ==> slots'[j] == slots[j];
    assert forall j :: 0 <= j < |slots| && j != k && slots[j].Some? ==> slots[j].value.addr != b.addr;
    forall a | a in Wanted(slots, internal) && a != b.addr
      ensures a in Wanted(slots', internal)
    {
      var j :| 0 <= j < |slots| && slots[j].Some? && WantedBy(slots[j].value.reason, internal) && slots[j].value.addr == a;
      assert slots'[j] == slots[j];
    }
    forall a | a in Wanted(slots', internal) && a != b.addr
      ensures a in Wanted(slots, internal)
    {
      var j :| 0 <= j < |slots| && slots'[j].Some? && WantedBy(slots'[j].value.reason, internal) && slots'[j].value.addr == a;
      assert slots'[j] == slots[j];
    }
    assert slots'[k].value == b;
    if !WantedBy(b.reason, internal) {
      assert b.addr !in Wanted(slots', internal);
    }
  }

  /**
   * Registration succeeds exactly when the address is not yet wanted for this purpose and either
   * already has a slot or one is free; it then adds that address to that set and nothing else.
   */
  lemma RegisterRefines(st: SoftState, addr: u32, thumb: bool, internal: bool)
    requires st.WellFormed() && DistinctAddrs(st.slots) && NoneUnwanted(st.slots)
    requires InstrAddr(st.data, addr, thumb) && 0x0300_0000 <= addr
    ensures var (r, result) := Register(st, addr, thumb, internal);
      && (result.Ok? <==> addr !in Wanted(st.slots, internal) && (addr in Tracked(st.slots) || |Tracked(st.slots)| < 16))
      && (result.Err? ==> r == st && result.error == if addr in Wanted(st.slots, internal) then AlreadyExists else NoSpace)
      && (result.Ok? ==> Wanted(r.slots, internal) == Wanted(st.slots, internal) + {addr})
      && Wanted(r.slots, !internal) == Wanted(st.slots, !internal)
      && DistinctAddrs(r.slots) && NoneUnwanted(r.slots)
  {
    var slots := st.slots;
    FoundIsTracked(slots, addr);
    TrackedSize(slots);
    match FindAddr(slots, addr, 0)
    case Some(k) =>
      var b := slots[k].value;
      FoundWanted(slots, k, internal);
      FoundWanted(slots, k, !internal);
      WantedAfterUpdate(slots, k, b.(reason := Flag(b.reason, internal)), internal);
      WantedAfterUpdate(slots, k, b.(reason := Flag(b.reason, internal)), !internal);
    case None =>
      assert addr !in Wanted(slots, internal) && addr !in Wanted(slots, !internal);
      match FindFree(slots, 0)
      case None =>
      case Some(j) =>
        var b := NewBreakpoint(st.data, addr, thumb, internal).(enabled := !st.paused);
        assert Register(st, addr, thumb, internal).0.slots == slots[j := Some(b)];
        WantedAfterUpdate(slots, j, b, internal);
        WantedAfterUpdate(slots, j, b, !internal);
  }

  /** Below the writable region every registration is refused, and nothing changes. */
  lemma RegisterLow(st: SoftState, addr: u32, thumb: bool, internal: bool)
    requires st.WellFormed() && addr < 0x0300_0000
    ensures Register(st, addr, thumb, internal) == (st, Err(CannotWrite))
  {
  }

  /** An empty table takes any breakpoint. */
  lemma EmptyTableTakes(st: SoftState, addr: u32, thumb: bool, internal: bool)
    requires st.WellFormed() && forall k :: 0 <= k < SLOTS ==> st.slots[k].None?
    requires InstrAddr(st.data, addr, thumb) && LOWEST_WRITABLE <= addr
    ensures Register(st, addr, thumb, internal).1 == Ok(())
  {
    assert FindAddr(st.slots, addr, 0).None?;
    assert FindFree(st.slots, 0) == Some(0);
  }

  // ----- Removal -----

  /** What removing `addr` leaves in one slot. */
  function SlotAfterRemove(slot: Slot, addr: int, internal: bool): Slot {
    match slot
    case None => None
    case Some(b) =>
      var b' := Unflagged(b, addr, internal);
      if b'.reason.Unwanted() then None else Some(b')
  }

  lemma {:induction false} RemoveSlotsPointwise(st: SoftState, n: nat, addr: u32, internal: bool)
    requires st.WellFormed() && n <= SLOTS
    ensures var r := RemoveSlots(st, n, addr, internal).0;
      && (forall k :: 0 <= k < n ==> r.slots[k] == SlotAfterRemove(st.slots[k], addr, internal))
      && (forall k :: n <= k < SLOTS ==> r.slots[k] == st.slots[k])
      && r.fetch == st.fetch
  {
    if n > 0 {
      RemoveSlotsPointwise(st, n - 1, addr, internal);
    }
  }

  /** Some slot among the first `n` is dropped by the removal. */
  ghost predicate Drops(slots: seq<Slot>, n: nat, addr: int, internal: bool)
    requires n <= |slots|
  {
    exists k :: 0 <= k < n && slots[k].Some? && SlotAfterRemove(slots[k], addr, internal).None?
  }

  lemma DropsSnoc(slots: seq<Slot>, n: nat, addr: int, internal: bool)
    requires 0 < n <= |slots|
    ensures Drops(slots, n, addr, internal) <==>
      Drops(slots, n - 1, addr, internal) || (slots[n - 1].Some? && SlotAfterRemove(slots[n - 1], addr, internal).None?)
  {
  }

  lemma {:induction false} RemoveSlotsChanged(st: SoftState, n: nat, addr: u32, internal: bool)
    requires st.WellFormed() && n <= SLOTS
    ensures RemoveSlots(st, n, addr, internal).1 <==> Drops(st.slots, n, addr, internal)
  {
    if n > 0 {
      RemoveSlotsChanged(st, n - 1, addr, internal);
      RemoveSlotsPointwise(st, n - 1, addr, internal);
      DropsSnoc(st.slots, n, addr, internal);
      assert RemoveSlots(st, n - 1, addr, internal).0.slots[n - 1] == st.slots[n - 1];
    }
  }

  lemma {:induction false} RemoveSlotsDisabledData(st: SoftState, n: nat, addr: u32, internal: bool)
    requires st.WellFormed() && n <= SLOTS && AllEnabled(st.slots, false)
    ensures RemoveSlots(st, n, addr, internal).0.data == st.data
  {
    if n > 0 {
      RemoveSlotsDisabledData(st, n - 1, addr, internal);
      RemoveSlotsPointwise(st, n - 1, addr, internal);
      assert RemoveSlots(st, n - 1, addr, internal).0.slots[n - 1] == st.slots[n - 1];
    }
  }

  lemma WantedAfterRemove(slots: seq<Slot>, slots': seq<Slot>, addr: int, internal: bool, side: bool)
    requires NoneUnwanted(slots) && |slots'| == |slots|
    requires forall k :: 0 <= k < |slots| ==> slots'[k] == SlotAfterRemove(slots[k], addr, internal)
    ensures Wanted(slots', side) == if side == internal then Wanted(slots, side) - {addr} else Wanted(slots, side)
  {
    forall a | a in Wanted(slots, side) && !(side == internal && a == addr)
      ensures a in Wanted(slots', side)
    {
      var k :| 0 <= k < |slots| && slots[k].Some? && WantedBy(slots[k].value.reason, side) && slots[k].value.addr == a;
      assert slots'[k].Some? && slots'[k].value.addr == a;
    }
    forall a | a in Wanted(slots', side)
      ensures a in Wanted(slots, side) && !(side == internal && a == addr)
    {
      var k :| 0 <= k < |slots'| && slots'[k].Some? && WantedBy(slots'[k].value.reason, side) && slots'[k].value.addr == a;
      assert slots[k].Some? && slots[k].value.addr == a;
    }
  }

  /**
   * Removal takes the address out of one of the two sets, and reports a change exactly when
   * that leaves nobody wanting it.
   */
  lemma RemoveRefines(st: SoftState, addr: u32, internal: bool)
    requires st.WellFormed() && DistinctAddrs(st.slots) && NoneUnwanted(st.slots)
    ensures var (r, changed) := Remove(st, addr, internal);
      && Wanted(r.slots, internal) == Wanted(st.slots, internal) - {addr}
      && Wanted(r.slots, !internal) == Wanted(st.slots, !internal)
      && (changed <==> addr in Tracked(st.slots) && addr !in Tracked(r.slots))
      && DistinctAddrs(r.slots) && NoneUnwanted(r.slots)
  {
    RemoveSlotsPointwise(st, |st.slots|, addr, internal);
    RemoveSlotsChanged(st, |st.slots|, addr, internal);
    var (r, changed) := Remove(st, addr, internal);
    WantedAfterRemove(st.slots, r.slots, addr, internal, internal);
    WantedAfterRemove(st.slots, r.slots, addr, internal, !internal);
    DropsMeansUntracked(st.slots, r.slots, addr, internal);
  }

  lemma DropsMeansUntracked(slots: seq<Slot>, slots': seq<Slot>, addr: int, internal: bool)
    requires NoneUnwanted(slots) && DistinctAddrs(slots) && |slots'| == |slots|
    requires forall k :: 0 <= k < |slots| ==> slots'[k] == SlotAfterRemove(slots[k], addr, internal)
    ensures Drops(slots, |slots|, addr, internal) <==> addr in Tracked(slots) && addr !in Tracked(slots')
  {
    if Drops(slots, |slots|, addr, internal) {
      var k :| 0 <= k < |slots| && slots[k].Some? && SlotAfterRemove(slots[k], addr, internal).None?;
      assert slots[k].value.addr == addr;
      assert forall j :: 0 <= j < |slots| && j != k && slots[j].Some? ==> slots[j].value.addr != addr;
    } else if addr in Tracked(slots) {
      var k :| 0 <= k < |slots| && slots[k].Some? && slots[k].value.addr == addr;
      assert slots'[k].Some? && slots'[k].value.addr == addr;
    }
  }

  // ----- Registration and removal keep the memory invariants -----

  /** A fresh backup agrees with the program, provided it is read from bytes no patch covers. */
  lemma RegisterInv(st: SoftState, addr: u32, thumb: bool, internal: bool, image: seq<byte>)
    requires SoftInv(st, image) && InstrAddr(st.data, addr, thumb) && InstrAddr(image, addr, thumb)
    requires ReadInstr(st.data, addr, thumb) == ReadInstr(image, addr, thumb)
    ensures SoftInv(Register(st, addr, thumb, internal).0, image)
  {
    var (r, result) := Register(st, addr, thumb, internal);
    if result.Ok? {
      RegisterRefines(st, addr, thumb, internal);
      if FindAddr(st.slots, addr, 0).Some? {
        SameFlagsSamePatches(st.slots, r.slots);
      } else {
        InstallClean(st, FindFree(st.slots, 0).value, addr, thumb, internal, image);
      }
    }
  }

  lemma SameFlagsSamePatches(slots: seq<Slot>, slots': seq<Slot>)
    requires |slots| == |slots'|
    requires forall k :: 0 <= k < |slots| && slots[k].Some? ==>
      slots'[k].Some? && slots'[k].value.(reason := slots[k].value.reason) == slots[k].value
    ensures forall i :: Patched(slots, i) ==> Patched(slots', i)
  {
    forall i | Patched(slots, i)
      ensures Patched(slots', i)
    {
      var k :| 0 <= k < |slots| && slots[k].Some? && slots[k].value.enabled && slots[k].value.InPatch(i);
      assert slots'[k].value.InPatch(i);
    }
  }

  lemma InstallClean(st: SoftState, j: nat, addr: u32, thumb: bool, internal: bool, image: seq<byte>)
    requires Tracking(st, image) && j < SLOTS && st.slots[j].None? && LOWEST_WRITABLE <= addr
    requires InstrAddr(st.data, addr, thumb) && InstrAddr(image, addr, thumb)
    requires ReadInstr(st.data, addr, thumb) == ReadInstr(image, addr, thumb)
    ensures Clean(Install(st, j, addr, thumb, internal), image)
  {
    var r := Install(st, j, addr, thumb, internal);
    var b := NewBreakpoint(st.data, addr, thumb, internal);
    forall i | 0 <= i < |image| && r.data[i] != image[i]
      ensures Patched(r.slots, i)
    {
      if !st.paused && b.InPatch(i) {
        assert r.slots[j].value.InPatch(i);
      } else {
        if !st.paused {
          EnabledData(st.data, b, image, i);
        }
        var k :| 0 <= k < SLOTS && st.slots[k].Some? && st.slots[k].value.enabled && st.slots[k].value.InPatch(i);
        assert r.slots[k] == st.slots[k];
      }
    }
  }

  lemma RegisterCoherent(st: SoftState, addr: u32, thumb: bool, internal: bool, image: seq<byte>, touched: set<int>)
    requires SoftInv(st, image) && InstrAddr(st.data, addr, thumb) && InstrAddr(image, addr, thumb)
    requires ReadInstr(st.data, addr, thumb) == ReadInstr(image, addr, thumb)
    requires Coherent(st, touched)
    ensures Coherent(Register(st, addr, thumb, internal).0, touched)
  {
    var (r, result) := Register(st, addr, thumb, internal);
    if r.data != st.data {
      var b := NewBreakpoint(st.data, addr, thumb, internal);
      forall i | 0 <= i < |r.data| && r.fetch[i] != r.data[i]
        ensures i in touched
      {
        EnabledData(st.data, b, image, i);
      }
    }
  }

  /** Removing while paused changes no byte of memory. */
  lemma RemoveInv(st: SoftState, addr: u32, internal: bool, image: seq<byte>, touched: set<int>)
    requires SoftInv(st, image) && st.paused && Coherent(st, touched)
    ensures var r := Remove(st, addr, internal).0;
      SoftInv(r, image) && r.data == st.data && Coherent(r, touched)
  {
    RemoveSlotsPointwise(st, |st.slots|, addr, internal);
    RemoveSlotsDisabledData(st, |st.slots|, addr, internal);
    RemoveRefines(st, addr, internal);
    PausedMemoryIsOriginal(st, image);
  }
}
