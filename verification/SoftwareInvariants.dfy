/**
 * What the software breakpoint operations keep: program memory is the program's own outside
 * enabled patches, instruction fetches agree with it, and enabled breakpoints are in place.
 */
module SoftwareInvariants {
  import opened Bytes
  import opened CodeMemory
  import opened SoftwareBreakpoints

  // ----- The invariant -----

  /** The breakpoint in a slot stands for an instruction of the program `image`. */
  ghost predicate Tracks(b: SwBreakpoint, image: seq<byte>) {
    && LOWEST_WRITABLE <= b.addr
    && !b.reason.Unwanted()
    && InstrAddr(image, b.addr, b.backup.IsThumb())
    && b.backup == ReadInstr(image, b.addr, b.backup.IsThumb())
  }

  ghost predicate AllTrack(slots: seq<Slot>, image: seq<byte>) {
    forall k :: 0 <= k < |slots| && slots[k].Some? ==> Tracks(slots[k].value, image)
  }

  ghost predicate DistinctAddrs(slots: seq<Slot>) {
    forall j, k :: 0 <= j < k < |slots| && slots[j].Some? && slots[k].Some? ==>
      slots[j].value.addr != slots[k].value.addr
  }

  ghost predicate AllEnabled(slots: seq<Slot>, enabled: bool) {
    forall k :: 0 <= k < |slots| && slots[k].Some? ==> slots[k].value.enabled == enabled
  }

  /** Byte `i` is overwritten by an enabled breakpoint. */
  ghost predicate Patched(slots: seq<Slot>, i: int) {
    exists k :: 0 <= k < |slots| && slots[k].Some? && slots[k].value.enabled && slots[k].value.InPatch(i)
  }

  /** Memory is the program's own except under enabled patches. */
  ghost predicate Clean(st: SoftState, image: seq<byte>) {
    && |st.data| == |image|
    && forall i :: 0 <= i < |image| && st.data[i] != image[i] ==> Patched(st.slots, i)
  }

  /** Everything but the enabled flags of the slots. */
  ghost predicate Tracking(st: SoftState, image: seq<byte>) {
    && st.WellFormed()
    && AllTrack(st.slots, image)
    && DistinctAddrs(st.slots)
    && Clean(st, image)
  }

  ghost predicate SoftInv(st: SoftState, image: seq<byte>) {
    Tracking(st, image) && AllEnabled(st.slots, !st.paused)
  }

  /** The fetch view differs from the data view at most at bytes in `touched`. */
  ghost predicate Coherent(st: SoftState, touched: set<int>) {
    forall i :: 0 <= i < |st.data| && i < |st.fetch| && st.fetch[i] != st.data[i] ==> i in touched
  }

  /** While breakpoints are paused, memory as a debugger reads it is the program's own. */
  lemma PausedMemoryIsOriginal(st: SoftState, image: seq<byte>)
    requires SoftInv(st, image) && st.paused
    ensures st.data == image
  {
    assert forall i :: 0 <= i < |image| ==> st.data[i] == image[i];
  }

  /** Breakpoints never disturb memory below the lowest writable address. */
  lemma LowMemoryIsOriginal(st: SoftState, image: seq<byte>, i: int)
    requires Tracking(st, image) && 0 <= i < |image| && i < LOWEST_WRITABLE
    ensures st.data[i] == image[i]
  {
  }

  // ----- One slot of a pause or an unpause -----

  /** Enabling rewrites only the patch, and every rewritten byte is in the synced line. */
  lemma EnabledData(data: seq<byte>, b: SwBreakpoint, image: seq<byte>, i: int)
    requires Fits(b, |data|) && Tracks(b, image) && |image| == |data| && 0 <= i < |data|
    ensures SetEnabledData(data, b, true)[i] != data[i] ==> b.InPatch(i) && InLine(i, b.addr)
  {
    if b.InPatch(i) {
      AlignedSpanInLine(b.addr, b.Patch().Size(), i);
    }
  }

  /** Disabling puts the program's own bytes back over the whole instruction. */
  lemma DisabledData(data: seq<byte>, b: SwBreakpoint, image: seq<byte>, i: int)
    requires Fits(b, |data|) && Tracks(b, image) && |image| == |data| && 0 <= i < |data| && b.enabled
    ensures SetEnabledData(data, b, false)[i] == if b.InExtent(i) then image[i] else data[i]
  {
    EncodeOfRead(image, b.addr, b.backup.IsThumb());
    if b.InExtent(i) {
      assert b.backup.Encode()[i - b.addr] == image[b.addr..b.addr + b.backup.Size()][i - b.addr];
    }
  }

  lemma PatchInExtent(b: SwBreakpoint, i: int)
    ensures b.InPatch(i) ==> b.InExtent(i)
  {
  }

  lemma IgnoreSlotPatched(st: SoftState, k: nat, ignored: bool, i: int)
    requires st.WellFormed() && k < SLOTS && st.slots[k].Some?
    ensures Patched(IgnoreSlot(st, k, ignored).slots, i) <==>
      ((!ignored && st.slots[k].value.InPatch(i))
       || (exists j :: 0 <= j < SLOTS && j != k && st.slots[j].Some? && st.slots[j].value.enabled && st.slots[j].value.InPatch(i)))
  {
    var slots, slots' := st.slots, IgnoreSlot(st, k, ignored).slots;
    assert forall j :: 0 <= j < SLOTS && j != k ==> slots'[j] == slots[j];
    if !ignored && slots[k].value.InPatch(i) {
      assert slots'[k].value.InPatch(i);
    }
  }

  lemma IgnoreSlotClean(st: SoftState, k: nat, ignored: bool, image: seq<byte>)
    requires Tracking(st, image) && k < SLOTS
    ensures Clean(IgnoreSlot(st, k, ignored), image)
  {
    if st.slots[k].Some? {
      var b, st' := st.slots[k].value, IgnoreSlot(st, k, ignored);
      forall i | 0 <= i < |image| && st'.data[i] != image[i]
        ensures Patched(st'.slots, i)
      {
        IgnoreSlotPatched(st, k, ignored, i);
        PatchInExtent(b, i);
        if !ignored {
          EnabledData(st.data, b, image, i);
        } else if b.enabled {
          DisabledData(st.data, b, image, i);
        }
      }
    }
  }

  lemma IgnoreSlotTracking(st: SoftState, k: nat, ignored: bool, image: seq<byte>)
    requires Tracking(st, image) && k < SLOTS
    ensures Tracking(IgnoreSlot(st, k, ignored), image)
  {
    IgnoreSlotClean(st, k, ignored, image);
  }

  /** While pausing, what is not yet coherent is only what later slots will put right. */
  ghost predicate PausingCoherent(st: SoftState, touched: set<int>) {
    forall i :: 0 <= i < |st.data| && i < |st.fetch| && st.fetch[i] != st.data[i] ==>
      i in touched || Patched(st.slots, i)
  }

  lemma PauseSlotCoherent(st: SoftState, k: nat, image: seq<byte>, touched: set<int>)
    requires Tracking(st, image) && k < SLOTS && PausingCoherent(st, touched)
    ensures PausingCoherent(IgnoreSlot(st, k, true), touched)
  {
    if st.slots[k].Some? {
      var b, st' := st.slots[k].value, IgnoreSlot(st, k, true);
      forall i | 0 <= i < |st'.data| && st'.fetch[i] != st'.data[i]
        ensures i in touched || Patched(st'.slots, i)
      {
        IgnoreSlotPatched(st, k, true, i);
        if b.InPatch(i) {
          AlignedSpanInLine(b.addr, b.Patch().Size(), i);
        }
        if b.enabled {
          DisabledData(st.data, b, image, i);
        }
      }
    }
  }

  lemma UnpauseSlotCoherent(st: SoftState, k: nat, image: seq<byte>, touched: set<int>)
    requires Tracking(st, image) && k < SLOTS && Coherent(st, touched)
    ensures Coherent(IgnoreSlot(st, k, false), touched)
  {
    if st.slots[k].Some? {
      var b, st' := st.slots[k].value, IgnoreSlot(st, k, false);
      forall i | 0 <= i < |st'.data| && st'.fetch[i] != st'.data[i]
        ensures i in touched
      {
        EnabledData(st.data, b, image, i);
      }
    }
  }

  // ----- All slots -----

  lemma {:induction false} IgnoreSlotsFlags(st: SoftState, n: nat, ignored: bool)
    requires st.WellFormed() && n <= SLOTS
    ensures var r := IgnoreSlots(st, n, ignored);
      && (forall k :: n <= k < SLOTS ==> r.slots[k] == st.slots[k])
      && (forall k :: 0 <= k < n ==> r.slots[k].Some? == st.slots[k].Some?)
      && (forall k :: 0 <= k < n && st.slots[k].Some? ==>
            r.slots[k].value == st.slots[k].value.(enabled := !ignored))
  {
    if n > 0 {
      IgnoreSlotsFlags(st, n - 1, ignored);
    }
  }

  lemma {:induction false} IgnoreSlotsTracking(st: SoftState, n: nat, ignored: bool, image: seq<byte>)
    requires Tracking(st, image) && n <= SLOTS
    ensures Tracking(IgnoreSlots(st, n, ignored), image)
  {
    if n > 0 {
      var before := IgnoreSlots(st, n - 1, ignored);
      IgnoreSlotsTracking(st, n - 1, ignored, image);
      IgnoreSlotTracking(before, n - 1, ignored, image);
      assert IgnoreSlots(st, n, ignored) == IgnoreSlot(before, n - 1, ignored);
    }
  }

  lemma {:induction false} PauseSlotsCoherent(st: SoftState, n: nat, image: seq<byte>, touched: set<int>)
    requires Tracking(st, image) && n <= SLOTS && Coherent(st, touched)
    ensures PausingCoherent(IgnoreSlots(st, n, true), touched)
  {
    if n > 0 {
      var before := IgnoreSlots(st, n - 1, true);
      PauseSlotsCoherent(st, n - 1, image, touched);
      IgnoreSlotsTracking(st, n - 1, true, image);
      PauseSlotCoherent(before, n - 1, image, touched);
      assert IgnoreSlots(st, n, true) == IgnoreSlot(before, n - 1, true);
    }
  }

  lemma {:induction false} UnpauseSlotsCoherent(st: SoftState, n: nat, image: seq<byte>, touched: set<int>)
    requires Tracking(st, image) && n <= SLOTS && Coherent(st, touched)
    ensures Coherent(IgnoreSlots(st, n, false), touched)
  {
    if n > 0 {
      var before := IgnoreSlots(st, n - 1, false);
      UnpauseSlotsCoherent(st, n - 1, image, touched);
      IgnoreSlotsTracking(st, n - 1, false, image);
      UnpauseSlotCoherent(before, n - 1, image, touched);
      assert IgnoreSlots(st, n, false) == IgnoreSlot(before, n - 1, false);
    }
  }

  /** Pausing and unpausing keep the invariant, whatever the slots held. */
  lemma SetIgnoredInv(st: SoftState, ignored: bool, image: seq<byte>)
    requires Tracking(st, image)
    ensures SoftInv(SetIgnored(st, ignored), image)
  {
    var st0 := st.(paused := ignored);
    IgnoreSlotsTracking(st0, |st.slots|, ignored, image);
    IgnoreSlotsFlags(st0, |st.slots|, ignored);
  }

  /**
   * Pausing and unpausing leave no byte newly different between the two views, although each
   * slot syncs one line only and restoring a 32-bit Thumb instruction can write into the next.
   */
  lemma SetIgnoredCoherent(st: SoftState, ignored: bool, image: seq<byte>, touched: set<int>)
    requires Tracking(st, image) && Coherent(st, touched)
    ensures Coherent(SetIgnored(st, ignored), touched)
  {
    var st0 := st.(paused := ignored);
    if ignored {
      PauseSlotsCoherent(st0, |st.slots|, image, touched);
      IgnoreSlotsFlags(st0, |st.slots|, ignored);
    } else {
      UnpauseSlotsCoherent(st0, |st.slots|, image, touched);
    }
  }
}
