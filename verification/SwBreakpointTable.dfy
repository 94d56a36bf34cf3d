/**
 * The software breakpoint slots of the debug target, updated in place.
 *
 * Each method is tied to the operation of the same name on `SoftState`.
 */
module SwBreakpointTable {
  import opened Wrappers
  import opened Bytes
  import opened CodeMemory
  import opened SoftwareBreakpoints

  class SwBreakpointTable {
    const mem: CodeMemory
    const breaks: array<Slot>
    /** While set, enabling new breakpoints is put off until they are unpaused. */
    var paused: bool

    ghost predicate Valid()
      reads breaks
    {
      && mem.Valid()
      && breaks.Length == SLOTS
      && breaks as object != mem.data && breaks as object != mem.fetch
      && forall k :: 0 <= k < SLOTS && breaks[k].Some? ==> Fits(breaks[k].value, MEMORY_SIZE)
    }

    ghost function State(): (st: SoftState)
      requires Valid()
      reads this, breaks, mem.data, mem.fetch
      ensures st.WellFormed() && |st.data| == MEMORY_SIZE
    {
      SoftState(mem.data[..], mem.fetch[..], breaks[..], paused)
    }

    /** No breakpoints, none paused. */
    constructor (memory: CodeMemory)
      requires memory.Valid()
      ensures Valid() && fresh(breaks) && mem == memory
      ensures State() == SoftState(memory.data[..], memory.fetch[..], seq(SLOTS, _ => None), false)
    {
      mem := memory;
      breaks := new Slot[SLOTS](_ => None);
      paused := false;
      new;
      assert breaks[..] == seq(SLOTS, _ => None);
    }

    /** Overwrites the instruction with a trap, or puts it back; does nothing if already so. */
    method SetEnabled(b: SwBreakpoint, enabled: bool) returns (b': SwBreakpoint)
      requires Valid() && Fits(b, MEMORY_SIZE)
      modifies mem.data
      ensures b' == b.(enabled := enabled)
      ensures mem.data[..] == SetEnabledData(old(mem.data[..]), b, enabled)
    {
      b' := b.(enabled := enabled);
      if b.enabled == enabled {
        return;
      }
      if enabled {
        mem.Write(b.addr, b.Patch());
      } else {
        mem.Write(b.addr, b.backup);
      }
    }

    method SetBreakpointsIgnored(ignored: bool)
      requires Valid()
      modifies `paused, breaks, mem.data, mem.fetch
      ensures Valid() && State() == SetIgnored(old(State()), ignored)
    {
      paused := ignored;
      ghost var before := State();
      for k := 0 to breaks.Length
        invariant Valid() && State() == IgnoreSlots(before, k, ignored)
      {
        if breaks[k].Some? {
          var b := SetEnabled(breaks[k].value, !ignored);
          mem.SyncInstruction(b.addr);
          breaks[k] := Some(b);
        }
      }
    }

    method RegisterSwBreakpoint(addr: u32, thumb: bool, internal: bool)
      returns (result: Result<(), BreakpointError>)
      requires Valid() && (LOWEST_WRITABLE <= addr ==> InstrAddr(mem.data[..], addr, thumb))
      modifies breaks, mem.data, mem.fetch
      ensures Valid()
      ensures (State(), result) == Register(old(State()), addr, thumb, internal)
    {
      if addr < LOWEST_WRITABLE {
        return Err(CannotWrite);
      }
      var nextInactive: Option<nat> := None;
      for k := 0 to breaks.Length
        invariant unchanged(breaks) && unchanged(mem.data) && unchanged(mem.fetch)
        invariant forall j :: 0 <= j < k ==> !AtSlot(breaks[..], j, addr)
        invariant nextInactive.None? ==> forall j :: 0 <= j < k ==> breaks[j].Some?
        invariant nextInactive.Some? ==> nextInactive.value < k && breaks[nextInactive.value].None?
        invariant nextInactive.Some? ==> forall j :: 0 <= j < nextInactive.value ==> breaks[j].Some?
      {
        if breaks[k].Some? && breaks[k].value.addr == addr {
          assert AtSlot(breaks[..], k, addr);
          assert FindAddr(breaks[..], addr, 0) == Some(k);
          result := FlagSlot(k, internal);
          return;
        }
        if breaks[k].None? && nextInactive.None? {
          nextInactive := Some(k);
        }
      }
      assert FindAddr(breaks[..], addr, 0).None?;
      if nextInactive.None? {
        return Err(NoSpace);
      }
      assert FindFree(breaks[..], 0) == nextInactive;
      InstallAt(nextInactive.value, addr, thumb, internal);
      result := Ok(());
    }

    /** An existing breakpoint takes on one more purpose, unless it already serves it. */
    method FlagSlot(k: nat, internal: bool) returns (result: Result<(), BreakpointError>)
      requires Valid() && k < SLOTS && breaks[k].Some?
      modifies breaks
      ensures Valid()
      ensures var b := old(breaks[k]).value;
        if CanFlag(b.reason, internal) then
          result == Ok(()) && breaks[..] == old(breaks[..])[k := Some(b.(reason := Flag(b.reason, internal)))]
        else
          result == Err(AlreadyExists) && breaks[..] == old(breaks[..])
    {
      var b := breaks[k].value;
      if internal && !b.reason.internal {
        breaks[k] := Some(b.(reason := b.reason.(internal := true)));
      } else if !internal && !b.reason.user {
        breaks[k] := Some(b.(reason := b.reason.(user := true)));
      } else {
        return Err(AlreadyExists);
      }
      result := Ok(());
    }

    method InstallAt(j: nat, addr: u32, thumb: bool, internal: bool)
      requires Valid() && j < SLOTS && InstrAddr(mem.data[..], addr, thumb)
      modifies breaks, mem.data, mem.fetch
      ensures Valid() && State() == Install(old(State()), j, addr, thumb, internal)
    {
      var backup := mem.Read(addr, thumb);
      var b := SwBreakpoint(false, addr, backup, BreakpointReason(!internal, internal));
      if !paused {
        b := SetEnabled(b, true);
        mem.SyncInstruction(b.addr);
      }
      breaks[j] := Some(b);
    }

    method RemoveSwBreakpoint(addr: u32, internal: bool) returns (changed: bool)
      requires Valid()
      modifies breaks, mem.data, mem.fetch
      ensures Valid() && (State(), changed) == Remove(old(State()), addr, internal)
    {
      changed := false;
      for k := 0 to breaks.Length
        invariant Valid() && (State(), changed) == RemoveSlots(old(State()), k, addr, internal)
      {
        if breaks[k].Some? {
          var b := breaks[k].value;
          if b.addr == addr {
            if internal {
              b := b.(reason := b.reason.(internal := false));
            } else {
              b := b.(reason := b.reason.(user := false));
            }
          }
          if b.reason.Unwanted() {
            var _ := SetEnabled(b, false);
            breaks[k] := None;
            changed := true;
          } else {
            breaks[k] := Some(b);
          }
        }
      }
      if changed {
        mem.SyncInstruction(addr);
      }
    }

    /** The first slot tracking `addr`. */
    method QuerySwBreakpoint(addr: u32) returns (id: Option<nat>)
      requires Valid()
      ensures id == FindAddr(breaks[..], addr, 0)
    {
      for k := 0 to breaks.Length
        invariant forall j :: 0 <= j < k ==> !AtSlot(breaks[..], j, addr)
      {
        if breaks[k].Some? && breaks[k].value.addr == addr {
          assert AtSlot(breaks[..], k, addr);
          return Some(k);
        }
      }
      id := None;
    }
  }
}
