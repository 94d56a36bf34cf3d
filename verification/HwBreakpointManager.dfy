/**
 * The hardware breakpoint registers, updated in place, as a set of breakpoint points.
 */
module HwBreakpointManager {
  import opened Wrappers
  import opened Bytes
  import opened SoftwareBreakpoints
  import opened HardwareBreakpoints

  /** Size of the architected register file, of which a device implements a prefix. */
  const REGISTERS := 16
  const RESET_SENTINEL: u32 := 0xF0F0_F0F0

  datatype BreakpointType =
    | UnlinkedInstrAddressMatch
    | LinkedInstrAddressMatch
    | UnlinkedContextIDMatch
    | LinkedContextIDMatch
    | UnlinkedInstrAddressMismatch
    | LinkedInstrAddressMismatch

  datatype PrivilegeModeFilter = UserSystemSupervisorOnly | Level1Only | UserOnly | AllModes

  datatype BreakpointControl = BreakpointControl(
    enabled: bool,
    kind: BreakpointType,
    bas: nat,
    addressRangeMask: nat,
    linkedIndex: nat,
    modes: PrivilegeModeFilter)

  datatype WatchpointControl = WatchpointControl(enabled: bool, bits: nat)

  const WATCHPOINT_DISABLED := WatchpointControl(false, 0)

  const DISABLED := BreakpointControl(false, UnlinkedInstrAddressMatch, 0, 0, 0, UserSystemSupervisorOnly)

  function TypeOf(s: Specificity): BreakpointType {
    match s
    case Match => UnlinkedInstrAddressMatch
    case Mismatch => UnlinkedInstrAddressMismatch
  }

  /** An enabled register as this manager sets it: an exact address, in the modes of user code. */
  predicate Managed(c: BreakpointControl) {
    && (c.kind.UnlinkedInstrAddressMatch? || c.kind.UnlinkedInstrAddressMismatch?)
    && c.addressRangeMask == 0
    && c.modes.UserSystemSupervisorOnly?
  }

  function KeyOf(word: u32, c: BreakpointControl): Point {
    Point(if c.kind.UnlinkedInstrAddressMismatch? then Mismatch else Match, word, c.bas)
  }

  ghost function PointSet(values: seq<u32>, ctrls: seq<BreakpointControl>, n: nat): set<Point>
    requires n <= |values| && n <= |ctrls|
  {
    set i | 0 <= i < n && ctrls[i].enabled :: KeyOf(values[i], ctrls[i])
  }

  ghost predicate DistinctKeys(values: seq<u32>, ctrls: seq<BreakpointControl>, n: nat)
    requires n <= |values| && n <= |ctrls|
  {
    forall i, j :: 0 <= i < j < n && ctrls[i].enabled && ctrls[j].enabled ==>
      KeyOf(values[i], ctrls[i]) != KeyOf(values[j], ctrls[j])
  }

  ghost function CountUsed(used: seq<bool>): (r: nat)
    ensures r <= |used|
  {
    if used == [] then 0 else CountUsed(used[..|used| - 1]) + if used[|used| - 1] then 1 else 0
  }

  lemma PointSetSnoc(values: seq<u32>, ctrls: seq<BreakpointControl>, n: nat)
    requires 0 < n <= |values| && n <= |ctrls|
    ensures PointSet(values, ctrls, n) == PointSet(values, ctrls, n - 1)
      + if ctrls[n - 1].enabled then {KeyOf(values[n - 1], ctrls[n - 1])} else {}
  {
  }

  /** Used registers and breakpoint points are equally many. */
  lemma {:induction false} PointCount(values: seq<u32>, ctrls: seq<BreakpointControl>, used: seq<bool>, n: nat)
    requires n <= |values| && n <= |ctrls| && n <= |used| && DistinctKeys(values, ctrls, n)
    requires forall i :: 0 <= i < n ==> used[i] == ctrls[i].enabled
    ensures |PointSet(values, ctrls, n)| == CountUsed(used[..n])
  {
    if n > 0 {
      PointCount(values, ctrls, used, n - 1);
      PointSetSnoc(values, ctrls, n);
      assert used[..n][..n - 1] == used[..n - 1];
      if ctrls[n - 1].enabled {
        assert KeyOf(values[n - 1], ctrls[n - 1]) !in PointSet(values, ctrls, n - 1);
      }
    }
  }

  lemma {:induction false} CountUsedTail(used: seq<bool>, n: nat)
    requires n <= |used| && forall i :: n <= i < |used| ==> !used[i]
    ensures CountUsed(used) == CountUsed(used[..n])
  {
    if n == |used| {
      assert used[..n] == used;
    } else {
      CountUsedTail(used[..|used| - 1], n);
      assert used[..|used| - 1][..n] == used[..n];
    }
  }

  /** The count reaches the length exactly when no register is free. */
  lemma {:induction false} CountUsedFull(used: seq<bool>)
    ensures CountUsed(used) == |used| <==> forall i :: 0 <= i < |used| ==> used[i]
  {
    if used != [] {
      CountUsedFull(used[..|used| - 1]);
    }
  }

  lemma PointSetAfterAdd(values: seq<u32>, ctrls: seq<BreakpointControl>, n: nat, k: nat, word: u32, c: BreakpointControl)
    requires k < n <= |values| && n <= |ctrls| && DistinctKeys(values, ctrls, n)
    requires !ctrls[k].enabled && c.enabled && KeyOf(word, c) !in PointSet(values, ctrls, n)
    ensures PointSet(values[k := word], ctrls[k := c], n) == PointSet(values, ctrls, n) + {KeyOf(word, c)}
    ensures DistinctKeys(values[k := word], ctrls[k := c], n)
  {
    var values', ctrls' := values[k := word], ctrls[k := c];
    assert forall i :: 0 <= i < n && i != k ==> values'[i] == values[i] && ctrls'[i] == ctrls[i];
    forall p | p in PointSet(values, ctrls, n)
      ensures p in PointSet(values', ctrls', n)
    {
      var i :| 0 <= i < n && ctrls[i].enabled && p == KeyOf(values[i], ctrls[i]);
      assert ctrls'[i].enabled && p == KeyOf(values'[i], ctrls'[i]);
    }
    assert KeyOf(values'[k], ctrls'[k]) == KeyOf(word, c);
  }

  lemma PointSetAfterRemove(values: seq<u32>, ctrls: seq<BreakpointControl>, n: nat, k: nat, c: BreakpointControl)
    requires k < n <= |values| && n <= |ctrls| && DistinctKeys(values, ctrls, n)
    requires ctrls[k].enabled && !c.enabled
    ensures PointSet(values, ctrls[k := c], n) == PointSet(values, ctrls, n) - {KeyOf(values[k], ctrls[k])}
    ensures DistinctKeys(values, ctrls[k := c], n)
  {
    var ctrls' := ctrls[k := c];
    assert forall i :: 0 <= i < n && i != k ==> ctrls'[i] == ctrls[i];
    forall p | p in PointSet(values, ctrls, n) && p != KeyOf(values[k], ctrls[k])
      ensures p in PointSet(values, ctrls', n)
    {
      var i :| 0 <= i < n && ctrls[i].enabled && p == KeyOf(values[i], ctrls[i]);
      assert ctrls'[i].enabled;
    }
  }

  class HwBreakpointManager {
    const numBreakpoints: nat
    const values: array<u32>
    const ctrls: array<BreakpointControl>
    const used: array<bool>
    const numWatchpoints: nat
    const watchValues: array<u32>
    const watchCtrls: array<WatchpointControl>
    /** Which of the debug modes take a debug event. */
    var haltingMode: bool
    var monitorMode: bool
    /** The software lock on the debug registers. */
    var locked: bool
    /** The method-of-entry field of the status register, written by the processor. */
    var entry: Option<DebugEventReason>

    ghost predicate Shape() {
      && 1 <= numBreakpoints <= REGISTERS
      && values.Length == ctrls.Length == used.Length == REGISTERS
      && 1 <= numWatchpoints <= REGISTERS
      && watchValues.Length == watchCtrls.Length == REGISTERS && watchValues != values
    }

    /** `used` marks exactly the enabled registers, which all hold different points. */
    ghost predicate Valid()
      reads values, ctrls, used
    {
      && Shape()
      && (forall i :: 0 <= i < REGISTERS ==> used[i] == (i < numBreakpoints && ctrls[i].enabled))
      && (forall i :: 0 <= i < numBreakpoints && ctrls[i].enabled ==> Managed(ctrls[i]))
      && DistinctKeys(values[..], ctrls[..], numBreakpoints)
    }

    ghost predicate WatchpointsOff()
      requires Shape()
      reads watchCtrls
    {
      forall i :: 0 <= i < numWatchpoints ==> !watchCtrls[i].enabled
    }

    ghost function Points(): set<Point>
      requires Shape()
      reads values, ctrls
    {
      PointSet(values[..], ctrls[..], numBreakpoints)
    }

    ghost function View(): HwView
      requires Shape()
      reads this, values, ctrls
    {
      HwView(numBreakpoints, Points(), locked, entry)
    }

    /** Takes over registers with arbitrary contents and leaves them all disabled and locked. */
    constructor Setup(n: nat, oldValues: array<u32>, oldCtrls: array<BreakpointControl>,
                      w: nat, oldWatchValues: array<u32>, oldWatchCtrls: array<WatchpointControl>)
      requires 1 <= n <= REGISTERS && oldValues.Length == oldCtrls.Length == REGISTERS
      requires 1 <= w <= REGISTERS && oldWatchValues.Length == oldWatchCtrls.Length == REGISTERS
      requires oldWatchValues != oldValues
      modifies oldValues, oldCtrls, oldWatchValues, oldWatchCtrls
      ensures Valid() && View() == HwView(n, {}, true, None)
      ensures values == oldValues && ctrls == oldCtrls && fresh(used)
      ensures numWatchpoints == w && watchCtrls == oldWatchCtrls && WatchpointsOff() && monitorMode && !haltingMode
    {
      numBreakpoints := n;
      values := oldValues;
      ctrls := oldCtrls;
      numWatchpoints := w;
      watchValues := oldWatchValues;
      watchCtrls := oldWatchCtrls;
      haltingMode := *;
      monitorMode := *;
      used := new bool[REGISTERS];
      locked := false;
      entry := None;
      new;
      Reset();
      SetLocked(true);
    }

    method SetLocked(lock: bool)
      requires Shape()
      modifies `locked
      ensures View() == old(View()).(locked := lock)
    {
      locked := lock;
    }

    /** Disables every breakpoint and watchpoint, and has debug events raise exceptions. */
    method Reset()
      requires Shape() && !locked
      modifies values, ctrls, used, watchValues, watchCtrls, `haltingMode, `monitorMode
      ensures Valid() && Points() == {}
      ensures WatchpointsOff() && monitorMode && !haltingMode
    {
      for idx := 0 to numBreakpoints
        invariant forall i :: 0 <= i < idx ==> !ctrls[i].enabled
      {
        ctrls[idx] := DISABLED;
        values[idx] := RESET_SENTINEL;
      }
      for idx := 0 to REGISTERS
        invariant forall i :: 0 <= i < numBreakpoints ==> !ctrls[i].enabled
        invariant forall i :: 0 <= i < idx ==> !used[i]
      {
        used[idx] := false;
      }
      ResetWatchpoints();
      haltingMode := false;
      monitorMode := true;
    }

    method ResetWatchpoints()
      requires Shape() && !locked
      modifies watchValues, watchCtrls
      ensures WatchpointsOff()
    {
      for idx := 0 to numWatchpoints
        invariant forall i :: 0 <= i < idx ==> !watchCtrls[i].enabled
      {
        watchCtrls[idx] := WATCHPOINT_DISABLED;
        watchValues[idx] := RESET_SENTINEL;
      }
    }

    /** One pass over the registers: is the point already there, and which register is free first? */
    method Scan(p: Point) returns (duplicate: bool, free: Option<nat>)
      requires Valid()
      ensures duplicate <==> p in Points()
      ensures free.Some? ==> free.value < numBreakpoints && !ctrls[free.value].enabled
      ensures free.None? <==> |Points()| >= numBreakpoints
    {
      duplicate, free := false, None;
      for idx := 0 to numBreakpoints
        invariant duplicate <==> p in PointSet(values[..], ctrls[..], idx)
        invariant free.Some? ==> free.value < idx && !ctrls[free.value].enabled
        invariant free.None? ==> forall i :: 0 <= i < idx ==> used[i]
      {
        PointSetSnoc(values[..], ctrls[..], idx + 1);
        var ctrl := ctrls[idx];
        if !ctrl.enabled && !used[idx] && free.None? {
          free := Some(idx);
        }
        if ctrl.enabled && ctrl.kind == TypeOf(p.specificity) && values[idx] == p.word && ctrl.bas == p.bas {
          duplicate := true;
        }
      }
      FullIff();
    }

    lemma FullIff()
      requires Valid()
      ensures |Points()| == CountUsed(used[..])
      ensures |Points()| <= numBreakpoints
      ensures |Points()| == numBreakpoints <==> forall i :: 0 <= i < numBreakpoints ==> used[i]
    {
      PointCount(values[..], ctrls[..], used[..], numBreakpoints);
      CountUsedTail(used[..], numBreakpoints);
      CountUsedFull(used[..][..numBreakpoints]);
    }

    method AddBreakpointAt(addr: u32, specificity: Specificity, kind: ArmBreakpointKind)
      returns (result: Result<(), BreakpointError>)
      requires Valid() && !locked
      modifies values, ctrls, used
      ensures Valid()
      ensures (View(), result) == HwAdd(old(View()), addr, specificity, kind)
    {
      var split := SplitAddr(addr, kind);
      if split.Err? {
        return Err(split.error);
      }
      var (newWord, newBas) := split.value;
      var p := Point(specificity, newWord, newBas);
      var duplicate, free := Scan(p);
      if duplicate {
        return Err(AlreadyExists);
      }
      if free.None? {
        return Err(NoSpace);
      }
      FullIff();
      Enable(free.value, p);
      result := Ok(());
    }

    /** Programs a free register. */
    method Enable(k: nat, p: Point)
      requires Valid() && k < numBreakpoints && !ctrls[k].enabled && p !in Points()
      modifies values, ctrls, used
      ensures Valid() && Points() == old(Points()) + {p}
    {
      var ctrl := ctrls[k].(enabled := true, bas := p.bas, addressRangeMask := 0, linkedIndex := 0,
                            kind := TypeOf(p.specificity), modes := UserSystemSupervisorOnly);
      PointSetAfterAdd(values[..], ctrls[..], numBreakpoints, k, p.word, ctrl);
      values[k] := p.word;
      ctrls[k] := ctrl;
      used[k] := true;
      assert values[..] == old(values[..])[k := p.word] && ctrls[..] == old(ctrls[..])[k := ctrl];
    }

    method RemoveBreakpointAt(addr: u32, specificity: Specificity, kind: ArmBreakpointKind)
      returns (anythingRemoved: bool)
      requires Valid() && !locked
      modifies ctrls, used
      ensures Valid()
      ensures (View(), anythingRemoved) == HwRemove(old(View()), addr, specificity, kind)
    {
      var split := SplitAddr(addr, kind);
      if split.Err? {
        return false;
      }
      var (searchWord, searchBas) := split.value;
      ghost var p := Point(specificity, searchWord, searchBas);
      anythingRemoved := false;
      for idx := 0 to numBreakpoints
        invariant Valid()
        invariant Points() == old(Points()) - if anythingRemoved then {p} else {}
        invariant anythingRemoved ==> p in old(Points())
        invariant forall i :: 0 <= i < idx && ctrls[i].enabled ==> KeyOf(values[i], ctrls[i]) != p
      {
        var ctrl := ctrls[idx];
        if ctrl.enabled && ctrl.kind == TypeOf(specificity) && ctrl.bas == searchBas && values[idx] == searchWord {
          Disable(idx);
          anythingRemoved := true;
        }
      }
      assert p !in Points();
      assert Points() == old(Points()) - {p};
    }

    /** Switches off a register in use. */
    method Disable(k: nat)
      requires Valid() && k < numBreakpoints && ctrls[k].enabled
      modifies ctrls, used
      ensures Valid() && !ctrls[k].enabled && forall i :: 0 <= i < REGISTERS && i != k ==> ctrls[i] == old(ctrls[i])
      ensures KeyOf(values[k], old(ctrls[k])) in old(Points())
      ensures Points() == old(Points()) - {KeyOf(values[k], old(ctrls[k]))}
    {
      var ctrl := ctrls[k].(enabled := false);
      PointSetAfterRemove(values[..], ctrls[..], numBreakpoints, k, ctrl);
      ctrls[k] := ctrl;
      used[k] := false;
      assert ctrls[..] == old(ctrls[..])[k := ctrl];
    }

    /** The number of registers not in use. */
    method BreakpointsAvailable() returns (available: nat)
      requires Valid()
      ensures available == numBreakpoints - |Points()|
    {
      var breaksUsed := 0;
      for idx := 0 to REGISTERS
        invariant breaksUsed == CountUsed(used[..idx])
      {
        assert used[..idx + 1][..idx] == used[..idx];
        if used[idx] {
          breaksUsed := breaksUsed + 1;
        }
      }
      assert used[..REGISTERS] == used[..];
      FullIff();
      available := numBreakpoints - breaksUsed;
    }

    /** A breakpoint the user asks for; the last free register is kept back for stepping. */
    method AddHwBreakpointAt(addr: u32, kind: ArmBreakpointKind) returns (added: bool)
      requires Valid() && !locked
      modifies values, ctrls, used
      ensures Valid() && (View(), added) == AddHwBreakpoint(old(View()), addr, kind)
    {
      var available := BreakpointsAvailable();
      if available <= 1 {
        return false;
      }
      var result := AddBreakpointAt(addr, Match, kind);
      added := result.Ok?;
    }
  }
}
