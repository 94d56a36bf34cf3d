/**
 * A whole debug event, as the debugger object handles it in one call, is a run of single steps.
 */
module SessionRefinement {
  import opened DebugTarget
  import opened DebugSession
  import opened SessionRuns

  /** No client write on the way touches an instruction that a breakpoint stands for. */
  ghost predicate CarefulInputs(s: SessionView, inputs: seq<TickInput>)
    requires s.target.Shape() && ConsoleEnds(s, inputs)
    decreases |inputs|
  {
    s.target.status.ResumingProgram?
    || ((s.stage.Idle? && inputs[0].command.Some? ==> Careful(s.target, inputs[0].command.value))
        && CarefulInputs(Tick(s, inputs[0]), inputs[1..]))
  }

  lemma {:induction false} AfterConcat(m: Moment, a: seq<Event>, b: seq<Event>)
    requires LegalRun(m, a) && LegalRun(After(m, a), b)
    ensures LegalRun(m, a + b) && After(m, a + b) == After(After(m, a), b)
    decreases |a|
  {
    if a == [] {
      assert a + b == b;
    } else {
      assert (a + b)[1..] == a[1..] + b;
      AfterConcat(Next(m, a[0]), a[1..], b);
    }
  }

  lemma OneEvent(m: Moment, e: Event)
    requires Legal(m, e)
    ensures LegalRun(m, [e]) && After(m, [e]) == Next(m, e)
  {
    assert [e][1..] == [];
    assert LegalRun(Next(m, e), []);
  }

  lemma FirstEvent(m: Moment, e: Event, rest: seq<Event>)
    requires Legal(m, e) && LegalRun(Next(m, e), rest)
    ensures LegalRun(m, [e] + rest) && After(m, [e] + rest) == After(Next(m, e), rest)
  {
    assert ([e] + rest)[1..] == rest;
  }

  /** The console loop is a run of console turns. */
  lemma {:induction false} ConsoleIsRun(m: Moment, inputs: seq<TickInput>) returns (events: seq<Event>)
    requires RunInv(m) && m.inMonitor && ConsoleEnds(m.s, inputs) && CarefulInputs(m.s, inputs)
    ensures LegalRun(m, events)
    ensures var r := After(m, events); RunInv(r) && r.inMonitor && r.s == RunConsole(m.s, inputs)
    decreases |inputs|
  {
    if m.s.target.status.ResumingProgram? {
      events := [];
    } else {
      var e := Console(inputs[0]);
      NextInv(m, e);
      var rest := ConsoleIsRun(Next(m, e), inputs[1..]);
      FirstEvent(m, e, rest);
      events := [e] + rest;
    }
  }

  /**
   * Handling a debug event takes a reachable moment to a reachable moment: what the debugger
   * leaves behind, together with the exit path's resumption of the scheduler, is what the run of
   * its single steps leaves behind.
   */
  lemma EventIsRun(m: Moment, inputs: seq<TickInput>) returns (events: seq<Event>)
    requires RunInv(m) && Legal(m, DebugEvent)
    requires var s := m.s.(target := m.s.target.(hw := m.s.target.hw.(entry := PendingEvent(m))));
      && EventEnds(s, m.cpu, inputs)
      && AtCode(EventServed(s, m.cpu, inputs).target.ctx)
      && (HandleStop(AtStop(s, m.cpu)).1.EnterMonitor? ==>
            CarefulInputs(Opened(HandleStop(AtStop(s, m.cpu)).0), inputs))
    ensures LegalRun(m, events) && RunInv(After(m, events)) && !After(m, events).inMonitor
    ensures var s := m.s.(target := m.s.target.(hw := m.s.target.hw.(entry := PendingEvent(m))));
      var served := EventServed(s, m.cpu, inputs);
      var (left, resume) := LeaveBreakpoint(served.target);
      After(m, events).s == served.(target := ResumeScheduler(left, resume)) && After(m, events).cpu == served.target.ctx
  {
    var entered := Next(m, DebugEvent);
    NextInv(m, DebugEvent);
    OneEvent(m, DebugEvent);
    events := [DebugEvent];
    if entered.inMonitor {
      var turns := ConsoleIsRun(entered, inputs);
      AfterConcat(m, events, turns);
      events := events + turns;
      var served := After(m, events);
      NextInv(served, ReturnToProgram);
      OneEvent(served, ReturnToProgram);
      AfterConcat(m, events, [ReturnToProgram]);
      events := events + [ReturnToProgram];
    }
  }
}
