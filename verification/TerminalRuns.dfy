/** What happens to a terminal while another one is in front, and to a program between its own steps. */
module TerminalRuns {
  import opened Bytes
  import opened Paging
  import opened FileSystem
  import opened Processes
  import opened CallStacks
  import opened ProcessRuns
  import opened DescriptorRuns

  // ----- A started terminal in the background -----

  lemma BackgroundStack(c: Calls, step: Step, t: nat)
    requires WellFormedCalls(c) && t < TERMINALS && t != c.front && c.stacks[t] != []
    ensures NextCalls(c, step).stacks[t] == c.stacks[t]
  {
  }

  lemma BackgroundTerm(img: Image, s: State, step: Step, t: nat)
    requires WellFormed(img) && WellPlaced(s.tables.layout) && Enabled(img, s, step)
    requires t < TERMINALS && t != s.front && s.front == s.nextTerm && s.terms[t].started
    ensures |Next(img, s, step).terms| == TERMINALS && Next(img, s, step).terms[t] == s.terms[t]
  {
  }

  /** No step touches the programs of a terminal in the background, nor where it will resume. */
  lemma BackgroundStep(img: Image, s: State, c: Calls, step: Step, t: nat)
    requires WellFormed(img) && Represents(img, s, c) && Enabled(img, s, step)
    requires t < TERMINALS && t != s.front && c.stacks[t] != []
    ensures NextCalls(c, step).stacks[t] == c.stacks[t]
    ensures forall i | i in c.stacks[t] :: 0 <= i < SLOTS && |Next(img, s, step).pcbs| == SLOTS
                                           && Next(img, s, step).pcbs[i] == s.pcbs[i]
    ensures |Next(img, s, step).terms| == TERMINALS && Next(img, s, step).terms[t] == s.terms[t]
  {
    HasShape(img, s, c);
    FreeIsIdle(img, s, c);
    BackgroundStack(c, step, t);
    BackgroundTerm(img, s, step, t);
    StacksDisjoint(img, s, c, t, c.front);
    var stack := c.stacks[c.front];
    assert stack[|stack| - 1] in stack;
    if step.Exit? {
      ExitChains(img, s, c);
      assert stack[|stack| - 2] in stack;
    }
    forall i | i in c.stacks[t]
      ensures 0 <= i < SLOTS && |Next(img, s, step).pcbs| == SLOTS && Next(img, s, step).pcbs[i] == s.pcbs[i]
    {
      var k := OnStack(img, s, c, t, i);
      StepFrame(img, s, step, i);
    }
  }

  /** Terminal `t` is in the background in every state of the run but possibly the last. */
  ghost predicate StaysBehind(img: Image, s: State, steps: seq<Step>, t: nat)
    requires WellFormed(img) && CanRun(img, s, steps)
    decreases |steps|
  {
    steps == [] || (s.front != t && StaysBehind(img, Next(img, s, steps[0]), steps[1..], t))
  }

  lemma {:induction false} BackgroundRun(img: Image, s: State, c: Calls, steps: seq<Step>, t: nat)
    requires WellFormed(img) && Represents(img, s, c) && CanRun(img, s, steps)
    requires t < TERMINALS && c.stacks[t] != [] && StaysBehind(img, s, steps, t)
    ensures RunCalls(c, steps).stacks[t] == c.stacks[t]
    ensures forall i | i in c.stacks[t] :: 0 <= i < |s.pcbs| == |Run(img, s, steps).pcbs|
                                           && Run(img, s, steps).pcbs[i] == s.pcbs[i]
    ensures |s.terms| == |Run(img, s, steps).terms| == TERMINALS && Run(img, s, steps).terms[t] == s.terms[t]
    decreases |steps|
  {
    forall i | i in c.stacks[t] ensures 0 <= i < |s.pcbs| {
      var k := OnStack(img, s, c, t, i);
    }
    if steps != [] {
      BackgroundStep(img, s, c, steps[0], t);
      StepRefines(img, s, c, steps[0]);
      BackgroundRun(img, Next(img, s, steps[0]), NextCalls(c, steps[0]), steps[1..], t);
    }
  }

  /** Leaving a terminal and coming back: whatever runs in between on the other two, the terminal resumes in
      the frame in which it was left, with the same program, the same record, page entry and kernel stack. */
  lemma SwitchAwayAndBack(img: Image, s: State, c: Calls, t: nat, shell: seq<Byte>, saved: Frame, first: Frame,
                          steps: seq<Step>, saved': Frame, first': Frame)
    requires WellFormed(img) && Represents(img, s, c) && Shape(s)
    requires t < TERMINALS && KeySwitches(s, t, true)
    requires CanRun(img, FunctionKey(s, t, true, shell, saved, first), steps)
    requires StaysBehind(img, FunctionKey(s, t, true, shell, saved, first), steps, s.front)
    requires Run(img, FunctionKey(s, t, true, shell, saved, first), steps).front != s.front
    ensures var before := Run(img, FunctionKey(s, t, true, shell, saved, first), steps);
            && Shape(before) && KeySwitches(before, s.front, true)
            && before.terms[s.front].frame == saved
            && var after := FunctionKey(before, s.front, true, shell, saved', first');
               && after.current == s.current && after.parent == s.parent && after.front == s.front
               && |after.pcbs| == SLOTS && after.pcbs[s.current] == s.pcbs[s.current]
               && after.esp0 == s.esp0
               && |after.tables.dir| == ENTRIES && after.tables.dir[PROGRAM_ENTRY] == s.tables.dir[PROGRAM_ENTRY]
  {
    Leaving(img, s, c, t, shell, saved, first);
    var away, d := FunctionKey(s, t, true, shell, saved, first), NextCalls(c, Key(t, true, shell, saved, first));
    BackgroundRun(img, away, d, steps, s.front);
    RunRefines(img, away, d, steps);
    Returning(img, Run(img, away, steps), RunCalls(d, steps), s.front, shell, saved', first');
  }

  /** After the switch away the terminal is as it was, and its frame is saved. */
  lemma Leaving(img: Image, s: State, c: Calls, t: nat, shell: seq<Byte>, saved: Frame, first: Frame)
    requires WellFormed(img) && Represents(img, s, c) && Shape(s) && t < TERMINALS && KeySwitches(s, t, true)
    ensures var away := FunctionKey(s, t, true, shell, saved, first);
            var d := NextCalls(c, Key(t, true, shell, saved, first));
            && Represents(img, away, d) && d.stacks[s.front] == c.stacks[s.front] != []
            && away.terms[s.front].frame == saved
            && away.pcbs[s.current] == s.pcbs[s.current]
            && s.current == c.stacks[s.front][|c.stacks[s.front]| - 1] && s.current in c.stacks[s.front]
            && s.parent == s.current && s.esp0 == Esp0(s.current)
            && s.tables.dir[PROGRAM_ENTRY] == ProgramEntry(s.current)
  {
    HasShape(img, s, c);
    FreeIsIdle(img, s, c);
    KeyKeeps(img, s, c, t, true, shell, saved, first);
  }

  /** The switch back always happens, to the top program of the terminal, and changes no record. */
  lemma Returning(img: Image, s: State, c: Calls, t: nat, shell: seq<Byte>, saved: Frame, first: Frame)
    requires WellFormed(img) && Represents(img, s, c) && t < TERMINALS && t != s.front && c.stacks[t] != []
    ensures Shape(s) && KeySwitches(s, t, true)
    ensures var after, top := FunctionKey(s, t, true, shell, saved, first), c.stacks[t][|c.stacks[t]| - 1];
            && after.current == after.parent == top && after.front == t && after.pcbs == s.pcbs
            && after.esp0 == Esp0(top)
            && |after.tables.dir| == ENTRIES && after.tables.dir[PROGRAM_ENTRY] == ProgramEntry(top)
  {
    HasShape(img, s, c);
    ResumeAgreement(img, s, c, t);
    ResumeKeeps(img, s, c, t, shell, saved, first);
  }

  // ----- The command a program was launched with -----

  /** `q` makes no call of execute that finds the table full. */
  ghost predicate FindsRoom(img: Image, s: State, steps: seq<Step>, q: int)
    requires WellFormed(img) && CanRun(img, s, steps)
    decreases |steps|
  {
    steps == [] ||
    ((steps[0].Exec? ==> s.current != q || ExecuteResult(s, steps[0].loads) != TableFull) &&
     FindsRoom(img, Next(img, s, steps[0]), steps[1..], q))
  }

  lemma CommandStep(img: Image, s: State, c: Calls, step: Step, q: int)
    requires WellFormed(img) && Represents(img, s, c) && Enabled(img, s, step) && Busy(c, q)
    requires step.Exit? || step.RootExit? ==> s.current != q
    requires step.Exec? ==> s.current != q || ExecuteResult(s, step.loads) != TableFull
    ensures 0 <= q < SLOTS && |Next(img, s, step).pcbs| == SLOTS
    ensures Next(img, s, step).pcbs[q].command == s.pcbs[q].command
  {
    HasShape(img, s, c);
    FreeIsIdle(img, s, c);
    BusyIsLive(img, s, c, q);
    if step.Exit? {
      assert Next(img, s, step) == Halt(s);
    } else if q != s.current {
      StepFrame(img, s, step, q);
    }
  }

  /** The command stored for a program is the one it was launched with for as long as it stays up and does
      not call execute on a full table. */
  lemma {:induction false} CommandKept(img: Image, s: State, c: Calls, steps: seq<Step>, q: int)
    requires WellFormed(img) && Represents(img, s, c) && CanRun(img, s, steps) && Busy(c, q)
    requires Persists(img, s, steps, q) && FindsRoom(img, s, steps, q)
    ensures 0 <= q < |s.pcbs| == |Run(img, s, steps).pcbs| && Run(img, s, steps).pcbs[q].command == s.pcbs[q].command
    decreases |steps|
  {
    BusyIsLive(img, s, c, q);
    if steps != [] {
      CommandStep(img, s, c, steps[0], q);
      FilesStep(img, s, c, steps[0], q);
      StepRefines(img, s, c, steps[0]);
      CommandKept(img, Next(img, s, steps[0]), NextCalls(c, steps[0]), steps[1..], q);
    }
  }

  /** From its launch on. */
  lemma CommandSinceLaunch(img: Image, s: State, c: Calls, loads: bool, command: seq<Byte>, frame: Frame,
                           steps: seq<Step>)
    requires WellFormed(img) && Represents(img, s, c) && Shape(s) && ExecuteResult(s, loads).Launched?
    requires CanRun(img, Execute(s, loads, command, frame), steps)
    requires Persists(img, Execute(s, loads, command, frame), steps, ExecuteResult(s, loads).slot)
    requires FindsRoom(img, Execute(s, loads, command, frame), steps, ExecuteResult(s, loads).slot)
    ensures var after := Run(img, Execute(s, loads, command, frame), steps);
            |after.pcbs| == SLOTS && after.pcbs[ExecuteResult(s, loads).slot].command == command
  {
    FreeIsIdle(img, s, c);
    ExecKeeps(img, s, c, loads, command, frame);
    var child, d := ExecuteResult(s, loads).slot, NextCalls(c, Exec(loads, command, frame));
    assert d.stacks[d.front][|d.stacks[d.front]| - 1] == child;
    CommandKept(img, Execute(s, loads, command, frame), d, steps, child);
  }
}
