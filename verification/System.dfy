/** Processes and terminals together: the kernel's tables and the console under one sequence of events. */
module System {
  import opened Bytes
  import FS = FileSystem
  import P = Processes
  import CallStacks
  import ConsoleCode
  import ProcessRuns
  import LineEditor
  import Screen
  import T = Terminals

  datatype System = System(kernel: P.State, console: T.Console)

  /** An event: a call of the running program, text it or the kernel writes, a key, or a line read. */
  datatype Event =
    // execute, halt of a launched program, open, close, read or vidmap; `refused` is what a full table has to say
    | Call(step: CallStacks.Step, refused: seq<Byte>)
    | ShellExit(shell: seq<Byte>, frame: P.Frame)      // a root shell ends with status 0
    | Print(text: seq<Byte>)                           // a write to stdout
    | Scancode(code: Byte)
    | FunctionKey(t: nat, shell: seq<Byte>, saved: P.Frame, first: P.Frame, refused: seq<Byte>)
    | Line                                             // a read from stdin, after Enter

  ghost predicate Consistent(img: FS.Image, s: System, c: CallStacks.Calls)
    requires FS.WellFormed(img)
  {
    && CallStacks.Represents(img, s.kernel, c)
    && T.IsConsole(s.console)
    && s.kernel.front == s.console.front
  }

  predicate IsCall(step: CallStacks.Step) {
    !step.Key? && !step.RootExit?
  }

  predicate IsEvent(s: System, e: Event) {
    match e
    case Call(step, _) => IsCall(step)
    case FunctionKey(t, _, _, _, _) => t < P.TERMINALS
    case Line => s.console.entered
    case _ => true
  }

  /** The event can happen here, and what it stores on the display page and in the line buffer falls inside. */
  ghost predicate Enabled(img: FS.Image, k: LineEditor.Keymap, s: System, e: Event)
    requires FS.WellFormed(img) && LineEditor.IsKeymap(k)
  {
    && T.IsConsole(s.console) && P.Shape(s.kernel) && IsEvent(s, e)
    && ProcessRuns.CanRun(img, s.kernel, KernelStep(s, e))
    && T.RunInside(s.console, k, ConsoleStep(s, e))
  }

  /** What the screen does with an event: a full table is reported, a switch swaps the terminals. */
  function ConsoleStep(s: System, e: Event): seq<T.Step>
    requires P.Shape(s.kernel) && (e.FunctionKey? ==> e.t < P.TERMINALS)
  {
    match e
    case Call(step, refused) =>
      if step.Exec? && P.ExecuteResult(s.kernel, step.loads).TableFull? then [T.Output(refused)] else []
    case ShellExit(_, _) => [T.Restart]
    case Print(text) => [T.Output(text)]
    case Scancode(code) => [T.Press(code)]
    case FunctionKey(t, _, _, _, refused) =>
      if P.Full(s.kernel) && !s.kernel.terms[t].started then [T.Output(refused)]
      else if s.console.mods.alt && s.kernel.front != t then [T.SwitchTo(t)]
      else []
    case Line => [T.Line]
  }

  /** What the process tables do with it. */
  function KernelStep(s: System, e: Event): seq<CallStacks.Step> {
    match e
    case Call(step, _) => [step]
    case ShellExit(shell, frame) => [CallStacks.RootExit(shell, frame)]
    case FunctionKey(t, shell, saved, first, _) => [CallStacks.Key(t, s.console.mods.alt, shell, saved, first)]
    case _ => []
  }

  ghost function Next(img: FS.Image, k: LineEditor.Keymap, s: System, e: Event): System
    requires FS.WellFormed(img) && LineEditor.IsKeymap(k) && Enabled(img, k, s, e)
  {
    System(ProcessRuns.Run(img, s.kernel, KernelStep(s, e)), T.RunConsole(s.console, k, ConsoleStep(s, e)))
  }

  /** Every event keeps the two halves together: the terminal on the screen is the one whose top program runs,
      the tables still represent the stacks, and each private terminal moves as it would alone. */
  lemma EventRefines(img: FS.Image, k: LineEditor.Keymap, s: System, c: CallStacks.Calls, e: Event, t: nat)
    requires FS.WellFormed(img) && LineEditor.IsKeymap(k) && Consistent(img, s, c) && Enabled(img, k, s, e)
    requires t < T.TERMINALS
    ensures Consistent(img, Next(img, k, s, e), ProcessRuns.RunCalls(c, KernelStep(s, e)))
    ensures T.ViewOf(Next(img, k, s, e).console, t) ==
            T.RunView(T.ViewOf(s.console, t), t, s.console.mods, s.console.front, k, ConsoleStep(s, e))
  {
    ProcessRuns.RunRefines(img, s.kernel, c, KernelStep(s, e));
    T.ThreePrivateTerminals(s.console, k, ConsoleStep(s, e), t);
    FrontsMove(img, k, s, c, e);
  }

  /** What an event shows on the screen that was in front: a restart is blank, a print and the refusal of a key or
      of an execute are written out, a line taken and any other call leave it alone. */
  lemma EventOnScreen(img: FS.Image, k: LineEditor.Keymap, s: System, c: CallStacks.Calls, e: Event)
    requires FS.WellFormed(img) && LineEditor.IsKeymap(k) && Consistent(img, s, c) && Enabled(img, k, s, e)
    ensures var f := s.console.front;
            var was, after := T.ViewOf(s.console, f).tty, T.ViewOf(Next(img, k, s, e).console, f).tty;
            Screen.IsTty(was) && Screen.IsTty(after) && match e
            case Call(step, refused) =>
              after == if step.Exec? && step.loads && CallStacks.LowestIdle(c, 0) == P.SLOTS
                       then Screen.Write(was, refused, 2 + f) else was
            case Line => after == was
            case Print(text) => after == Screen.Write(was, text, 2 + f)
            case ShellExit(_, _) => Screen.IsBlank(after)
            case FunctionKey(t, _, _, _, refused) =>
              after == if c.stacks[t] == [] && CallStacks.LowestIdle(c, 0) == P.SLOTS
                       then Screen.Write(was, refused, 2 + f) else was
            case Scancode(_) => true
  {
    CallStacks.FreeIsIdle(img, s.kernel, c);
    EventShows(img, k, s, e, P.Full(s.kernel));
  }

  lemma EventShows(img: FS.Image, k: LineEditor.Keymap, s: System, e: Event, full: bool)
    requires FS.WellFormed(img) && LineEditor.IsKeymap(k) && Enabled(img, k, s, e) && full == P.Full(s.kernel)
    ensures var f := s.console.front;
            var was, after := T.ViewOf(s.console, f).tty, T.ViewOf(Next(img, k, s, e).console, f).tty;
            Screen.IsTty(was) && Screen.IsTty(after) && match e
            case Call(step, refused) =>
              after == if step.Exec? && step.loads && full then Screen.Write(was, refused, 2 + f) else was
            case Line => after == was
            case Print(text) => after == Screen.Write(was, text, 2 + f)
            case ShellExit(_, _) => Screen.IsBlank(after)
            case FunctionKey(t, _, _, _, refused) =>
              after == if !s.kernel.terms[t].started && full then Screen.Write(was, refused, 2 + f) else was
            case Scancode(_) => true
  {
    match e
    case Call(_, refused) => ShownBy(s.console, k, T.Output(refused));
    case Line => ShownBy(s.console, k, T.Line);
    case Print(text) => ShownBy(s.console, k, T.Output(text));
    case ShellExit(_, _) => ShownBy(s.console, k, T.Restart);
    case FunctionKey(t, _, _, _, refused) =>
      ShownBy(s.console, k, T.Output(refused));
      ShownBy(s.console, k, T.SwitchTo(t));
    case Scancode(_) =>
  }

  /** The screen of the terminal that was in front, after one step other than a key. */
  lemma ShownBy(c: T.Console, k: LineEditor.Keymap, step: T.Step)
    requires T.IsConsole(c) && LineEditor.IsKeymap(k) && !step.Press?
    ensures var after := T.ViewOf(T.RunConsole(c, k, [step]), c.front).tty;
            Screen.IsTty(after) && match step
            case Output(text) => after == Screen.Write(c.tty, text, 2 + c.front)
            case Restart => Screen.IsBlank(after)
            case _ => after == c.tty
  {
    assert [step][1..] == [];
    assert T.RunConsole(c, k, [step]) == T.NextConsole(c, k, step);
    T.ColoursDiffer(c.front, c.front);
    T.RestartBlanks(c, k);
    if step.SwitchTo? && step.t < T.TERMINALS && step.t != c.front {
      T.SwitchKeepsViews(c, step.t, c.front);
    }
  }

  lemma FrontsMove(img: FS.Image, k: LineEditor.Keymap, s: System, c: CallStacks.Calls, e: Event)
    requires FS.WellFormed(img) && LineEditor.IsKeymap(k) && Consistent(img, s, c) && Enabled(img, k, s, e)
    ensures ProcessRuns.RunCalls(c, KernelStep(s, e)).front == Next(img, k, s, e).console.front
  {
    CallStacks.FreeIsIdle(img, s.kernel, c);
    var calls, steps := KernelStep(s, e), ConsoleStep(s, e);
    KernelFront(c, calls);
    ConsoleFront(s.console, k, steps);
  }

  lemma KernelFront(c: CallStacks.Calls, calls: seq<CallStacks.Step>)
    requires |c.stacks| == P.TERMINALS && 0 <= c.front < P.TERMINALS && |calls| <= 1
    ensures ProcessRuns.RunCalls(c, calls).front ==
            if calls == [] then c.front else CallStacks.NextCalls(c, calls[0]).front
  {
    if calls != [] {
      assert calls[1..] == [];
    }
  }

  lemma ConsoleFront(c: T.Console, k: LineEditor.Keymap, steps: seq<T.Step>)
    requires T.IsConsole(c) && LineEditor.IsKeymap(k) && |steps| <= 1 && T.RunInside(c, k, steps)
    ensures T.RunConsole(c, k, steps).front == if steps == [] then c.front else T.FrontAfter(c.front, steps[0])
  {
    if steps != [] {
      assert steps[1..] == [] && T.StepInside(c, k, steps[0]);
      FrontIsNext(c, k, steps[0]);
    }
  }

  lemma FrontIsNext(c: T.Console, k: LineEditor.Keymap, step: T.Step)
    requires T.IsConsole(c) && LineEditor.IsKeymap(k) && T.StepInside(c, k, step)
    ensures T.NextConsole(c, k, step).front == T.FrontAfter(c.front, step)
  {
    T.StepRefines(c, k, step);
  }

  /** Boot: the tables as set up by the kernel and the console as it is made, once the first shell is launched. */
  lemma BootConsistent(img: FS.Image, boot: P.State, text: ConsoleCode.TextConsole, shell: seq<Byte>, frame: P.Frame)
    requires FS.WellFormed(img) && ProcessRuns.Initial(boot)
    requires text.Valid() && text.front == 0
    ensures P.Shape(boot)
    ensures Consistent(img, System(P.Execute(boot, true, shell, frame), text.Abs()), ProcessRuns.BOOT_CALLS)
  {
    ProcessRuns.BootRepresents(img, boot, shell, frame);
  }

  ghost predicate CanRun(img: FS.Image, k: LineEditor.Keymap, s: System, events: seq<Event>)
    requires FS.WellFormed(img) && LineEditor.IsKeymap(k)
    decreases |events|
  {
    events == [] || (Enabled(img, k, s, events[0]) && CanRun(img, k, Next(img, k, s, events[0]), events[1..]))
  }

  ghost function Run(img: FS.Image, k: LineEditor.Keymap, s: System, events: seq<Event>): System
    requires FS.WellFormed(img) && LineEditor.IsKeymap(k) && CanRun(img, k, s, events)
    decreases |events|
  {
    if events == [] then s else Run(img, k, Next(img, k, s, events[0]), events[1..])
  }

  /** Over any sequence of events some three stacks describe the process table, and the running program is
      the one active program of the terminal on the screen. */
  lemma {:induction false} EventsKeepConsistent(img: FS.Image, k: LineEditor.Keymap, s: System, c: CallStacks.Calls,
                                                events: seq<Event>) returns (d: CallStacks.Calls)
    requires FS.WellFormed(img) && LineEditor.IsKeymap(k) && Consistent(img, s, c) && CanRun(img, k, s, events)
    ensures var after := Run(img, k, s, events);
            && Consistent(img, after, d)
            && forall i | 0 <= i < P.SLOTS ::
                 P.Runs(after.kernel.pcbs[i], after.console.front) <==> i == after.kernel.current
    decreases |events|
  {
    if events == [] {
      d := c;
      CallStacks.OneActive(img, s.kernel, c, s.console.front);
    } else {
      EventRefines(img, k, s, c, events[0], 0);
      var next, e := Next(img, k, s, events[0]), ProcessRuns.RunCalls(c, KernelStep(s, events[0]));
      d := EventsKeepConsistent(img, k, next, e, events[1..]);
    }
  }
}
