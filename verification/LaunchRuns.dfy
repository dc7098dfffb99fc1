/** From the launch of a program, whoever launches it, to its own exit: the frame and the command it was given. */
module LaunchRuns {
  import opened Bytes
  import opened Paging
  import opened FileSystem
  import opened Processes
  import opened CallStacks
  import opened ProcessRuns
  import opened DescriptorRuns
  import opened TerminalRuns

  /** The three ways a program is launched: by the running one, by the key that shows a terminal for the first
      time, and in the place of a root shell that has ended. */
  predicate Launches(s: State, step: Step)
    requires Shape(s)
  {
    match step
    case Exec(loads, _, _) => loads && FirstFree(s.pcbs, 0) < SLOTS
    case RootExit(_, _) => true
    case Key(t, alt, _, _, _) =>
      t < TERMINALS && alt && t != s.front && !s.terms[t].started && FirstFree(s.pcbs, 0) < SLOTS
    case _ => false
  }

  function LaunchSlot(s: State, step: Step): int
    requires Shape(s)
  {
    if step.RootExit? then s.current else FirstFree(s.pcbs, 0)
  }

  /** The frame of the execute that does it; a key's is not the frame in which the old terminal will resume. */
  function LaunchFrame(step: Step): Frame {
    match step
    case Exec(_, _, frame) => frame
    case RootExit(_, relaunched) => relaunched
    case Key(_, _, _, _, first) => first
    case _ => NO_FRAME
  }

  function LaunchCommand(step: Step): seq<Byte> {
    match step
    case Exec(_, command, _) => command
    case RootExit(shell, _) => shell
    case Key(_, _, shell, _, _) => shell
    case _ => []
  }

  /** The record that a launch makes, whatever launches. */
  lemma RecordMade(img: Image, s: State, step: Step)
    requires WellFormed(img) && WellPlaced(s.tables.layout) && Enabled(img, s, step) && Launches(s, step)
    requires s.front == s.nextTerm && s.parent == s.current
    ensures var p, i := Next(img, s, step).pcbs, LaunchSlot(s, step);
            && 0 <= i < SLOTS && |p| == SLOTS
            && p[i].frame == LaunchFrame(step) && p[i].command == LaunchCommand(step) && p[i].files == LAUNCH_FILES
  {
    match step
    case RootExit(_, _) => HaltKeepsShape(s);
    case _ =>
  }

  /** What a launch leaves behind. */
  lemma LaunchRecord(img: Image, s: State, c: Calls, step: Step)
    requires WellFormed(img) && Represents(img, s, c) && Enabled(img, s, step) && Launches(s, step)
    ensures var next, i := Next(img, s, step), LaunchSlot(s, step);
            && Represents(img, next, NextCalls(c, step)) && next.current == i && Busy(NextCalls(c, step), i)
            && 0 <= i < SLOTS && |next.pcbs| == SLOTS && next.pcbs[i].files == LAUNCH_FILES
            && next.pcbs[i].frame == LaunchFrame(step) && next.pcbs[i].command == LaunchCommand(step)
  {
    HasShape(img, s, c);
    FreeIsIdle(img, s, c);
    StepRefines(img, s, c, step);
    HasShape(img, Next(img, s, step), NextCalls(c, step));
    RecordMade(img, s, step);
  }

  lemma FrameStep(img: Image, s: State, c: Calls, step: Step, q: int)
    requires WellFormed(img) && Represents(img, s, c) && Enabled(img, s, step) && Busy(c, q)
    requires step.Exit? || step.RootExit? ==> s.current != q
    ensures 0 <= q < SLOTS && |Next(img, s, step).pcbs| == SLOTS
    ensures Next(img, s, step).pcbs[q].frame == s.pcbs[q].frame
  {
    HasShape(img, s, c);
    FreeIsIdle(img, s, c);
    BusyIsLive(img, s, c, q);
    if step.Exit? {
      ExitRecord(s, q);
    } else if q == s.current {
      OwnRecord(img, s, step);
    } else {
      StepFrame(img, s, step, q);
    }
  }

  lemma {:induction false} FrameKept(img: Image, s: State, c: Calls, steps: seq<Step>, q: int)
    requires WellFormed(img) && Represents(img, s, c) && CanRun(img, s, steps) && Busy(c, q)
    requires Persists(img, s, steps, q)
    ensures 0 <= q < |s.pcbs| == |Run(img, s, steps).pcbs| && Run(img, s, steps).pcbs[q].frame == s.pcbs[q].frame
    decreases |steps|
  {
    BusyIsLive(img, s, c, q);
    if steps != [] {
      FrameStep(img, s, c, steps[0], q);
      FilesStep(img, s, c, steps[0], q);
      StepRefines(img, s, c, steps[0]);
      FrameKept(img, Next(img, s, steps[0]), NextCalls(c, steps[0]), steps[1..], q);
    }
  }

  /** However a program was launched and whatever has happened since, while it has neither ended nor been
      relaunched: when it is the running one, halt returns into the execute that launched it, and its stored
      command is the one it was launched with, unless it has met a full table. */
  lemma LaunchToHalt(img: Image, s: State, c: Calls, step: Step, steps: seq<Step>)
    requires WellFormed(img) && Represents(img, s, c) && Enabled(img, s, step) && Launches(s, step)
    requires CanRun(img, Next(img, s, step), steps)
    requires Persists(img, Next(img, s, step), steps, LaunchSlot(s, step))
    ensures var after, i := Run(img, Next(img, s, step), steps), LaunchSlot(s, step);
            && 0 <= i < |after.pcbs|
            && (after.current == i ==> Shape(after) && HaltFrame(after) == LaunchFrame(step))
            && (FindsRoom(img, Next(img, s, step), steps, i) ==> after.pcbs[i].command == LaunchCommand(step))
  {
    var next, d, i := Next(img, s, step), NextCalls(c, step), LaunchSlot(s, step);
    LaunchRecord(img, s, c, step);
    FrameKept(img, next, d, steps, i);
    RunRefines(img, next, d, steps);
    HasShape(img, Run(img, next, steps), RunCalls(d, steps));
    if FindsRoom(img, next, steps, i) {
      CommandKept(img, next, d, steps, i);
    }
  }

  /** The same for the first shell, which boot launches. */
  lemma BootToHalt(img: Image, s: State, shell: seq<Byte>, frame: Frame, steps: seq<Step>)
    requires WellFormed(img) && Initial(s)
    requires Shape(s) && CanRun(img, Execute(s, true, shell, frame), steps)
    requires Persists(img, Execute(s, true, shell, frame), steps, 0)
    ensures var boot := Execute(s, true, shell, frame);
            var after := Run(img, boot, steps);
            && |after.pcbs| == SLOTS
            && (after.current == 0 ==> Shape(after) && HaltFrame(after) == frame)
            && (FindsRoom(img, boot, steps, 0) ==> after.pcbs[0].command == shell)
  {
    var boot := Execute(s, true, shell, frame);
    BootRepresents(img, s, shell, frame);
    assert 0 in BOOT_CALLS.stacks[0];
    FrameKept(img, boot, BOOT_CALLS, steps, 0);
    RunRefines(img, boot, BOOT_CALLS, steps);
    HasShape(img, Run(img, boot, steps), RunCalls(BOOT_CALLS, steps));
    if FindsRoom(img, boot, steps, 0) {
      CommandKept(img, boot, BOOT_CALLS, steps, 0);
    }
  }
}
