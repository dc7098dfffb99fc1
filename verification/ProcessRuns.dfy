/** Whole runs of the process and terminal state machine. */
module ProcessRuns {
  import opened Bytes
  import opened Paging
  import opened FileSystem
  import opened Processes
  import opened CallStacks

  // ----- Steps and runs -----

  /** What the running program, the user and the disk can make happen in a state. */
  ghost predicate Enabled(img: Image, s: State, step: Step) {
    Shape(s) && s.pcbs[s.current].live &&
    match step
    case Exit => !IsRoot(s, s.current)
    // the slot given up is the lowest free one: see CallStacks.RelaunchKeepsExactlyWhen
    case RootExit(_, _) => IsRoot(s, s.current) && FirstFree(Halt(s).pcbs, 0) == s.current
    case Key(t, _, _, _, _) => t < TERMINALS
    case OpenFile(entry) => entry.Some? ==> KnownType(img, entry.value)
    case ReadFile(fd, nbytes) => ReadFits(img, s, fd, nbytes)
    case _ => true
  }

  /** A directory entry of one of the three types, a regular file's with a valid inode. */
  predicate KnownType(img: Image, e: Found) {
    e.fileType <= 2 && (e.fileType == 2 ==> e.inode < |img.inodes|)
  }

  ghost function Next(img: Image, s: State, step: Step): State
    requires WellFormed(img) && WellPlaced(s.tables.layout) && Enabled(img, s, step)
  {
    match step
    case Exec(loads, command, frame) => Execute(s, loads, command, frame)
    case Exit => Halt(s)
    case RootExit(shell, frame) => Relaunch(s, shell, frame)
    case Key(t, alt, shell, saved, first) => FunctionKey(s, t, alt, shell, saved, first)
    case OpenFile(entry) => Open(s, entry)
    case CloseFile(fd) => Close(s, fd)
    case ReadFile(fd, nbytes) => Read(img, s, fd, nbytes)
    case MapScreen(screenStart) => Vidmap(s, screenStart)
  }

  /** `steps` can happen one after the other from `s`. */
  ghost predicate CanRun(img: Image, s: State, steps: seq<Step>)
    requires WellFormed(img)
    decreases |steps|
  {
    steps == [] ||
    (WellPlaced(s.tables.layout) && Enabled(img, s, steps[0]) && CanRun(img, Next(img, s, steps[0]), steps[1..]))
  }

  ghost function Run(img: Image, s: State, steps: seq<Step>): State
    requires WellFormed(img) && CanRun(img, s, steps)
    decreases |steps|
  {
    if steps == [] then s else Run(img, Next(img, s, steps[0]), steps[1..])
  }

  function RunCalls(c: Calls, steps: seq<Step>): (d: Calls)
    requires |c.stacks| == TERMINALS && 0 <= c.front < TERMINALS
    ensures |d.stacks| == TERMINALS
    decreases |steps|
  {
    if steps == [] then c else
      NextCallsShape(c, steps[0]);
      RunCalls(NextCalls(c, steps[0]), steps[1..])
  }

  lemma NextCallsShape(c: Calls, step: Step)
    requires |c.stacks| == TERMINALS && 0 <= c.front < TERMINALS
    ensures |NextCalls(c, step).stacks| == TERMINALS && 0 <= NextCalls(c, step).front < TERMINALS
  {
  }

  // ----- Descriptor steps stay within the running program's record -----

  lemma OpenGood(img: Image, files: seq<Descriptor>, e: Found)
    requires WellFormed(img) && GoodFiles(img, files) && KnownType(img, e)
    ensures var d := FirstUnused(files, FIRST_FILE);
            d < DESCRIPTORS ==>
              GoodFiles(img, files[d := Descriptor(DeviceOf(e.fileType, files[d].device), e.inode, 0, true)])
  {
  }

  lemma OpenKeeps(img: Image, s: State, c: Calls, entry: Option<Found>)
    requires WellFormed(img) && Represents(img, s, c) && Enabled(img, s, OpenFile(entry))
    ensures Represents(img, Open(s, entry), c)
  {
    HasShape(img, s, c);
    var files := s.pcbs[s.current].files;
    var d := FirstUnused(files, FIRST_FILE);
    if entry.Some? && d < DESCRIPTORS {
      OpenGood(img, files, entry.value);
      RecordChange(img, s, c, s.pcbs[s.current].(files :=
        files[d := Descriptor(DeviceOf(entry.value.fileType, files[d].device), entry.value.inode, 0, true)]));
    }
  }

  lemma CloseKeeps(img: Image, s: State, c: Calls, fd: int)
    requires WellFormed(img) && Represents(img, s, c) && Shape(s)
    ensures Represents(img, Close(s, fd), c)
  {
    HasShape(img, s, c);
    if CloseAllowed(s, fd) {
      var files := s.pcbs[s.current].files;
      RecordChange(img, s, c, s.pcbs[s.current].(files := files[fd := files[fd].(inUse := false)]));
    }
  }

  lemma ReadKeeps(img: Image, s: State, c: Calls, fd: int, nbytes: int)
    requires WellFormed(img) && Represents(img, s, c) && Shape(s)
    ensures Represents(img, Read(img, s, fd, nbytes), c)
  {
    HasShape(img, s, c);
    if ReadAllowed(s, fd) {
      var files := s.pcbs[s.current].files;
      var f := files[fd];
      var moved := f.(position := f.position + |ReadBytes(img, f, nbytes)|);
      assert fd >= FIRST_FILE ==> GoodFile(img, f) && GoodFile(img, moved);
      RecordChange(img, s, c, s.pcbs[s.current].(files := files[fd := moved]));
    }
  }

  lemma MapScreenKeeps(img: Image, s: State, c: Calls, screenStart: Word)
    requires WellFormed(img) && Represents(img, s, c) && Shape(s)
    ensures Represents(img, Vidmap(s, screenStart), c)
  {
    HasShape(img, s, c);
    MappingKeepsBooted(s.tables, s.current);
    if VidmapAllowed(screenStart) {
      var after := Vidmap(s, screenStart);
      forall t | 0 <= t < TERMINALS ensures Chain(img, after.pcbs, t, c.stacks[t]) {
        assert Chain(img, s.pcbs, t, c.stacks[t]);
      }
    }
  }

  /** A step writes to no other record than the running program's, the lowest free one, and on exit the
      one below. */
  lemma StepFrame(img: Image, s: State, step: Step, i: int)
    requires WellFormed(img) && WellPlaced(s.tables.layout) && Enabled(img, s, step) && s.parent == s.current
    requires 0 <= i < SLOTS && i != s.current && i != FirstFree(s.pcbs, 0)
    requires step.Exit? ==> i != s.pcbs[s.current].parent
    ensures |Next(img, s, step).pcbs| == SLOTS && Next(img, s, step).pcbs[i] == s.pcbs[i]
  {
  }

  // ----- The process forest in every reachable state -----

  /** One step of the kernel is one step of the three stacks. */
  lemma StepRefines(img: Image, s: State, c: Calls, step: Step)
    requires WellFormed(img) && Represents(img, s, c) && Enabled(img, s, step)
    ensures Represents(img, Next(img, s, step), NextCalls(c, step))
  {
    match step
    case Exec(loads, command, frame) => ExecKeeps(img, s, c, loads, command, frame);
    case Exit => ExitKeeps(img, s, c);
    case RootExit(shell, frame) => RelaunchKeeps(img, s, c, shell, frame);
    case Key(t, alt, shell, saved, first) => KeyKeeps(img, s, c, t, alt, shell, saved, first);
    case OpenFile(entry) => OpenKeeps(img, s, c, entry);
    case CloseFile(fd) => CloseKeeps(img, s, c, fd);
    case ReadFile(fd, nbytes) => ReadKeeps(img, s, c, fd, nbytes);
    case MapScreen(screenStart) => MapScreenKeeps(img, s, c, screenStart);
  }

  /** Over any run the process table refines three call stacks. */
  lemma {:induction false} RunRefines(img: Image, s: State, c: Calls, steps: seq<Step>)
    requires WellFormed(img) && Represents(img, s, c) && CanRun(img, s, steps)
    ensures Represents(img, Run(img, s, steps), RunCalls(c, steps))
    decreases |steps|
  {
    if steps != [] {
      StepRefines(img, s, c, steps[0]);
      RunRefines(img, Next(img, s, steps[0]), NextCalls(c, steps[0]), steps[1..]);
    }
  }

  /** After `init_PCB_array` and `init_paging`, before the first shell: terminal 0 in front, nothing started. */
  ghost predicate Initial(s: State) {
    && |s.pcbs| == SLOTS && |s.terms| == TERMINALS && Booted(s.tables) && s.tables.dir[VIDMAP_ENTRY] == SIZE
    && s.current == s.parent == s.front == s.nextTerm == 0
    && (forall i | 0 <= i < SLOTS :: Idle(s.pcbs[i]))
    && (forall t | 0 <= t < TERMINALS :: !s.terms[t].started)
  }

  const BOOT_CALLS := Calls([[0], [], []], 0)

  /** The first shell is slot 0, alone on the stack of terminal 0. */
  lemma BootRepresents(img: Image, s: State, shell: seq<Byte>, frame: Frame)
    requires WellFormed(img) && Initial(s)
    ensures Shape(s) && ExecuteResult(s, true) == Launched(0)
    ensures Represents(img, Execute(s, true, shell, frame), BOOT_CALLS)
    ensures Execute(s, true, shell, frame).pcbs[0].frame == frame
    ensures Execute(s, true, shell, frame).pcbs[0].command == shell
  {
    assert forall i | 0 <= i < SLOTS :: Idle(s.pcbs[i]) ==> |s.pcbs[i].files| == DESCRIPTORS && !s.pcbs[i].live;
    assert FirstFree(s.pcbs, 0) == 0;
    var after := Execute(s, true, shell, frame);
    assert Link(img, after.pcbs, 0, [0], 0);
    forall t | 0 <= t < TERMINALS ensures Chain(img, after.pcbs, t, BOOT_CALLS.stacks[t]) {
    }
    MappingKeepsBooted(s.tables, 0);
  }

  // ----- A run into the broken relaunch -----

  lemma RunOne(img: Image, s: State, c: Calls, step: Step, rest: seq<Step>)
    requires WellFormed(img) && Represents(img, s, c) && Enabled(img, s, step)
    requires CanRun(img, Next(img, s, step), rest)
    ensures CanRun(img, s, [step] + rest)
    ensures Run(img, s, [step] + rest) == Run(img, Next(img, s, step), rest)
  {
    assert ([step] + rest)[0] == step && ([step] + rest)[1..] == rest;
  }

  /** Five steps after boot: launch a program, show terminal 1, go back, let the program exit, show terminal 1.
      Its shell is then in slot 2 with slot 1 free. */
  lemma UnluckyRun(img: Image, s: State, shell: seq<Byte>, frame: Frame)
    returns (steps: seq<Step>, unlucky: State, calls: Calls)
    requires WellFormed(img) && Represents(img, s, BOOT_CALLS)
    ensures CanRun(img, s, steps) && unlucky == Run(img, s, steps)
    ensures calls == Calls([[0], [2], []], 1) && Represents(img, unlucky, calls)
  {
    var launch := Exec(true, shell, frame);
    var show, back := Key(1, true, shell, frame, frame), Key(0, true, shell, frame, frame);
    var c1, c2, c3 := Calls([[0, 1], [], []], 0), Calls([[0, 1], [2], []], 1), Calls([[0, 1], [2], []], 0);
    var c4 := Calls([[0], [2], []], 0);
    calls := Calls([[0], [2], []], 1);
    UnluckyCalls(launch, show, back);
    HasShape(img, s, BOOT_CALLS);
    StepRefines(img, s, BOOT_CALLS, launch);
    var s1 := Next(img, s, launch);
    HasShape(img, s1, c1);
    StepRefines(img, s1, c1, show);
    var s2 := Next(img, s1, show);
    HasShape(img, s2, c2);
    StepRefines(img, s2, c2, back);
    var s3 := Next(img, s2, back);
    HasShape(img, s3, c3);
    StepRefines(img, s3, c3, Exit);
    var s4 := Next(img, s3, Exit);
    HasShape(img, s4, c4);
    StepRefines(img, s4, c4, show);
    unlucky := Next(img, s4, show);
    RunOne(img, s4, c4, show, []);
    RunOne(img, s3, c3, Exit, [show] + []);
    RunOne(img, s2, c2, back, [Exit] + ([show] + []));
    RunOne(img, s1, c1, show, [back] + ([Exit] + ([show] + [])));
    RunOne(img, s, BOOT_CALLS, launch, [show] + ([back] + ([Exit] + ([show] + []))));
    steps := [launch] + ([show] + ([back] + ([Exit] + ([show] + []))));
  }

  lemma UnluckyCalls(launch: Step, show: Step, back: Step)
    requires launch.Exec? && launch.loads
    requires show.Key? && show.t == 1 && show.alt && back.Key? && back.t == 0 && back.alt
    ensures NextCalls(BOOT_CALLS, launch) == Calls([[0, 1], [], []], 0)
    ensures NextCalls(Calls([[0, 1], [], []], 0), show) == Calls([[0, 1], [2], []], 1)
    ensures NextCalls(Calls([[0, 1], [2], []], 1), back) == Calls([[0, 1], [2], []], 0)
    ensures NextCalls(Calls([[0, 1], [2], []], 0), Exit) == Calls([[0], [2], []], 0)
    ensures NextCalls(Calls([[0], [2], []], 0), show) == Calls([[0], [2], []], 1)
  {
    assert !Busy(BOOT_CALLS, 1) && Busy(BOOT_CALLS, 0);
    assert LowestIdle(BOOT_CALLS, 0) == 1;
    assert [0] + [1] == [0, 1] && NextCalls(BOOT_CALLS, launch).stacks == [[0, 1], [], []];
    var c := Calls([[0, 1], [], []], 0);
    assert !Busy(c, 2) && 0 in c.stacks[0] && 1 in c.stacks[0] && Busy(c, 0) && Busy(c, 1);
    assert LowestIdle(c, 0) == 2;
  }

  /** The guard of the relaunch step does fail: from boot a run reaches a root shell whose exit and relaunch
      leave no forest at all. */
  lemma RelaunchCanBreak(img: Image, s: State, shell: seq<Byte>, frame: Frame) returns (steps: seq<Step>)
    requires WellFormed(img) && Initial(s)
    ensures Shape(s) && CanRun(img, Execute(s, true, shell, frame), steps)
    ensures var last := Run(img, Execute(s, true, shell, frame), steps);
            && Shape(last) && last.pcbs[last.current].live && IsRoot(last, last.current)
            && forall d :: !Represents(img, Relaunch(last, shell, frame), d)
  {
    BootRepresents(img, s, shell, frame);
    var last, calls;
    steps, last, calls := UnluckyRun(img, Execute(s, true, shell, frame), shell, frame);
    HasShape(img, last, calls);
    assert !Busy(calls, 1);
    RelaunchKeepsExactlyWhen(img, last, calls, shell, frame);
  }

  // ----- Launch and relaunch always find a slot -----

  /** Whenever a key press starts a terminal, a root shell is relaunched or the first shell is launched,
      execute does not report a full table: the retry loops never turn. The last clause needs no guard. */
  lemma LaunchFindsSlot(img: Image, s: State, c: Calls, step: Step)
    requires WellFormed(img) && Represents(img, s, c) && Enabled(img, s, step)
    ensures step.Key? && KeySwitches(s, step.t, step.alt) && !s.terms[step.t].started ==>
              ExecuteResult(s, true) == Launched(LowestIdle(c, 0))
    ensures Shape(Halt(s))
    ensures step.RootExit? ==> ExecuteResult(Halt(s), true) == Launched(s.current)
    ensures IsRoot(s, s.current) ==> ExecuteResult(Halt(s), true).Launched?
  {
    HaltKeepsShape(s);
    HasShape(img, s, c);
    FreeIsIdle(img, s, c);
    assert IsRoot(s, s.current) ==> !Halt(s).pcbs[s.current].live;
  }

  // ----- Execute and halt bracket a program -----

  /** Two programs launched by the same one are the same. */
  lemma OneChild(img: Image, s: State, c: Calls, a: int, b: int)
    requires WellFormed(img) && Represents(img, s, c) && Busy(c, a) && Busy(c, b)
    requires 0 <= a < SLOTS && 0 <= b < SLOTS && s.pcbs[a].parent == s.pcbs[b].parent
    requires s.pcbs[a].parent != a && s.pcbs[b].parent != b
    ensures a == b
  {
    BusyIsLive(img, s, c, a);
    BusyIsLive(img, s, c, b);
    var t, u := s.pcbs[a].terminal, s.pcbs[b].terminal;
    var j := OnStack(img, s, c, t, a);
    var k := OnStack(img, s, c, u, b);
    assert Chain(img, s.pcbs, t, c.stacks[t]);
  }

  /** `child` was launched by `mother`, which waits with the record `saved` in the frame `frame`. */
  ghost predicate Waiting(s: State, mother: int, child: int, saved: Pcb, frame: Frame) {
    && |s.pcbs| == SLOTS && 0 <= mother < SLOTS && 0 <= child < SLOTS && mother != child
    && s.pcbs[child].live && s.pcbs[child].parent == mother && s.pcbs[child].frame == frame
    && s.pcbs[child].terminal == saved.terminal
    && saved.live && s.pcbs[mother] == saved.(active := false)
  }

  /** A step that is no exit leaves the running program where it is in the tree. */
  lemma OwnRecord(img: Image, s: State, step: Step)
    requires WellFormed(img) && WellPlaced(s.tables.layout) && Enabled(img, s, step) && s.parent == s.current
    requires !step.Exit? && !step.RootExit?
    ensures |Next(img, s, step).pcbs| == SLOTS
    ensures var p, q := s.pcbs[s.current], Next(img, s, step).pcbs[s.current];
            q.live && q.parent == p.parent && q.frame == p.frame && q.terminal == p.terminal
  {
  }

  /** The exit of a launched program changes nothing but activity in the other records. */
  lemma ExitRecord(s: State, i: int)
    requires Shape(s) && s.pcbs[s.current].live && 0 <= i < SLOTS && i != s.current
    ensures |Halt(s).pcbs| == SLOTS && Halt(s).pcbs[i] == s.pcbs[i].(active := Halt(s).pcbs[i].active)
  {
  }

  /** As long as the child does not exit, nothing that happens changes that. */
  lemma WaitingStep(img: Image, s: State, c: Calls, step: Step, mother: int, child: int, saved: Pcb, frame: Frame)
    requires WellFormed(img) && Represents(img, s, c) && Enabled(img, s, step)
    requires Waiting(s, mother, child, saved, frame)
    requires step.Exit? ==> s.current != child
    ensures Waiting(Next(img, s, step), mother, child, saved, frame)
  {
    HasShape(img, s, c);
    FreeIsIdle(img, s, c);
    if step.Exit? {
      if s.pcbs[s.current].parent == mother {
        assert !Busy(c, child) ==> Idle(s.pcbs[child]);
        OneChild(img, s, c, s.current, child);
      }
      StepFrame(img, s, step, mother);
      ExitRecord(s, child);
    } else {
      StepFrame(img, s, step, mother);
      if s.current == child {
        OwnRecord(img, s, step);
      } else {
        StepFrame(img, s, step, child);
      }
    }
  }

  /** The child never exits during the run. */
  ghost predicate StaysUp(img: Image, s: State, steps: seq<Step>, child: int)
    requires WellFormed(img) && CanRun(img, s, steps)
    decreases |steps|
  {
    steps == [] ||
    ((steps[0].Exit? ==> s.current != child) && StaysUp(img, Next(img, s, steps[0]), steps[1..], child))
  }

  lemma {:induction false} WaitingRun(img: Image, s: State, c: Calls, steps: seq<Step>,
                                      mother: int, child: int, saved: Pcb, frame: Frame)
    requires WellFormed(img) && Represents(img, s, c) && CanRun(img, s, steps)
    requires Waiting(s, mother, child, saved, frame) && StaysUp(img, s, steps, child)
    ensures Waiting(Run(img, s, steps), mother, child, saved, frame)
    decreases |steps|
  {
    if steps != [] {
      WaitingStep(img, s, c, steps[0], mother, child, saved, frame);
      StepRefines(img, s, c, steps[0]);
      WaitingRun(img, Next(img, s, steps[0]), NextCalls(c, steps[0]), steps[1..], mother, child, saved, frame);
    }
  }

  /** The exit of a program whose launcher waits as it was when it made the call. */
  lemma ExitRestores(img: Image, s: State, c: Calls, before: State, e: Calls, child: int, frame: Frame)
    requires WellFormed(img) && Represents(img, s, c) && Shape(s) && s.pcbs[s.current].active
    requires Represents(img, before, e) && before.current == child
    requires Waiting(before, s.current, child, s.pcbs[s.current], frame) && before.pcbs[child].terminal == s.front
    ensures Enabled(img, before, Exit) && HaltFrame(before) == frame
    ensures var after := Halt(before);
            && after.current == s.current && after.parent == s.parent && after.front == s.front
            && |after.pcbs| == SLOTS && after.pcbs[s.current] == s.pcbs[s.current]
            && after.esp0 == s.esp0
            && |after.tables.dir| == ENTRIES && after.tables.dir[PROGRAM_ENTRY] == s.tables.dir[PROGRAM_ENTRY]
  {
    HasShape(img, before, e);
    ExitKeeps(img, before, e);
  }

  /** Between an execute and the exit of what it launched anything may happen, on every terminal. The exit
      returns through the frame of that execute, and the caller runs on exactly as it was: current program,
      its whole record with descriptors and active flag, its page entry and its kernel stack pointer. */
  lemma ExecuteHaltBracket(img: Image, s: State, c: Calls, loads: bool, command: seq<Byte>, frame: Frame,
                           steps: seq<Step>)
    requires WellFormed(img) && Represents(img, s, c)
    requires Shape(s) && ExecuteResult(s, loads).Launched?
    requires CanRun(img, Execute(s, loads, command, frame), steps)
    requires StaysUp(img, Execute(s, loads, command, frame), steps, ExecuteResult(s, loads).slot)
    requires Run(img, Execute(s, loads, command, frame), steps).current == ExecuteResult(s, loads).slot
    ensures var before := Run(img, Execute(s, loads, command, frame), steps);
            && Enabled(img, before, Exit)
            && HaltFrame(before) == frame
            && var after := Halt(before);
               && after.current == s.current && after.parent == s.parent && after.front == s.front
               && after.pcbs[s.current] == s.pcbs[s.current]
               && after.esp0 == s.esp0
               && after.tables.dir[PROGRAM_ENTRY] == s.tables.dir[PROGRAM_ENTRY]
  {
    HasShape(img, s, c);
    FreeIsIdle(img, s, c);
    var child, saved := FirstFree(s.pcbs, 0), s.pcbs[s.current];
    var launched := Execute(s, loads, command, frame);
    ExecKeeps(img, s, c, loads, command, frame);
    assert Waiting(launched, s.current, child, saved, frame);
    var d := NextCalls(c, Exec(loads, command, frame));
    WaitingRun(img, launched, d, steps, s.current, child, saved, frame);
    RunRefines(img, launched, d, steps);
    var before, e := Run(img, launched, steps), RunCalls(d, steps);
    ExitRestores(img, s, c, before, e, child, frame);
  }
}
