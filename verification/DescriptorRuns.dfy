/** Descriptors, file positions and address translation over whole runs. */
module DescriptorRuns {
  import opened Bytes
  import opened Paging
  import opened FileSystem
  import opened Processes
  import opened CallStacks
  import opened ProcessRuns

  // ----- Dispatch never goes through a null operation -----

  /** What the calls let through on this descriptor has an operation to go to. */
  predicate SafeAt(s: State, fd: int)
    requires Shape(s)
  {
    && (ReadAllowed(s, fd) ==> HasRead(s.pcbs[s.current].files[fd].device))
    && (WriteAllowed(s, fd) ==> HasWrite(s.pcbs[s.current].files[fd].device))
    && (CloseAllowed(s, fd) ==> HasClose(s.pcbs[s.current].files[fd].device))
  }

  ghost predicate Safe(s: State)
    requires Shape(s)
  {
    forall fd :: SafeAt(s, fd)
  }

  lemma SafeDispatch(img: Image, s: State, c: Calls)
    requires WellFormed(img) && Represents(img, s, c) && Shape(s)
    ensures Safe(s)
  {
    HasShape(img, s, c);
    var files := s.pcbs[s.current].files;
    forall fd ensures SafeAt(s, fd) {
      assert FIRST_FILE <= fd < DESCRIPTORS && files[fd].inUse ==> GoodFile(img, files[fd]);
    }
  }

  predicate IsFile(d: Device) { d.Rtc? || d.Directory? || d.RegularFile? }

  /** After an open every read, write and close on every descriptor still has an operation exactly when no
      descriptor was free, the type is one of the three, or the descriptor has operations left over from an
      earlier file. For one never used since the launch the type alone decides. */
  lemma OpenIsSafeExactlyWhen(img: Image, s: State, c: Calls, e: Found)
    requires WellFormed(img) && Represents(img, s, c) && Shape(s)
    ensures Shape(Open(s, Some(e)))
    ensures var files := s.pcbs[s.current].files;
            var d := FirstUnused(files, FIRST_FILE);
            && (Safe(Open(s, Some(e))) <==> d == DESCRIPTORS || e.fileType <= 2 || IsFile(files[d].device))
            && (d < DESCRIPTORS && files[d].device == NoDevice ==> (Safe(Open(s, Some(e))) <==> e.fileType <= 2))
  {
    SafeDispatch(img, s, c);
    var files, after := s.pcbs[s.current].files, Open(s, Some(e));
    var d := FirstUnused(files, FIRST_FILE);
    if d < DESCRIPTORS {
      assert SafeAt(after, d) <==> e.fileType <= 2 || IsFile(files[d].device);
      forall fd | fd != d ensures SafeAt(after, fd) {
        assert SafeAt(s, fd);
      }
    }
  }

  /** A successful open returns the lowest descriptor that was free, and takes it; a failed one of a known
      type happens only when all are taken. */
  lemma OpenTakesLowest(img: Image, s: State, c: Calls, e: Found)
    requires WellFormed(img) && Represents(img, s, c) && Shape(s) && KnownType(img, e)
    ensures var files, r := s.pcbs[s.current].files, OpenResult(s, Some(e));
            if r == -1 then (forall d | FIRST_FILE <= d < DESCRIPTORS :: files[d].inUse) && Open(s, Some(e)) == s
            else FIRST_FILE <= r < DESCRIPTORS && !files[r].inUse && (forall d | FIRST_FILE <= d < r :: files[d].inUse)
                 && Open(s, Some(e)).pcbs[s.current].files ==
                    files[r := Descriptor(if e.fileType == 0 then Rtc else if e.fileType == 1 then Directory
                                          else RegularFile, e.inode, 0, true)]
  {
  }

  /** The running program keeps stdin and stdout. */
  lemma StandardStreams(img: Image, s: State, c: Calls, i: int)
    requires WellFormed(img) && Represents(img, s, c) && Busy(c, i)
    ensures 0 <= i < SLOTS && |s.pcbs[i].files| == DESCRIPTORS
    ensures s.pcbs[i].files[0].device == Stdin && s.pcbs[i].files[0].inUse
    ensures s.pcbs[i].files[1].device == Stdout && s.pcbs[i].files[1].inUse
  {
    BusyIsLive(img, s, c, i);
  }

  // ----- The number of descriptors in use -----

  function InUse(files: seq<Descriptor>, from: nat): nat
    requires from <= |files|
    decreases |files| - from
  {
    if from == |files| then 0 else (if files[from].inUse then 1 else 0) + InUse(files, from + 1)
  }

  lemma {:induction false} InUseUpdate(files: seq<Descriptor>, from: nat, d: nat, f: Descriptor)
    requires from <= d < |files|
    ensures InUse(files[d := f], from) ==
            InUse(files, from) - (if files[d].inUse then 1 else 0) + (if f.inUse then 1 else 0)
    decreases d - from
  {
    if from < d {
      InUseUpdate(files, from + 1, d, f);
    } else {
      InUseSame(files, files[d := f], from + 1);
    }
  }

  lemma {:induction false} InUseSame(files: seq<Descriptor>, other: seq<Descriptor>, from: nat)
    requires |files| == |other| && from <= |files| && forall d | from <= d < |files| :: files[d] == other[d]
    ensures InUse(files, from) == InUse(other, from)
    decreases |files| - from
  {
    if from < |files| {
      InUseSame(files, other, from + 1);
    }
  }

  /** What one step adds to the opens minus the closes of program `q`. */
  ghost function Opened(s: State, step: Step, q: int): int
    requires Shape(s)
  {
    if s.current != q then 0
    else match step
      case OpenFile(entry) => if OpenResult(s, entry) != -1 then 1 else 0
      case CloseFile(fd) => if CloseAllowed(s, fd) then -1 else 0
      case _ => 0
  }

  ghost function OpenedInRun(img: Image, s: State, steps: seq<Step>, q: int): int
    requires WellFormed(img) && CanRun(img, s, steps)
    decreases |steps|
  {
    if steps == [] then 0 else Opened(s, steps[0], q) + OpenedInRun(img, Next(img, s, steps[0]), steps[1..], q)
  }

  /** The program in slot `q` neither exits nor is relaunched. */
  ghost predicate Persists(img: Image, s: State, steps: seq<Step>, q: int)
    requires WellFormed(img) && CanRun(img, s, steps)
    decreases |steps|
  {
    steps == [] ||
    ((steps[0].Exit? || steps[0].RootExit? ==> s.current != q) && Persists(img, Next(img, s, steps[0]), steps[1..], q))
  }

  lemma BusyStays(c: Calls, step: Step, q: int)
    requires WellFormedCalls(c) && Busy(c, q) && (step.Exit? ==> q != Top(c))
    ensures Busy(NextCalls(c, step), q)
  {
    var stack := c.stacks[c.front];
    assert stack == stack[..|stack| - 1] + [Top(c)];
  }

  /** A step that is not an exit of `q` leaves its descriptors alone unless `q` itself opens, closes or reads. */
  lemma FilesStep(img: Image, s: State, c: Calls, step: Step, q: int)
    requires WellFormed(img) && Represents(img, s, c) && Enabled(img, s, step) && Busy(c, q)
    requires step.Exit? || step.RootExit? ==> s.current != q
    ensures Busy(NextCalls(c, step), q) && 0 <= q < SLOTS && |s.pcbs| == |Next(img, s, step).pcbs| == SLOTS
    ensures !(s.current == q && (step.OpenFile? || step.CloseFile? || step.ReadFile?)) ==>
              Next(img, s, step).pcbs[q].files == s.pcbs[q].files
  {
    HasShape(img, s, c);
    FreeIsIdle(img, s, c);
    BusyIsLive(img, s, c, q);
    BusyStays(c, step, q);
    if step.Exit? {
      ExitRecord(s, q);
    } else if q != s.current {
      StepFrame(img, s, step, q);
    }
  }

  lemma CountStep(img: Image, s: State, c: Calls, step: Step, q: int)
    requires WellFormed(img) && Represents(img, s, c) && Enabled(img, s, step) && Busy(c, q)
    requires step.Exit? || step.RootExit? ==> s.current != q
    requires 0 <= q < |s.pcbs| == |Next(img, s, step).pcbs|
    requires |s.pcbs[q].files| == |Next(img, s, step).pcbs[q].files| == DESCRIPTORS
    ensures InUse(Next(img, s, step).pcbs[q].files, FIRST_FILE) ==
            InUse(s.pcbs[q].files, FIRST_FILE) + Opened(s, step, q)
  {
    HasShape(img, s, c);
    FilesStep(img, s, c, step, q);
    if s.current == q {
      var files := s.pcbs[q].files;
      match step
      case OpenFile(entry) =>
        var d := FirstUnused(files, FIRST_FILE);
        if entry.Some? && d < DESCRIPTORS {
          var e := entry.value;
          InUseUpdate(files, FIRST_FILE, d, Descriptor(DeviceOf(e.fileType, files[d].device), e.inode, 0, true));
        }
      case CloseFile(fd) =>
        if CloseAllowed(s, fd) {
          InUseUpdate(files, FIRST_FILE, fd, files[fd].(inUse := false));
        }
      case ReadFile(fd, nbytes) =>
        if ReadAllowed(s, fd) && fd >= FIRST_FILE {
          var f := files[fd];
          InUseUpdate(files, FIRST_FILE, fd, f.(position := f.position + |ReadBytes(img, f, nbytes)|));
        } else {
          InUseSame(files, Next(img, s, step).pcbs[q].files, FIRST_FILE);
        }
      case _ =>
    }
  }

  /** Over any run in which it persists, the descriptors a program has in use are its successful opens minus
      its closes, on top of what it started with. */
  lemma {:induction false} InUseCounts(img: Image, s: State, c: Calls, steps: seq<Step>, q: int)
    requires WellFormed(img) && Represents(img, s, c) && CanRun(img, s, steps)
    requires Persists(img, s, steps, q) && Busy(c, q)
    ensures Busy(RunCalls(c, steps), q)
    ensures 0 <= q < |s.pcbs| == |Run(img, s, steps).pcbs|
    ensures |s.pcbs[q].files| == |Run(img, s, steps).pcbs[q].files| == DESCRIPTORS
    ensures InUse(Run(img, s, steps).pcbs[q].files, FIRST_FILE) ==
            InUse(s.pcbs[q].files, FIRST_FILE) + OpenedInRun(img, s, steps, q)
    decreases |steps|
  {
    BusyIsLive(img, s, c, q);
    if steps != [] {
      var next, d := Next(img, s, steps[0]), NextCalls(c, steps[0]);
      StepRefines(img, s, c, steps[0]);
      FilesStep(img, s, c, steps[0], q);
      BusyIsLive(img, next, d, q);
      CountStep(img, s, c, steps[0], q);
      InUseCounts(img, next, d, steps[1..], q);
    }
  }

  /** A program starts with none in use beyond the standard two. */
  lemma LaunchedWithNone()
    ensures InUse(LAUNCH_FILES, FIRST_FILE) == 0
  {
    assert InUse(LAUNCH_FILES, 8) == 0;
    assert InUse(LAUNCH_FILES, 6) == 0;
    assert InUse(LAUNCH_FILES, 4) == 0;
  }

  /** Since its launch a program has in use, beyond the standard two, its successful opens minus its closes. */
  lemma InUseSinceLaunch(img: Image, s: State, c: Calls, loads: bool, command: seq<Byte>, frame: Frame,
                         steps: seq<Step>)
    requires WellFormed(img) && Represents(img, s, c) && Shape(s) && ExecuteResult(s, loads).Launched?
    requires CanRun(img, Execute(s, loads, command, frame), steps)
    requires Persists(img, Execute(s, loads, command, frame), steps, ExecuteResult(s, loads).slot)
    ensures var child, launched := ExecuteResult(s, loads).slot, Execute(s, loads, command, frame);
            && |Run(img, launched, steps).pcbs| == SLOTS && |Run(img, launched, steps).pcbs[child].files| == DESCRIPTORS
            && InUse(Run(img, launched, steps).pcbs[child].files, FIRST_FILE) ==
               OpenedInRun(img, launched, steps, child)
  {
    FreeIsIdle(img, s, c);
    ExecKeeps(img, s, c, loads, command, frame);
    LaunchedWithNone();
    var child, launched := ExecuteResult(s, loads).slot, Execute(s, loads, command, frame);
    var d := NextCalls(c, Exec(loads, command, frame));
    assert d.stacks[d.front][|d.stacks[d.front]| - 1] == child;
    assert Busy(d, child);
    InUseCounts(img, launched, d, steps, child);
  }

  // ----- Streaming a file through a descriptor -----

  /** The bytes that the reads of program `q` on descriptor `fd` return during one step, and during a run. */
  ghost function Returned(img: Image, s: State, step: Step, q: int, fd: int): seq<Byte>
    requires WellFormed(img) && Enabled(img, s, step)
  {
    if step.ReadFile? && step.fd == fd && s.current == q && ReadAllowed(s, fd)
    then ReadBytes(img, s.pcbs[q].files[fd], step.nbytes) else []
  }

  ghost function Transcript(img: Image, s: State, steps: seq<Step>, q: int, fd: int): seq<Byte>
    requires WellFormed(img) && CanRun(img, s, steps)
    decreases |steps|
  {
    if steps == [] then [] else
      Returned(img, s, steps[0], q, fd) + Transcript(img, Next(img, s, steps[0]), steps[1..], q, fd)
  }

  /** `q` keeps descriptor `fd` open during the run. */
  ghost predicate KeepsOpen(img: Image, s: State, steps: seq<Step>, q: int, fd: int)
    requires WellFormed(img) && CanRun(img, s, steps)
    decreases |steps|
  {
    steps == [] ||
    ((steps[0].CloseFile? && steps[0].fd == fd ==> s.current != q) &&
     KeepsOpen(img, Next(img, s, steps[0]), steps[1..], q, fd))
  }

  ghost predicate Streams(img: Image, s: State, q: int, fd: int, inode: nat, position: nat)
    requires WellFormed(img)
  {
    && 0 <= q < |s.pcbs| && 0 <= fd < |s.pcbs[q].files|
    && s.pcbs[q].files[fd] == Descriptor(RegularFile, inode, position, true)
    && inode < |img.inodes| && position <= img.inodes[inode].length
  }

  lemma StreamStep(img: Image, s: State, c: Calls, step: Step, q: int, fd: int, inode: nat, position: nat)
    requires WellFormed(img) && Represents(img, s, c) && Enabled(img, s, step) && Busy(c, q)
    requires step.Exit? || step.RootExit? ==> s.current != q
    requires step.CloseFile? && step.fd == fd ==> s.current != q
    requires FIRST_FILE <= fd < DESCRIPTORS && Streams(img, s, q, fd, inode, position)
    ensures Streams(img, Next(img, s, step), q, fd, inode, position + |Returned(img, s, step, q, fd)|)
    ensures IsSliceOf(Returned(img, s, step, q, fd), Contents(img, inode), position)
    ensures Represents(img, Next(img, s, step), NextCalls(c, step)) && Busy(NextCalls(c, step), q)
  {
    HasShape(img, s, c);
    FilesStep(img, s, c, step, q);
    StepRefines(img, s, c, step);
  }

  /** Whatever happens on other descriptors, in other programs and on other terminals, the reads of one
      descriptor return consecutive bytes of the file: their total is where the position ends up, which is
      never past the end. */
  lemma {:induction false} Streaming(img: Image, s: State, c: Calls, steps: seq<Step>, q: int, fd: int,
                                     inode: nat, position: nat)
    requires WellFormed(img) && Represents(img, s, c) && CanRun(img, s, steps) && Busy(c, q)
    requires Persists(img, s, steps, q) && KeepsOpen(img, s, steps, q, fd)
    requires FIRST_FILE <= fd < DESCRIPTORS && Streams(img, s, q, fd, inode, position)
    ensures Streams(img, Run(img, s, steps), q, fd, inode, position + |Transcript(img, s, steps, q, fd)|)
    ensures IsSliceOf(Transcript(img, s, steps, q, fd), Contents(img, inode), position)
    decreases |steps|
  {
    if steps != [] {
      var next, d := Next(img, s, steps[0]), NextCalls(c, steps[0]);
      var got, rest := Returned(img, s, steps[0], q, fd), Transcript(img, next, steps[1..], q, fd);
      StreamStep(img, s, c, steps[0], q, fd, inode, position);
      Streaming(img, next, d, steps[1..], q, fd, inode, position + |got|);
      SlicesJoin(got, rest, Contents(img, inode), position);
      assert Transcript(img, s, steps, q, fd) == got + rest;
    }
  }

  ghost predicate IsSliceOf(got: seq<Byte>, file: seq<Byte>, position: nat) {
    position + |got| <= |file| && got == file[position..position + |got|]
  }

  lemma SlicesJoin(got: seq<Byte>, rest: seq<Byte>, file: seq<Byte>, position: nat)
    requires IsSliceOf(got, file, position) && IsSliceOf(rest, file, position + |got|)
    ensures IsSliceOf(got + rest, file, position)
  {
  }

  /** A read with any other count than 0 returns nothing exactly at the end of the file. */
  lemma EmptyReadExactlyAtEnd(img: Image, f: Descriptor, nbytes: int)
    requires WellFormed(img) && GoodFile(img, f) && f.device.RegularFile?
    requires -0x8000_0000 <= nbytes < 0x8000_0000 && nbytes != 0
    ensures ReadBytes(img, f, nbytes) == [] <==> f.position == img.inodes[f.inode].length
  {
  }

  // ----- Address translation in every reachable state -----

  /** In every reachable state program space is the running program's own frame, each saved screen address
      is that terminal's own page, and the screen is the screen. */
  lemma TranslationOverRuns(img: Image, s: State, c: Calls, steps: seq<Step>, t: int, offset: int, small: int)
    requires WellFormed(img) && Represents(img, s, c) && CanRun(img, s, steps)
    requires 0 <= t < TERMINALS && 0 <= offset < FOUR_MB && 0 <= small < PAGE
    ensures var after := Run(img, s, steps);
            && Shaped(after.tables)
            && Translate(after.tables, PROGRAM_BASE + offset) == Maps(EIGHT_MB + after.current * FOUR_MB + offset, true)
            && Translate(after.tables, HistoryAddress(t) + small) == Maps(HistoryPage(t) + small, true)
            && Translate(after.tables, SCREEN + small) == Maps(SCREEN + small, false)
            && Translate(after.tables, VIDMAP_BASE + small) in {Fault, Maps(SCREEN + small, true)}
  {
    RunRefines(img, s, c, steps);
    var after := Run(img, s, steps);
    HasShape(img, after, RunCalls(c, steps));
    ProgramPage(after.tables, after.current, offset);
    HistoryMapped(after.tables, t, small);
    ScreenMapped(after.tables, small);
    VidmapMapped(after.tables, small);
  }

  // ----- The vidmap window over runs -----

  /** Some step of the run is a vidmap call with a variable in program space, its end included. */
  ghost predicate MapsScreen(steps: seq<Step>) {
    exists k :: 0 <= k < |steps| && IsMapping(steps[k])
  }

  predicate IsMapping(step: Step) {
    step.MapScreen? && PROGRAM_BASE <= step.screenStart <= PROGRAM_BASE + FOUR_MB
  }

  lemma WindowStep(img: Image, s: State, c: Calls, step: Step, offset: int)
    requires WellFormed(img) && Represents(img, s, c) && Enabled(img, s, step) && 0 <= offset < PAGE
    ensures Represents(img, Next(img, s, step), NextCalls(c, step))
    ensures Window(Next(img, s, step).tables, offset) <==> Window(s.tables, offset) || IsMapping(step)
    ensures !Window(s.tables, offset) ==> Translate(s.tables, VIDMAP_BASE + offset) == Fault
  {
    StepRefines(img, s, c, step);
    VidmapMapped(s.tables, offset);
    VidmapMapped(Next(img, s, step).tables, offset);
    VidmapShows(s.tables, offset);
    WindowEntry(img, s, step);
  }

  lemma WindowEntry(img: Image, s: State, step: Step)
    requires WellFormed(img) && WellPlaced(s.tables.layout) && Enabled(img, s, step)
    ensures Shaped(Next(img, s, step).tables)
    ensures if IsMapping(step) then Next(img, s, step).tables == MapVideo(s.tables)
            else Next(img, s, step).tables.dir[VIDMAP_ENTRY] == s.tables.dir[VIDMAP_ENTRY]
  {
  }

  /** Over any run the window shows the screen exactly when it did before or a vidmap call has succeeded, and
      faults otherwise. */
  lemma {:induction false} WindowOverRuns(img: Image, s: State, c: Calls, steps: seq<Step>, offset: int)
    requires WellFormed(img) && Represents(img, s, c) && CanRun(img, s, steps) && 0 <= offset < PAGE
    ensures Booted(Run(img, s, steps).tables)
    ensures var shown := Translate(Run(img, s, steps).tables, VIDMAP_BASE + offset);
            shown == if Window(s.tables, offset) || MapsScreen(steps) then Maps(SCREEN + offset, true) else Fault
    decreases |steps|
  {
    if steps == [] {
      VidmapMapped(s.tables, offset);
    } else {
      WindowStep(img, s, c, steps[0], offset);
      WindowOverRuns(img, Next(img, s, steps[0]), NextCalls(c, steps[0]), steps[1..], offset);
      MapsScreenSplits(steps);
    }
  }

  lemma MapsScreenSplits(steps: seq<Step>)
    requires steps != []
    ensures MapsScreen(steps) <==> IsMapping(steps[0]) || MapsScreen(steps[1..])
  {
    if MapsScreen(steps) {
      var k :| 0 <= k < |steps| && IsMapping(steps[k]);
      assert k > 0 ==> steps[1..][k - 1] == steps[k];
    }
  }

  /** From boot on: the window shows the screen exactly when some vidmap call has succeeded. */
  lemma WindowSinceBoot(img: Image, s: State, shell: seq<Byte>, frame: Frame, steps: seq<Step>, offset: int)
    requires WellFormed(img) && Initial(s) && 0 <= offset < PAGE
    requires Shape(s) && CanRun(img, Execute(s, true, shell, frame), steps)
    ensures var after := Run(img, Execute(s, true, shell, frame), steps).tables;
            && Shaped(after)
            && Translate(after, VIDMAP_BASE + offset) ==
               if MapsScreen(steps) then Maps(SCREEN + offset, true) else Fault
  {
    var boot := Execute(s, true, shell, frame);
    BootRepresents(img, s, shell, frame);
    VidmapMapped(boot.tables, offset);
    WindowOverRuns(img, boot, BOOT_CALLS, steps, offset);
  }

  /** In every reachable state no byte of the program's space, of the screen or of a saved screen is
      another one's. */
  lemma PagesApartOverRuns(img: Image, s: State, c: Calls, steps: seq<Step>,
                           t: int, u: int, offset: int, a: int, b: int)
    requires WellFormed(img) && Represents(img, s, c) && CanRun(img, s, steps)
    requires 0 <= t < TERMINALS && 0 <= u < TERMINALS && 0 <= offset < FOUR_MB && 0 <= a < PAGE && 0 <= b < PAGE
    ensures Shaped(Run(img, s, steps).tables) && PagesApart(Run(img, s, steps).tables, t, u, offset, a, b)
  {
    RunRefines(img, s, c, steps);
    var after := Run(img, s, steps);
    HasShape(img, after, RunCalls(c, steps));
    BootedPagesApart(after.tables, after.current, t, u, offset, a, b);
  }

  /** The program space of a moment and that of a later one share a byte only when the same slot runs, and then
      at the same address: no program reaches another slot's frame. */
  lemma SlotFramesApart(img: Image, s: State, c: Calls, steps: seq<Step>, a: int, b: int)
    requires WellFormed(img) && Represents(img, s, c) && CanRun(img, s, steps)
    requires 0 <= a < FOUR_MB && 0 <= b < FOUR_MB
    ensures Shaped(s.tables) && Shaped(Run(img, s, steps).tables)
    ensures var after := Run(img, s, steps);
            var now, later := Translate(s.tables, PROGRAM_BASE + a), Translate(after.tables, PROGRAM_BASE + b);
            && now.Maps? && later.Maps?
            && (now.physical == later.physical <==> s.current == after.current && a == b)
  {
    RunRefines(img, s, c, steps);
    var after := Run(img, s, steps);
    HasShape(img, s, c);
    HasShape(img, after, RunCalls(c, steps));
    ProgramPage(s.tables, s.current, a);
    ProgramPage(after.tables, after.current, b);
  }

  // ----- Kernel stacks -----

  predicate InPcb(i: int, address: int, bytes: nat) {
    PcbAddress(i) <= address < PcbAddress(i) + bytes
  }

  /** The room of slot `i`'s kernel stack: below its own control block, above the end of the next one. */
  predicate InStack(i: int, address: int, bytes: nat) {
    PcbAddress(i) - 0x2000 + bytes <= address < PcbAddress(i)
  }

  /** In every reachable state the kernel stack that a system call of the running program will use starts in the
      room of its slot, which shares no byte with a control block or with another slot's room and lies in the
      kernel's 4 MB; `bytes` is the size of a control block. */
  lemma KernelStackOverRuns(img: Image, s: State, c: Calls, steps: seq<Step>, i: int, address: int, bytes: nat)
    requires WellFormed(img) && Represents(img, s, c) && CanRun(img, s, steps)
    requires 0 <= i < SLOTS && bytes <= 0x2000 - 4
    ensures var after := Run(img, s, steps);
            && 0 <= after.current < SLOTS && InStack(after.current, after.esp0, bytes)
            && (InStack(after.current, address, bytes) ==> !InPcb(i, address, bytes) && FOUR_MB <= address < EIGHT_MB)
            && (InStack(after.current, address, bytes) && InStack(i, address, bytes) ==> i == after.current)
  {
    RunRefines(img, s, c, steps);
    HasShape(img, Run(img, s, steps), RunCalls(c, steps));
  }

  /** An exit leaves nothing open in the slot that is given up. */
  lemma HaltCloses(s: State, d: int)
    requires Shape(s) && s.pcbs[s.current].live && 0 <= d < DESCRIPTORS
    ensures |Halt(s).pcbs| == SLOTS && |Halt(s).pcbs[s.current].files| == DESCRIPTORS
    ensures !Halt(s).pcbs[s.current].files[d].inUse && Halt(s).pcbs[s.current].files[d].device == NoDevice
  {
  }
}
