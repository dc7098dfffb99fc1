/** Which device a call on a descriptor reaches: the plain table of open devices, kept by opens and closes alone. */
module OpenTables {
  import opened Bytes
  import opened Paging
  import opened FileSystem
  import opened Processes
  import opened CallStacks
  import opened ProcessRuns
  import opened DescriptorRuns
  import opened LaunchRuns

  /** The simple machine: a device for each descriptor that is open. */
  type Table = t: seq<Option<Device>> | |t| == DESCRIPTORS witness seq(DESCRIPTORS, _ => None)

  const AT_LAUNCH: Table := [Some(Stdin), Some(Stdout), None, None, None, None, None, None]

  function LowestClosed(table: Table, from: nat): (d: nat)
    requires from <= DESCRIPTORS
    ensures from <= d <= DESCRIPTORS && (d < DESCRIPTORS ==> table[d].None?)
    ensures forall j | from <= j < d :: table[j].Some?
    decreases DESCRIPTORS - from
  {
    if from == DESCRIPTORS || table[from].None? then from else LowestClosed(table, from + 1)
  }

  function Opened(table: Table, device: Device): Table {
    var d := LowestClosed(table, FIRST_FILE);
    if d < DESCRIPTORS then table[d := Some(device)] else table
  }

  function NextTable(table: Table, step: Step): Table {
    match step
    case OpenFile(Some(Found(0, _))) => Opened(table, Rtc)
    case OpenFile(Some(Found(1, _))) => Opened(table, Directory)
    case OpenFile(Some(Found(2, _))) => Opened(table, RegularFile)
    case CloseFile(fd) => if FIRST_FILE <= fd < DESCRIPTORS then table[fd := None] else table
    case _ => table
  }

  /** The table of program `q` after the steps it makes itself. */
  ghost function TableAfter(img: Image, s: State, steps: seq<Step>, q: int, table: Table): Table
    requires WellFormed(img) && CanRun(img, s, steps)
    decreases |steps|
  {
    if steps == [] then table
    else
      var next := if s.current == q then NextTable(table, steps[0]) else table;
      TableAfter(img, Next(img, s, steps[0]), steps[1..], q, next)
  }

  predicate Describes(table: Table, files: seq<Descriptor>) {
    && |files| == DESCRIPTORS
    && forall d | 0 <= d < DESCRIPTORS :: table[d] == if files[d].inUse then Some(files[d].device) else None
  }

  lemma LowestAgree(table: Table, files: seq<Descriptor>)
    requires Describes(table, files)
    ensures LowestClosed(table, FIRST_FILE) == FirstUnused(files, FIRST_FILE)
  {
  }

  // ----- What the calls do with it -----

  /** For every descriptor number: a read reaches what is open there, except on 1; a write, except on 0; a close
      succeeds on what is open from 2 on; an open returns the lowest descriptor from 2 on that is closed. */
  lemma CallsReach(s: State, table: Table, fd: int, entry: Option<Found>)
    requires Shape(s) && Describes(table, s.pcbs[s.current].files)
    ensures ReadTarget(s, fd) == if fd == 0 || FIRST_FILE <= fd < DESCRIPTORS then table[fd] else None
    ensures WriteTarget(s, fd) == if 1 <= fd < DESCRIPTORS then table[fd] else None
    ensures CloseAllowed(s, fd) <==> FIRST_FILE <= fd < DESCRIPTORS && table[fd].Some?
    ensures var d := LowestClosed(table, FIRST_FILE);
            OpenResult(s, entry) ==
              if entry.Some? && entry.value.fileType in {0, 1, 2} && d < DESCRIPTORS then d else -1
  {
    LowestAgree(table, s.pcbs[s.current].files);
  }

  lemma OwnOpen(img: Image, s: State, entry: Option<Found>, table: Table)
    requires Shape(s) && Describes(table, s.pcbs[s.current].files) && (entry.Some? ==> KnownType(img, entry.value))
    ensures Shape(Open(s, entry))
    ensures Describes(NextTable(table, OpenFile(entry)), Open(s, entry).pcbs[s.current].files)
  {
    LowestAgree(table, s.pcbs[s.current].files);
  }

  lemma OwnClose(s: State, fd: int, table: Table)
    requires Shape(s) && Describes(table, s.pcbs[s.current].files)
    ensures Shape(Close(s, fd))
    ensures Describes(NextTable(table, CloseFile(fd)), Close(s, fd).pcbs[s.current].files)
  {
  }

  lemma OwnRead(img: Image, s: State, fd: int, nbytes: int, table: Table)
    requires WellFormed(img) && Shape(s) && Describes(table, s.pcbs[s.current].files)
    ensures Shape(Read(img, s, fd, nbytes))
    ensures Describes(table, Read(img, s, fd, nbytes).pcbs[s.current].files)
  {
  }

  lemma OwnStep(img: Image, s: State, c: Calls, step: Step, table: Table)
    requires WellFormed(img) && Represents(img, s, c) && Enabled(img, s, step)
    requires !step.Exit? && !step.RootExit? && Shape(s) && Describes(table, s.pcbs[s.current].files)
    ensures |Next(img, s, step).pcbs| == SLOTS
    ensures Describes(NextTable(table, step), Next(img, s, step).pcbs[s.current].files)
  {
    HasShape(img, s, c);
    match step
    case OpenFile(entry) => OwnOpen(img, s, entry, table);
    case CloseFile(fd) => OwnClose(s, fd, table);
    case ReadFile(fd, nbytes) => OwnRead(img, s, fd, nbytes, table);
    case _ => FilesStep(img, s, c, step, s.current);
  }

  /** Over any run in which a program persists, its descriptors are what its own opens and closes make of them. */
  lemma {:induction false} TableOverRuns(img: Image, s: State, c: Calls, steps: seq<Step>, q: int, table: Table)
    requires WellFormed(img) && Represents(img, s, c) && CanRun(img, s, steps)
    requires Busy(c, q) && Persists(img, s, steps, q)
    requires 0 <= q < |s.pcbs| && Describes(table, s.pcbs[q].files)
    ensures q < |Run(img, s, steps).pcbs|
    ensures Describes(TableAfter(img, s, steps, q, table), Run(img, s, steps).pcbs[q].files)
    decreases |steps|
  {
    if steps != [] {
      HasShape(img, s, c);
      FilesStep(img, s, c, steps[0], q);
      StepRefines(img, s, c, steps[0]);
      if s.current == q {
        OwnStep(img, s, c, steps[0], table);
      }
      TableOverRuns(img, Next(img, s, steps[0]), NextCalls(c, steps[0]), steps[1..], q,
                    if s.current == q then NextTable(table, steps[0]) else table);
    }
  }

  /** From its launch on, however it was launched: a program that has neither ended nor been relaunched and is
      the running one reaches with each call on each descriptor what its own opens and closes have left there. */
  lemma CallsSinceLaunch(img: Image, s: State, c: Calls, step: Step, steps: seq<Step>, fd: int, entry: Option<Found>)
    requires WellFormed(img) && Represents(img, s, c) && Enabled(img, s, step) && Launches(s, step)
    requires CanRun(img, Next(img, s, step), steps)
    requires Persists(img, Next(img, s, step), steps, LaunchSlot(s, step))
    requires Run(img, Next(img, s, step), steps).current == LaunchSlot(s, step)
    ensures var after := Run(img, Next(img, s, step), steps);
            var table := TableAfter(img, Next(img, s, step), steps, LaunchSlot(s, step), AT_LAUNCH);
            && Shape(after)
            && ReadTarget(after, fd) == (if fd == 0 || FIRST_FILE <= fd < DESCRIPTORS then table[fd] else None)
            && WriteTarget(after, fd) == (if 1 <= fd < DESCRIPTORS then table[fd] else None)
            && (CloseAllowed(after, fd) <==> FIRST_FILE <= fd < DESCRIPTORS && table[fd].Some?)
            && var d := LowestClosed(table, FIRST_FILE);
               OpenResult(after, entry) ==
                 if entry.Some? && entry.value.fileType in {0, 1, 2} && d < DESCRIPTORS then d else -1
  {
    var next, d, q := Next(img, s, step), NextCalls(c, step), LaunchSlot(s, step);
    LaunchRecord(img, s, c, step);
    LaunchFiles(img, s, c, step);
    TableOverRuns(img, next, d, steps, q, AT_LAUNCH);
    RunRefines(img, next, d, steps);
    HasShape(img, Run(img, next, steps), RunCalls(d, steps));
    CallsReach(Run(img, next, steps), TableAfter(img, next, steps, q, AT_LAUNCH), fd, entry);
  }

  lemma LaunchFiles(img: Image, s: State, c: Calls, step: Step)
    requires WellFormed(img) && Represents(img, s, c) && Enabled(img, s, step) && Launches(s, step)
    ensures 0 <= LaunchSlot(s, step) < |Next(img, s, step).pcbs|
    ensures Describes(AT_LAUNCH, Next(img, s, step).pcbs[LaunchSlot(s, step)].files)
  {
    LaunchRecord(img, s, c, step);
  }

  lemma BootFiles(img: Image, s: State, shell: seq<Byte>, frame: Frame)
    requires WellFormed(img) && Initial(s) && Shape(s)
    ensures |Execute(s, true, shell, frame).pcbs| == SLOTS
    ensures Describes(AT_LAUNCH, Execute(s, true, shell, frame).pcbs[0].files)
  {
    BootRepresents(img, s, shell, frame);
  }

  /** stdin and stdout stay what they are for good. */
  lemma {:induction false} StandardStay(img: Image, s: State, steps: seq<Step>, q: int, table: Table)
    requires WellFormed(img) && CanRun(img, s, steps) && table[0] == Some(Stdin) && table[1] == Some(Stdout)
    ensures TableAfter(img, s, steps, q, table)[..FIRST_FILE] == [Some(Stdin), Some(Stdout)]
    decreases |steps|
  {
    if steps != [] {
      StandardStay(img, Next(img, s, steps[0]), steps[1..], q,
                   if s.current == q then NextTable(table, steps[0]) else table);
    }
  }

  // ----- From an open to the reads -----

  /** A successful open of a regular file gives a descriptor at its first byte. */
  lemma OpenStreams(img: Image, s: State, c: Calls, e: Found)
    requires WellFormed(img) && Represents(img, s, c) && Shape(s) && KnownType(img, e) && e.fileType == 2
    requires OpenResult(s, Some(e)) != -1
    ensures FIRST_FILE <= OpenResult(s, Some(e)) < DESCRIPTORS
    ensures Streams(img, Open(s, Some(e)), s.current, OpenResult(s, Some(e)), e.inode, 0)
  {
    HasShape(img, s, c);
  }

  /** From the open on, whatever happens in between, what the program reads from the descriptor is the file from
      its first byte, in order and without gaps, for as long as it keeps the descriptor open. */
  lemma ReadsSinceOpen(img: Image, s: State, c: Calls, e: Found, steps: seq<Step>)
    requires WellFormed(img) && Represents(img, s, c) && Shape(s) && KnownType(img, e) && e.fileType == 2
    requires OpenResult(s, Some(e)) != -1
    requires CanRun(img, Open(s, Some(e)), steps) && Persists(img, Open(s, Some(e)), steps, s.current)
    requires KeepsOpen(img, Open(s, Some(e)), steps, s.current, OpenResult(s, Some(e)))
    ensures var r, start := OpenResult(s, Some(e)), Open(s, Some(e));
            var got := Transcript(img, start, steps, s.current, r);
            && got <= Contents(img, e.inode)
            && Streams(img, Run(img, start, steps), s.current, r, e.inode, |got|)
  {
    var r := OpenResult(s, Some(e));
    HasShape(img, s, c);
    OpenStreams(img, s, c, e);
    OpenKeeps(img, s, c, Some(e));
    Streaming(img, Open(s, Some(e)), c, steps, s.current, r, e.inode, 0);
  }
}
