/** The state behind the process and terminal calls of student-distrib/syscalls.c and multiprocess.c,
    and what each call makes of it. */
module Processes {
  import opened Bytes
  import opened Paging
  import opened FileSystem

  const SLOTS: nat := 6            // SIZE_OF_PCB_ARRAY
  const TERMINALS: nat := 3
  const DESCRIPTORS: nat := 8      // SIZE_OF_FILE_ARRAY
  const FIRST_FILE: nat := 2       // FILE_ARRAY_START
  const NO_PARENT := -1            // a null parent_PCB
  const NO_TERMINAL := 255         // -1 in a byte
  const NOT_FOUND := 69            // what the table searches return by default

  /** A saved kernel stack position (esp and ebp): enough to know which call will return. */
  type Frame = int
  const NO_FRAME: Frame := 0

  /** The operation tables; `NoDevice` is the null pointer. */
  datatype Device = NoDevice | Stdin | Stdout | Rtc | Directory | RegularFile

  predicate HasRead(d: Device) { d.Stdin? || d.Rtc? || d.Directory? || d.RegularFile? }
  predicate HasWrite(d: Device) { d.Stdout? || d.Rtc? || d.Directory? || d.RegularFile? }
  predicate HasClose(d: Device) { !d.NoDevice? }

  datatype Descriptor = Descriptor(device: Device, inode: int, position: int, inUse: bool)

  datatype Pcb = Pcb(files: seq<Descriptor>, pid: int, live: bool, parent: int, frame: Frame,
                     parentEsp0: int, command: seq<Byte>, active: bool, terminal: int)

  datatype Term = Term(started: bool, pid: int, ppid: int, frame: Frame)

  datatype State = State(
    pcbs: seq<Pcb>,
    current: int,    // current_process_ID
    parent: int,     // parent_process_ID
    terms: seq<Term>,
    front: int,      // buffer_flag
    nextTerm: int,   // nxt_term
    tables: Tables,
    esp0: int)

  /** Sizes and index ranges that hold in every state of the C program. */
  ghost predicate Shape(s: State) {
    && |s.pcbs| == SLOTS && |s.terms| == TERMINALS && Shaped(s.tables)
    && 0 <= s.current < SLOTS && 0 <= s.parent < SLOTS
    && 0 <= s.front < TERMINALS && 0 <= s.nextTerm < TERMINALS
    && (forall i | 0 <= i < SLOTS :: |s.pcbs[i].files| == DESCRIPTORS)
    && (forall i | 0 <= i < SLOTS :: s.pcbs[i].live ==> 0 <= s.pcbs[i].parent < SLOTS)
  }

  /** Where the control block of slot `i` lies; the kernel stack of the slot grows down from there. */
  function PcbAddress(i: int): int {
    EIGHT_MB - 0x2000 - (i * 0x2000)
  }

  /** The kernel stack pointer for slot `i`. */
  function Esp0(i: int): int {
    EIGHT_MB - 0x2000 - (0x2000 * i) - 4
  }

  /** The first slot at or after `from` with `flag == 0`, or the size of the table. */
  function FirstFree(pcbs: seq<Pcb>, from: nat): (i: nat)
    requires from <= |pcbs|
    ensures from <= i <= |pcbs| && (i < |pcbs| ==> !pcbs[i].live)
    ensures forall j | from <= j < i :: pcbs[j].live
    decreases |pcbs| - from
  {
    if from == |pcbs| || !pcbs[from].live then from else FirstFree(pcbs, from + 1)
  }

  predicate Runs(p: Pcb, t: int) {
    p.terminal == t && p.active
  }

  /** `get_current_process_ID(t)`: the pid of the first active slot of terminal `t`. */
  function ActivePid(pcbs: seq<Pcb>, t: int, from: nat): int
    requires from <= |pcbs|
    decreases |pcbs| - from
  {
    if from == |pcbs| then NOT_FOUND
    else if Runs(pcbs[from], t) then pcbs[from].pid
    else ActivePid(pcbs, t, from + 1)
  }

  // ----- execute -----

  const FRESH := Descriptor(NoDevice, -1, 0, false)
  const LAUNCH_FILES: seq<Descriptor> :=
    [Descriptor(Stdin, -1, 0, true), Descriptor(Stdout, -1, 0, true), FRESH, FRESH, FRESH, FRESH, FRESH, FRESH]

  datatype Launch = NotLoaded | TableFull | Launched(slot: nat)

  /** What `sys_call_execute` does; `loads` is the outcome of its checks of the file. */
  function ExecuteResult(s: State, loads: bool): Launch
    requires Shape(s)
  {
    if !loads then NotLoaded
    else if FirstFree(s.pcbs, 0) == SLOTS then TableFull
    else Launched(FirstFree(s.pcbs, 0))
  }

  function Execute(s: State, loads: bool, command: seq<Byte>, frame: Frame): State
    requires Shape(s)
  {
    match ExecuteResult(s, loads)
    case NotLoaded => s
    // the command is stored before the table is found to be full: the caller's own is overwritten
    case TableFull => s.(pcbs := s.pcbs[s.current := s.pcbs[s.current].(command := command)])
    case Launched(i) => LaunchIn(s, i, command, frame)
  }

  /** Parts 3 to 5 of `sys_call_execute`, in slot `i`. */
  function LaunchIn(s: State, i: nat, command: seq<Byte>, frame: Frame): State
    requires Shape(s) && i < SLOTS
  {
    var root := !s.terms[s.nextTerm].started;
    var link := if root || i == 0 then i else s.parent;
    var child := s.pcbs[i].(
      files := LAUNCH_FILES, pid := i, live := true, parent := link, frame := frame,
      parentEsp0 := s.esp0, command := command,
      active := if root || link != i then true else s.pcbs[i].active,
      terminal := if link != i then s.pcbs[link].terminal else if root then s.nextTerm else s.pcbs[i].terminal);
    var pcbs := if link != i then s.pcbs[link := s.pcbs[link].(active := false)] else s.pcbs;
    s.(pcbs := pcbs[i := child],
       current := i,
       parent := if i != 0 then i else s.parent,
       terms := s.terms[s.nextTerm := s.terms[s.nextTerm].(started := true)],
       tables := MapProgram(s.tables, i),
       esp0 := Esp0(i))
  }

  // ----- halt -----

  const CLOSED := Descriptor(NoDevice, -1, -1, false)
  const HALT_FILES: seq<Descriptor> := [CLOSED, CLOSED, CLOSED, CLOSED, CLOSED, CLOSED, CLOSED, CLOSED]

  /** The frame `sys_call_halt` returns through. */
  function HaltFrame(s: State): Frame
    requires Shape(s)
  {
    s.pcbs[s.parent].frame
  }

  predicate IsRoot(s: State, i: int)
    requires 0 <= i < |s.pcbs|
  {
    s.pcbs[i].parent == i
  }

  function Halt(s: State): State
    requires Shape(s) && s.pcbs[s.current].live
  {
    var me := s.pcbs[s.current];
    var up := me.parent;
    var closed := me.(files := HALT_FILES, live := false);
    if up == s.current then
      s.(pcbs := s.pcbs[s.current := closed], esp0 := me.parentEsp0, tables := MapProgram(s.tables, s.current))
    else
      var gone := closed.(active := false, terminal := NO_TERMINAL, parent := NO_PARENT, frame := NO_FRAME);
      var mother := s.pcbs[up].(active := true);
      var next := if 0 <= mother.pid < SLOTS then mother.pid else s.current;
      s.(pcbs := s.pcbs[up := mother][s.current := gone],
         parent := next, current := next,
         esp0 := me.parentEsp0, tables := MapProgram(s.tables, next))
  }

  lemma HaltKeepsShape(s: State)
    requires Shape(s) && s.pcbs[s.current].live
    ensures Shape(Halt(s))
  {
  }

  /** A root shell that exits with status 0: its launch loop starts the shell again at once. */
  function Relaunch(s: State, shell: seq<Byte>, frame: Frame): State
    requires Shape(s) && s.pcbs[s.current].live
  {
    HaltKeepsShape(s);
    Execute(Halt(s), true, shell, frame)
  }

  // ----- switch_terminal and the function keys -----

  predicate Full(s: State)
    requires |s.pcbs| == SLOTS
  {
    FirstFree(s.pcbs, 0) == SLOTS
  }

  /** `switch_terminal(cur, t)`: `frame` is where the old terminal will resume, `first` the frame of the
      execute that starts a terminal shown for the first time. */
  function Switch(s: State, cur: nat, t: nat, shell: seq<Byte>, frame: Frame, first: Frame): State
    requires Shape(s) && cur < TERMINALS && t < TERMINALS
  {
    var left := s.terms[cur].(pid := s.current, ppid := s.parent, frame := frame);
    var saved := s.(nextTerm := t, terms := s.terms[cur := left]);
    if !saved.terms[t].started then Execute(saved, true, shell, first)
    else
      var active := ActivePid(saved.pcbs, t, 0);
      saved.(parent := saved.terms[t].ppid,
             current := saved.terms[t].pid,
             esp0 := Esp0(active),
             tables := if 0 <= active < SLOTS then MapProgram(saved.tables, active) else saved.tables)
  }

  /** What pressing F(t+1) leads to. */
  predicate KeySwitches(s: State, t: nat, alt: bool)
    requires Shape(s) && t < TERMINALS
  {
    !(Full(s) && !s.terms[t].started) && alt && s.front != t
  }

  function FunctionKey(s: State, t: nat, alt: bool, shell: seq<Byte>, frame: Frame, first: Frame): State
    requires Shape(s) && t < TERMINALS
  {
    if KeySwitches(s, t, alt) then Switch(s.(front := t), s.front, t, shell, frame, first) else s
  }

  // ----- descriptors -----

  /** A directory entry that `read_dentry_by_name` found: file type and inode. */
  datatype Found = Found(fileType: nat, inode: nat)

  /** The first unused descriptor at or after `from`, or the size of the table. */
  function FirstUnused(files: seq<Descriptor>, from: nat): (d: nat)
    requires from <= |files|
    ensures from <= d <= |files| && (d < |files| ==> !files[d].inUse)
    ensures forall j | from <= j < d :: files[j].inUse
    decreases |files| - from
  {
    if from == |files| || !files[from].inUse then from else FirstUnused(files, from + 1)
  }

  function DeviceOf(fileType: nat, stale: Device): Device {
    if fileType == 0 then Rtc else if fileType == 1 then Directory else if fileType == 2 then RegularFile else stale
  }

  /** The descriptor `sys_call_open` returns. */
  function OpenResult(s: State, entry: Option<Found>): int
    requires Shape(s)
  {
    var d := FirstUnused(s.pcbs[s.current].files, FIRST_FILE);
    if entry.None? || d == DESCRIPTORS || entry.value.fileType > 2 then -1 else d
  }

  datatype Option<T> = None | Some(value: T)

  function WithFile(s: State, d: nat, f: Descriptor): State
    requires Shape(s) && d < DESCRIPTORS
  {
    var me := s.pcbs[s.current];
    s.(pcbs := s.pcbs[s.current := me.(files := me.files[d := f])])
  }

  /** `sys_call_open`. A file type above 2 keeps the descriptor marked in use, with whatever operations it had. */
  function Open(s: State, entry: Option<Found>): State
    requires Shape(s)
  {
    var files := s.pcbs[s.current].files;
    var d := FirstUnused(files, FIRST_FILE);
    if entry.None? || d == DESCRIPTORS then s
    else WithFile(s, d, Descriptor(DeviceOf(entry.value.fileType, files[d].device), entry.value.inode, 0, true))
  }

  predicate CloseAllowed(s: State, fd: int)
    requires Shape(s)
  {
    FIRST_FILE <= fd < DESCRIPTORS && s.pcbs[s.current].files[fd].inUse
  }

  function Close(s: State, fd: int): State
    requires Shape(s)
  {
    if CloseAllowed(s, fd) then WithFile(s, fd, s.pcbs[s.current].files[fd].(inUse := false)) else s
  }

  predicate ReadAllowed(s: State, fd: int)
    requires Shape(s)
  {
    fd != 1 && 0 <= fd < DESCRIPTORS && s.pcbs[s.current].files[fd].inUse
  }

  predicate WriteAllowed(s: State, fd: int)
    requires Shape(s)
  {
    fd != 0 && 0 <= fd < DESCRIPTORS && s.pcbs[s.current].files[fd].inUse
  }

  /** The device whose operation the call runs, if it is let through. */
  function ReadTarget(s: State, fd: int): Option<Device>
    requires Shape(s)
  {
    if ReadAllowed(s, fd) then Some(s.pcbs[s.current].files[fd].device) else None
  }

  function WriteTarget(s: State, fd: int): Option<Device>
    requires Shape(s)
  {
    if WriteAllowed(s, fd) then Some(s.pcbs[s.current].files[fd].device) else None
  }

  /** The bytes a read of a regular file's descriptor returns. */
  ghost function ReadBytes(img: Image, f: Descriptor, nbytes: int): seq<Byte>
    requires WellFormed(img)
  {
    if f.device.RegularFile? && 0 <= f.inode < |img.inodes| && f.position >= 0
    then FlatSlice(Contents(img, f.inode), f.position, AsUnsigned(nbytes))
    else []
  }

  /** The count is a signed 32-bit number, and a read of a regular file with it stays within the file. */
  predicate ReadFits(img: Image, s: State, fd: int, nbytes: int)
    requires Shape(s)
  {
    && -0x8000_0000 <= nbytes < 0x8000_0000
    && (ReadAllowed(s, fd) ==>
          var f := s.pcbs[s.current].files[fd];
          f.device.RegularFile? && 0 <= f.inode < |img.inodes| && f.position >= 0 ==>
            CountFits(nbytes, f.position, img.inodes[f.inode].length))
  }

  /** `sys_call_read`: reading a regular file moves its position; the other devices keep theirs elsewhere. */
  ghost function Read(img: Image, s: State, fd: int, nbytes: int): State
    requires Shape(s) && WellFormed(img)
  {
    if !ReadAllowed(s, fd) then s
    else
      var f := s.pcbs[s.current].files[fd];
      WithFile(s, fd, f.(position := f.position + |ReadBytes(img, f, nbytes)|))
  }

  /** `sys_call_vidmap`. */
  predicate VidmapAllowed(screenStart: Word) {
    0x800_0000 <= screenStart <= 0x840_0000
  }

  function Vidmap(s: State, screenStart: Word): State
    requires Shape(s) && WellPlaced(s.tables.layout)
  {
    if VidmapAllowed(screenStart) then s.(tables := MapVideo(s.tables)) else s
  }
}
