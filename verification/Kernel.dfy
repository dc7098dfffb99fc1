/** The calls of student-distrib/syscalls.c and multiprocess.c, step by step on the global tables.
    `Abs` is the state the calls are specified on in module Processes. */
module Kernel {
  import opened Bytes
  import opened Paging
  import opened FileSystem
  import opened Processes
  import opened CallStacks
  import ProcessRuns

  class Kernel {
    const img: Image
    const pcbs: array<Pcb>    // PCB_array
    const terms: array<Term>  // three_term_buf
    const pages: PageTables
    var current: int
    var parent: int
    var front: int
    var nextTerm: int
    var esp0: int             // tss.esp0

    ghost predicate Valid() {
      pcbs.Length == SLOTS && terms.Length == TERMINALS && pages.Valid() && WellFormed(img)
    }

    ghost function Repr(): set<object> {
      {this, pcbs, terms, pages.dir, pages.table, pages.vidmap, pages.terminals}
    }

    ghost function Abs(): State
      reads Repr()
    {
      State(pcbs[..], current, parent, terms[..], front, nextTerm, pages.Abs(), esp0)
    }

    /** Boot: `init_PCB_array`, `init_paging` and the terminal pages (kernel.c, entry). */
    constructor (img: Image, layout: Layout)
      requires WellFormed(img) && WellPlaced(layout)
      ensures Valid() && fresh(Repr()) && this.img == img
      ensures ProcessRuns.Initial(Abs())
    {
      this.img := img;
      pcbs := new Pcb[SLOTS](_ => Pcb(HALT_FILES, 0, true, NO_PARENT, NO_FRAME, 0, [], false, 0));
      terms := new Term[TERMINALS](_ => Term(false, 0, 0, NO_FRAME));
      pages := new PageTables(layout);
      current, parent, front, nextTerm, esp0 := 0, 0, 0, 0, EIGHT_MB;
      new;
      InitPcbArray();
      pages.Boot();
    }

    method InitPcbArray()
      requires Valid() && forall i | 0 <= i < SLOTS :: |pcbs[i].files| == DESCRIPTORS
      modifies pcbs
      ensures forall i | 0 <= i < SLOTS :: Idle(pcbs[i])
    {
      for i := 0 to SLOTS
        invariant forall j | 0 <= j < i :: Idle(pcbs[j])
        invariant forall j | 0 <= j < SLOTS :: |pcbs[j].files| == DESCRIPTORS
      {
        pcbs[i] := pcbs[i].(live := false);
        pcbs[i] := pcbs[i].(active := false);
        pcbs[i] := pcbs[i].(terminal := NO_TERMINAL);
      }
    }

    // ----- Searches over the table -----

    /** The loop of `sys_call_execute` that looks for a slot. */
    method FindFree() returns (i: nat)
      requires Valid()
      ensures i == FirstFree(pcbs[..], 0)
    {
      i := 0;
      while i < SLOTS
        invariant 0 <= i <= SLOTS && FirstFree(pcbs[..], 0) == FirstFree(pcbs[..], i)
      {
        if !pcbs[i].live {
          break;
        }
        i := i + 1;
      }
    }

    /** `is_PCB_array_full`: count the slots in use and compare with six. */
    method IsFull() returns (full: bool)
      requires Valid()
      ensures full == Full(Abs())
    {
      var count := 0;
      for i := 0 to SLOTS
        invariant count <= i
        invariant count == i <==> forall j | 0 <= j < i :: pcbs[j].live
      {
        if pcbs[i].live {
          count := count + 1;
        }
      }
      full := count == SLOTS;
      assert full ==> forall j | 0 <= j < SLOTS :: pcbs[..][j].live;
    }

    /** `get_current_process_ID(t)`. */
    method FindActive(t: int) returns (pid: int)
      requires Valid()
      ensures pid == ActivePid(pcbs[..], t, 0)
    {
      for i := 0 to SLOTS
        invariant ActivePid(pcbs[..], t, 0) == ActivePid(pcbs[..], t, i)
      {
        if pcbs[i].terminal == t && pcbs[i].active {
          return pcbs[i].pid;
        }
      }
      return NOT_FOUND;
    }

    // ----- execute -----

    method Execute(loads: bool, command: seq<Byte>, frame: Frame) returns (r: Launch)
      requires Valid() && Shape(Abs())
      modifies this`current, this`parent, this`esp0, pcbs, terms, pages.dir
      ensures Abs() == Processes.Execute(old(Abs()), loads, command, frame)
      ensures r == ExecuteResult(old(Abs()), loads)
    {
      if !loads {
        return NotLoaded;
      }
      var i := FindFree();
      if i == SLOTS {
        pcbs[current] := pcbs[current].(command := command);
        return TableFull;
      }
      LaunchSlot(i, command, frame);
      return Launched(i);
    }

    /** Parts 3 to 5: fill the control block, map its page, mark it active, record the frame. */
    method LaunchSlot(i: nat, command: seq<Byte>, frame: Frame)
      requires Valid() && Shape(Abs()) && i < SLOTS
      modifies this`current, this`parent, this`esp0, pcbs, terms, pages.dir
      ensures Abs() == LaunchIn(old(Abs()), i, command, frame)
    {
      ghost var was := Abs();
      FillSlot(i, command);
      pages.dir[PROGRAM_ENTRY] := ProgramEntry(i);
      MarkActive(i);
      pcbs[i] := pcbs[i].(parentEsp0 := esp0);
      esp0 := Esp0(i);
      pcbs[i] := pcbs[i].(frame := frame);
      assert pcbs[..] == LaunchIn(was, i, command, frame).pcbs;
    }

    /** Part 3: the slot is taken, its descriptors opened, and it is linked to the running program. */
    method FillSlot(i: nat, command: seq<Byte>)
      requires Valid() && i < SLOTS && |pcbs[i].files| == DESCRIPTORS
      modifies this`current, this`parent, pcbs
      ensures pcbs[..] == old(pcbs[..])[i := old(pcbs[i]).(files := LAUNCH_FILES, pid := i, live := true,
                            command := command, parent := if i != 0 then old(parent) else i)]
      ensures current == i && parent == if i != 0 then i else old(parent)
    {
      pcbs[i] := pcbs[i].(pid := i, live := true);
      current := i;
      pcbs[i] := pcbs[i].(command := command);
      OpenStandard(i);
      if current != 0 {
        pcbs[i] := pcbs[i].(parent := parent);
        parent := current;
      } else {
        pcbs[i] := pcbs[i].(parent := i);
      }
    }

    /** The first program of a terminal becomes its root; any other one takes over from the one that launched it. */
    method MarkActive(i: nat)
      requires Valid() && i < SLOTS && 0 <= nextTerm < TERMINALS && 0 <= pcbs[i].parent < SLOTS
      modifies pcbs, terms
      ensures terms[..] == old(terms[..])[nextTerm := old(terms[nextTerm]).(started := true)]
      ensures !old(terms[nextTerm].started) ==>
                pcbs[..] == old(pcbs[..])[i := old(pcbs[i]).(parent := i, active := true, terminal := nextTerm)]
      ensures old(terms[nextTerm].started) && old(pcbs[i].parent) == i ==> pcbs[..] == old(pcbs[..])
      ensures old(terms[nextTerm].started) && old(pcbs[i].parent) != i ==>
                pcbs[..] ==
                old(pcbs[..])[old(pcbs[i].parent) := old(pcbs[pcbs[i].parent]).(active := false)]
                             [i := old(pcbs[i]).(active := true, terminal := old(pcbs[pcbs[i].parent]).terminal)]
    {
      if !terms[nextTerm].started {
        pcbs[i] := pcbs[i].(parent := i);
        terms[nextTerm] := terms[nextTerm].(started := true);
        pcbs[i] := pcbs[i].(active := true, terminal := nextTerm);
      }
      var link := pcbs[i].parent;
      if link != i {
        pcbs[link] := pcbs[link].(active := false);
        pcbs[i] := pcbs[i].(active := true, terminal := pcbs[link].terminal);
      }
    }

    /** Descriptors 0 and 1 are opened on the terminal, the others cleared in a loop. */
    method OpenStandard(i: nat)
      requires Valid() && i < SLOTS && |pcbs[i].files| == DESCRIPTORS
      modifies pcbs
      ensures pcbs[..] == old(pcbs[..])[i := old(pcbs[i]).(files := LAUNCH_FILES)]
    {
      pcbs[i] := pcbs[i].(files := pcbs[i].files[0 := Descriptor(Stdin, -1, 0, true)]);
      pcbs[i] := pcbs[i].(files := pcbs[i].files[1 := Descriptor(Stdout, -1, 0, true)]);
      for j := FIRST_FILE to DESCRIPTORS
        invariant pcbs[i] == old(pcbs[i]).(files := pcbs[i].files)
        invariant |pcbs[i].files| == DESCRIPTORS && forall k | FIRST_FILE <= k < j :: pcbs[i].files[k] == FRESH
        invariant pcbs[i].files[0] == LAUNCH_FILES[0] && pcbs[i].files[1] == LAUNCH_FILES[1]
        invariant forall k | 0 <= k < SLOTS && k != i :: pcbs[k] == old(pcbs[k])
      {
        pcbs[i] := pcbs[i].(files := pcbs[i].files[j := FRESH]);
      }
      assert pcbs[i].files == LAUNCH_FILES;
    }

    // ----- halt -----

    method Halt() returns (resumed: Frame)
      requires Valid() && Shape(Abs()) && pcbs[current].live
      requires 0 <= pcbs[pcbs[current].parent].pid < SLOTS
      modifies this`current, this`parent, this`esp0, pcbs, pages.dir
      ensures Abs() == Processes.Halt(old(Abs())) && resumed == HaltFrame(old(Abs()))
    {
      ghost var was := Abs();
      resumed := pcbs[parent].frame;
      esp0 := pcbs[current].parentEsp0;
      CloseAll();
      var up := pcbs[current].parent;
      if up == current {
        pcbs[current] := pcbs[current].(live := false);
      } else {
        pcbs[up] := pcbs[up].(active := true);
        pcbs[current] := pcbs[current].(active := false, live := false, terminal := NO_TERMINAL);
        parent := pcbs[up].pid;
        pcbs[current] := pcbs[current].(parent := NO_PARENT, frame := NO_FRAME);
        current := pcbs[up].pid;
      }
      pages.dir[PROGRAM_ENTRY] := ProgramEntry(current);
      assert pcbs[..] == Processes.Halt(was).pcbs;
    }

    method CloseAll()
      requires Valid() && 0 <= current < SLOTS && |pcbs[current].files| == DESCRIPTORS
      modifies pcbs
      ensures pcbs[..] == old(pcbs[..])[current := old(pcbs[current]).(files := HALT_FILES)]
    {
      for i := 0 to DESCRIPTORS
        invariant pcbs[current] == old(pcbs[current]).(files := pcbs[current].files)
        invariant |pcbs[current].files| == DESCRIPTORS && forall j | 0 <= j < i :: pcbs[current].files[j] == CLOSED
        invariant forall k | 0 <= k < SLOTS && k != current :: pcbs[k] == old(pcbs[k])
      {
        pcbs[current] := pcbs[current].(files := pcbs[current].files[i := CLOSED]);
      }
      assert pcbs[current].files == HALT_FILES;
    }

    // ----- switch_terminal and the function keys -----

    /** `switch_terminal`, without the screen. A terminal shown for the first time is started by execute, which
        leaves for user code; the retry loop around it turns only on a full table, which the key path excludes. */
    method SwitchTerminal(cur: nat, next: nat, shell: seq<Byte>, frame: Frame, first: Frame)
      returns (r: Launch, resumed: Frame)
      requires Valid() && Shape(Abs()) && cur < TERMINALS && next < TERMINALS
      requires next != cur && !terms[next].started ==> FirstFree(pcbs[..], 0) < SLOTS
      requires terms[next].started ==> cur != next && 0 <= ActivePid(pcbs[..], next, 0) < SLOTS
      modifies this`nextTerm, this`current, this`parent, this`esp0, pcbs, terms, pages.dir
      ensures Abs() == Switch(old(Abs()), cur, next, shell, frame, first)
      ensures next != cur && !old(terms[next].started) ==> r.Launched?
      ensures old(terms[next].started) ==> r == NotLoaded && resumed == old(terms[next].frame)
    {
      LeaveTerminal(cur, next, frame);
      resumed := NO_FRAME;
      if !terms[next].started {
        r := Execute(true, shell, first);
        return;
      }
      r := NotLoaded;
      resumed := ResumeTerminal(next);
    }

    /** The registers and numbers of the terminal that is left are saved. */
    method LeaveTerminal(cur: nat, next: nat, frame: Frame)
      requires Valid() && cur < TERMINALS && next < TERMINALS
      modifies this`nextTerm, terms
      ensures Abs() == old(Abs()).(nextTerm := next,
                terms := old(terms[..])[cur := old(terms[cur]).(pid := current, ppid := parent, frame := frame)])
    {
      nextTerm := next;
      terms[cur] := terms[cur].(pid := current);
      terms[cur] := terms[cur].(ppid := parent);
      terms[cur] := terms[cur].(frame := frame);
    }

    /** The program on top of a started terminal runs again. */
    method ResumeTerminal(next: nat) returns (resumed: Frame)
      requires Valid() && Shape(Abs()) && next < TERMINALS && 0 <= ActivePid(pcbs[..], next, 0) < SLOTS
      modifies this`current, this`parent, this`esp0, pages.dir
      ensures resumed == terms[next].frame
      ensures var active := ActivePid(pcbs[..], next, 0);
              Abs() == old(Abs()).(parent := terms[next].ppid, current := terms[next].pid, esp0 := Esp0(active),
                                   tables := MapProgram(old(Abs()).tables, active))
    {
      parent := terms[next].ppid;
      current := terms[next].pid;
      var active := FindActive(next);
      esp0 := Esp0(active);
      pages.dir[PROGRAM_ENTRY] := ProgramEntry(active);
      resumed := terms[next].frame;
    }

    /** The F1, F2 and F3 cases of `getchar`; `refused` is the message that the table is full. */
    method FunctionKey(t: nat, alt: bool, shell: seq<Byte>, frame: Frame, first: Frame, ghost c: Calls)
      returns (refused: bool)
      requires Valid() && t < TERMINALS && Represents(img, Abs(), c) && Shape(Abs())
      modifies Repr()
      ensures Abs() == Processes.FunctionKey(old(Abs()), t, alt, shell, frame, first)
      ensures refused == (Full(old(Abs())) && !old(terms[t].started))
      ensures Represents(img, Abs(), NextCalls(c, Key(t, alt, shell, frame, first)))
    {
      KeyKeeps(img, Abs(), c, t, alt, shell, frame, first);
      refused := false;
      var full := IsFull();
      if full && !terms[t].started {
        return true;
      }
      if alt && front != t {
        var cur := front;
        if terms[t].started {
          ResumeAgreement(img, Abs(), c, t);
          OneActive(img, Abs(), c, t);
        }
        front := t;
        var r, resumed := SwitchTerminal(cur, t, shell, frame, first);
      }
    }

    // ----- open, close, read, vidmap -----

    method FindUnused(files: seq<Descriptor>) returns (d: nat)
      requires |files| == DESCRIPTORS
      ensures d == FirstUnused(files, FIRST_FILE)
    {
      d := FIRST_FILE;
      while d < DESCRIPTORS
        invariant FIRST_FILE <= d <= DESCRIPTORS && FirstUnused(files, FIRST_FILE) == FirstUnused(files, d)
      {
        if !files[d].inUse {
          break;
        }
        d := d + 1;
      }
    }

    method SetFile(d: nat, f: Descriptor)
      requires Valid() && 0 <= current < SLOTS && d < |pcbs[current].files|
      modifies pcbs
      ensures pcbs[..] == old(pcbs[..])[current := old(pcbs[current]).(files := old(pcbs[current]).files[d := f])]
    {
      pcbs[current] := pcbs[current].(files := pcbs[current].files[d := f]);
    }

    method Open(entry: Option<Found>) returns (r: int)
      requires Valid() && Shape(Abs())
      modifies pcbs
      ensures Abs() == Processes.Open(old(Abs()), entry) && r == OpenResult(old(Abs()), entry)
    {
      if entry.None? {
        return -1;
      }
      var e := entry.value;
      var d := FindUnused(pcbs[current].files);
      if d == DESCRIPTORS {
        return -1;
      }
      ghost var was := pcbs[current];
      SetFile(d, pcbs[current].files[d].(inode := e.inode, position := 0, inUse := true));
      if e.fileType == 0 {
        SetFile(d, pcbs[current].files[d].(device := Rtc));
        r := d;
      } else if e.fileType == 1 {
        SetFile(d, pcbs[current].files[d].(device := Directory));
        r := d;
      } else if e.fileType == 2 {
        SetFile(d, pcbs[current].files[d].(device := RegularFile));
        r := d;
      } else {
        r := -1;
      }
      ghost var taken := Descriptor(DeviceOf(e.fileType, was.files[d].device), e.inode, 0, true);
      assert pcbs[current].files == was.files[d := taken];
    }

    method Close(fd: int) returns (r: int)
      requires Valid() && Shape(Abs())
      modifies pcbs
      ensures Abs() == Processes.Close(old(Abs()), fd) && r == (if CloseAllowed(old(Abs()), fd) then 0 else -1)
    {
      if fd < FIRST_FILE || fd >= DESCRIPTORS {
        return -1;
      }
      if pcbs[current].files[fd].inUse {
        SetFile(fd, pcbs[current].files[fd].(inUse := false));
        return 0;
      }
      return -1;
    }

    /** `sys_call_read` with `file_read` behind it: where the call goes, and for a regular file what it returns. */
    method Read(fd: int, buf: array<Byte>, nbytes: int) returns (device: Option<Device>, r: int)
      requires Valid() && Shape(Abs()) && ReadFits(img, Abs(), fd, nbytes)
      requires GoodFiles(img, pcbs[current].files)
      requires ReadAllowed(Abs(), fd) ==> |ReadBytes(img, pcbs[current].files[fd], nbytes)| <= buf.Length
      modifies pcbs, buf
      ensures Abs() == Processes.Read(img, old(Abs()), fd, nbytes)
      ensures device == ReadTarget(old(Abs()), fd) && (device.Some? ==> HasRead(device.value))
      ensures device == None ==> r == -1 && buf[..] == old(buf[..])
      ensures device == Some(RegularFile) ==>
                var bytes := ReadBytes(img, old(pcbs[current]).files[fd], nbytes);
                r == |bytes| <= buf.Length && buf[..] == bytes + old(buf[..])[|bytes|..]
    {
      if fd == 1 || fd >= DESCRIPTORS || fd < 0 || !pcbs[current].files[fd].inUse {
        return None, -1;
      }
      var f := pcbs[current].files[fd];
      assert fd >= FIRST_FILE ==> GoodFile(img, f);
      if !f.device.RegularFile? || f.position >= img.inodes[f.inode].length {
        SetFile(fd, f);
        return Some(f.device), 0;
      }
      FileReadCopiesExactlyWhen(img, f.inode, f.position, nbytes);
      var outcome := ReadData(img, f.inode, f.position, buf, 0, AsUnsigned(nbytes));
      device, r := Some(f.device), outcome.count;
      SetFile(fd, f.(position := f.position + r));
    }

    /** `sys_call_write`: where the call goes. */
    method Write(fd: int) returns (device: Option<Device>)
      requires Valid() && Shape(Abs()) && GoodFiles(img, pcbs[current].files)
      ensures device == WriteTarget(Abs(), fd) && (device.Some? ==> HasWrite(device.value))
    {
      if fd == 0 || fd >= DESCRIPTORS || fd < 0 || !pcbs[current].files[fd].inUse {
        return None;
      }
      assert fd >= FIRST_FILE ==> GoodFile(img, pcbs[current].files[fd]);
      return Some(pcbs[current].files[fd].device);
    }

    /** `sys_call_vidmap`: the address of the window is stored in the caller's variable at `screenStart`. */
    method Vidmap(screenStart: Word) returns (r: int, stored: Option<Word>)
      requires Valid() && Shape(Abs())
      modifies pages.dir, pages.vidmap
      ensures Abs() == Processes.Vidmap(old(Abs()), screenStart)
      ensures PROGRAM_BASE <= screenStart <= PROGRAM_BASE + FOUR_MB ==> r == 0 && stored == Some(VIDMAP_BASE)
      ensures !(PROGRAM_BASE <= screenStart <= PROGRAM_BASE + FOUR_MB) ==> r == -1 && stored == None
      ensures r == 0 && Booted(old(Abs()).tables) ==>
                forall offset | 0 <= offset < PAGE :: Window(Abs().tables, offset)
    {
      if screenStart < 0x800_0000 || screenStart > 0x840_0000 {
        return -1, None;
      }
      ghost var was := Abs().tables;
      stored := Some(VIDMAP_BASE);
      PresentFits(pages.layout.vidmap);
      pages.vidmap[0] := SCREEN + USER_FLAGS;
      pages.dir[VIDMAP_BASE / FOUR_MB] := pages.layout.vidmap + USER_FLAGS;
      if Booted(was) {
        forall offset | 0 <= offset < PAGE ensures Window(MapVideo(was), offset) {
          VidmapShows(was, offset);
        }
      }
      return 0, stored;
    }
  }
}
