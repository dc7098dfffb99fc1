/** The process table as three stacks of calls, one a terminal: the invariant of every reachable state. */
module CallStacks {
  import opened Bytes
  import opened Paging
  import opened FileSystem
  import opened Processes

  /** The simple machine: each terminal's launched programs, the shell at the bottom. */
  datatype Calls = Calls(stacks: seq<seq<int>>, front: int)

  ghost predicate WellFormedCalls(c: Calls) {
    |c.stacks| == TERMINALS && 0 <= c.front < TERMINALS && c.stacks[c.front] != []
  }

  predicate Busy(c: Calls, i: int)
    requires |c.stacks| == TERMINALS
  {
    i in c.stacks[0] || i in c.stacks[1] || i in c.stacks[2]
  }

  /** The lowest slot at or after `from` that is on no stack, or the number of slots. */
  function LowestIdle(c: Calls, from: nat): (i: nat)
    requires |c.stacks| == TERMINALS && from <= SLOTS
    ensures from <= i <= SLOTS && (i < SLOTS ==> !Busy(c, i))
    ensures forall j | from <= j < i :: Busy(c, j)
    decreases SLOTS - from
  {
    if from == SLOTS || !Busy(c, from) then from else LowestIdle(c, from + 1)
  }

  function Top(c: Calls): int
    requires WellFormedCalls(c)
  {
    c.stacks[c.front][|c.stacks[c.front]| - 1]
  }

  datatype Step =
    | Exec(loads: bool, command: seq<Byte>, frame: Frame)
    | Exit
    | RootExit(shell: seq<Byte>, relaunched: Frame)
    | Key(t: nat, alt: bool, shell: seq<Byte>, saved: Frame, first: Frame)
    | OpenFile(entry: Option<Found>)
    | CloseFile(fd: int)
    | ReadFile(fd: int, nbytes: int)
    | MapScreen(screenStart: Word)

  /** The three stacks under a step: launching pushes the lowest idle slot, exiting pops. */
  function NextCalls(c: Calls, step: Step): Calls
    requires |c.stacks| == TERMINALS && 0 <= c.front < TERMINALS
  {
    var idle := LowestIdle(c, 0);
    match step
    case Exec(loads, _, _) =>
      if loads && idle < SLOTS then c.(stacks := c.stacks[c.front := c.stacks[c.front] + [idle]]) else c
    case Exit =>
      var stack := c.stacks[c.front];
      if |stack| > 1 then c.(stacks := c.stacks[c.front := stack[..|stack| - 1]]) else c
    case Key(t, alt, _, _, _) =>
      if t >= TERMINALS || !alt || t == c.front || (c.stacks[t] == [] && idle == SLOTS) then c
      else if c.stacks[t] == [] then Calls(c.stacks[t := [idle]], t)
      else c.(front := t)
    case _ => c
  }

  // ----- When the table represents the stacks -----

  /** The descriptors of a running program. */
  ghost predicate GoodFiles(img: Image, files: seq<Descriptor>)
    requires WellFormed(img)
  {
    && |files| == DESCRIPTORS
    && files[0].device == Stdin && files[0].inUse
    && files[1].device == Stdout && files[1].inUse
    && forall d | FIRST_FILE <= d < DESCRIPTORS && files[d].inUse :: GoodFile(img, files[d])
  }

  ghost predicate GoodFile(img: Image, f: Descriptor)
    requires WellFormed(img)
  {
    && (f.device.Rtc? || f.device.Directory? || f.device.RegularFile?)
    && (f.device.RegularFile? ==> 0 <= f.inode < |img.inodes| && 0 <= f.position <= img.inodes[f.inode].length)
  }

  /** The `k`-th program of terminal `t`: live, linked to the one below, active only on top. */
  ghost predicate Link(img: Image, pcbs: seq<Pcb>, t: int, stack: seq<int>, k: nat)
    requires WellFormed(img) && k < |stack|
  {
    && 0 <= stack[k] < |pcbs|
    && var p := pcbs[stack[k]];
       && p.live && p.pid == stack[k] && p.terminal == t
       && p.parent == (if k == 0 then stack[0] else stack[k - 1])
       && p.active == (k == |stack| - 1)
       && GoodFiles(img, p.files)
       && (k > 0 ==> p.parentEsp0 == Esp0(stack[k - 1]))
  }

  ghost predicate Chain(img: Image, pcbs: seq<Pcb>, t: int, stack: seq<int>)
    requires WellFormed(img)
  {
    && (forall k | 0 <= k < |stack| :: Link(img, pcbs, t, stack, k))
    && (forall j, k | 0 <= j < k < |stack| :: stack[j] != stack[k])
  }

  ghost predicate Idle(p: Pcb) {
    !p.live && !p.active && p.terminal == NO_TERMINAL && |p.files| == DESCRIPTORS
  }

  /** Where a terminal in the background will resume: saved pid and parent pid are its top program. */
  ghost predicate Parked(term: Term, stack: seq<int>) {
    stack != [] ==> term.pid == term.ppid == stack[|stack| - 1]
  }

  ghost predicate Represents(img: Image, s: State, c: Calls)
    requires WellFormed(img)
  {
    && WellFormedCalls(c)
    && |s.pcbs| == SLOTS && |s.terms| == TERMINALS && Booted(s.tables)
    && s.front == s.nextTerm == c.front
    && c.stacks[0] != [] && c.stacks[0][0] == 0
    && (forall t | 0 <= t < TERMINALS :: Chain(img, s.pcbs, t, c.stacks[t]))
    && (forall i | 0 <= i < SLOTS && !Busy(c, i) :: Idle(s.pcbs[i]))
    && (forall t | 0 <= t < TERMINALS :: s.terms[t].started == (c.stacks[t] != []))
    && (forall t | 0 <= t < TERMINALS && t != c.front :: Parked(s.terms[t], c.stacks[t]))
    && s.current == s.parent == Top(c)
    && s.tables.dir[PROGRAM_ENTRY] == ProgramEntry(s.current)
    && s.esp0 == Esp0(s.current)
  }

  // ----- First consequences -----

  lemma OnStack(img: Image, s: State, c: Calls, t: int, i: int) returns (k: nat)
    requires WellFormed(img) && Represents(img, s, c) && 0 <= t < TERMINALS && i in c.stacks[t]
    ensures k < |c.stacks[t]| && c.stacks[t][k] == i && Link(img, s.pcbs, t, c.stacks[t], k)
    ensures 0 <= i < SLOTS && s.pcbs[i].terminal == t && s.pcbs[i].live && 0 <= s.pcbs[i].parent < SLOTS
    ensures GoodFiles(img, s.pcbs[i].files)
    ensures k > 0 ==> Link(img, s.pcbs, t, c.stacks[t], k - 1)
  {
    k :| 0 <= k < |c.stacks[t]| && c.stacks[t][k] == i;
    assert Chain(img, s.pcbs, t, c.stacks[t]) && Link(img, s.pcbs, t, c.stacks[t], k);
    if k > 0 {
      assert Link(img, s.pcbs, t, c.stacks[t], k - 1);
    }
  }

  lemma BusyIsLive(img: Image, s: State, c: Calls, i: int)
    requires WellFormed(img) && Represents(img, s, c)
    ensures Busy(c, i) ==> 0 <= i < SLOTS && s.pcbs[i].live && 0 <= s.pcbs[i].terminal < TERMINALS
                           && i in c.stacks[s.pcbs[i].terminal]
                           && GoodFiles(img, s.pcbs[i].files) && 0 <= s.pcbs[i].parent < SLOTS
  {
    if Busy(c, i) {
      var t := if i in c.stacks[0] then 0 else if i in c.stacks[1] then 1 else 2;
      var k := OnStack(img, s, c, t, i);
    }
  }

  /** Slots of different terminals are different. */
  lemma StacksDisjoint(img: Image, s: State, c: Calls, t: int, u: int)
    requires WellFormed(img) && Represents(img, s, c) && 0 <= t < TERMINALS && 0 <= u < TERMINALS && t != u
    ensures forall i | i in c.stacks[t] :: i !in c.stacks[u]
  {
    forall i | i in c.stacks[t] && i in c.stacks[u] ensures false {
      var k := OnStack(img, s, c, t, i);
      var j := OnStack(img, s, c, u, i);
    }
  }

  lemma HasShape(img: Image, s: State, c: Calls)
    requires WellFormed(img) && Represents(img, s, c)
    ensures Shape(s) && s.pcbs[s.current].live && Busy(c, s.current)
    ensures s.pcbs[s.current].terminal == c.front && s.pcbs[s.current].active
    ensures GoodFiles(img, s.pcbs[s.current].files)
    ensures IsRoot(s, s.current) <==> |c.stacks[c.front]| == 1
    ensures Link(img, s.pcbs, c.front, c.stacks[c.front], |c.stacks[c.front]| - 1)
  {
    forall i | 0 <= i < SLOTS
      ensures |s.pcbs[i].files| == DESCRIPTORS && (s.pcbs[i].live ==> 0 <= s.pcbs[i].parent < SLOTS)
    {
      BusyIsLive(img, s, c, i);
    }
    var stack := c.stacks[c.front];
    assert stack[|stack| - 1] in stack;
    BusyIsLive(img, s, c, s.current);
    assert Chain(img, s.pcbs, c.front, stack) && Link(img, s.pcbs, c.front, stack, |stack| - 1);
  }

  /** The slot `execute` takes is the lowest one on no stack. */
  lemma FreeIsIdle(img: Image, s: State, c: Calls)
    requires WellFormed(img) && Represents(img, s, c)
    ensures FirstFree(s.pcbs, 0) == LowestIdle(c, 0)
    ensures FirstFree(s.pcbs, 0) != 0
  {
    var i, j := FirstFree(s.pcbs, 0), LowestIdle(c, 0);
    BusyIsLive(img, s, c, i);
    if j < SLOTS {
      assert Idle(s.pcbs[j]);
    }
    assert 0 in c.stacks[0];
    BusyIsLive(img, s, c, 0);
  }

  /** A chain survives any change to slots that are not on it. */
  lemma ChainFrame(img: Image, pcbs: seq<Pcb>, after: seq<Pcb>, t: int, stack: seq<int>)
    requires WellFormed(img) && Chain(img, pcbs, t, stack) && |after| == |pcbs|
    requires forall i | i in stack && 0 <= i < |pcbs| :: after[i] == pcbs[i]
    ensures Chain(img, after, t, stack)
  {
    forall k | 0 <= k < |stack| ensures Link(img, after, t, stack, k) {
      assert Link(img, pcbs, t, stack, k) && stack[k] in stack;
    }
  }

  // ----- Launching -----

  /** A chain with one more program on top, launched from the one below. */
  lemma PushChain(img: Image, pcbs: seq<Pcb>, after: seq<Pcb>, t: int, stack: seq<int>, i: int)
    requires WellFormed(img) && Chain(img, pcbs, t, stack) && stack != [] && |after| == |pcbs|
    requires 0 <= i < |pcbs| && i !in stack
    requires forall j | j in stack && 0 <= j < |pcbs| ::
               after[j] == if j == stack[|stack| - 1] then pcbs[j].(active := false) else pcbs[j]
    requires after[i].live && after[i].pid == i && after[i].terminal == t && after[i].active
    requires after[i].parent == stack[|stack| - 1] && after[i].parentEsp0 == Esp0(stack[|stack| - 1])
    requires GoodFiles(img, after[i].files)
    ensures Chain(img, after, t, stack + [i])
  {
    var longer := stack + [i];
    forall k | 0 <= k < |longer| ensures Link(img, after, t, longer, k) {
      if k < |stack| {
        assert Link(img, pcbs, t, stack, k) && stack[k] in stack;
      }
    }
  }

  /** Launching on a started terminal, from the program in front. */
  lemma ExecKeeps(img: Image, s: State, c: Calls, loads: bool, command: seq<Byte>, frame: Frame)
    requires WellFormed(img) && Represents(img, s, c)
    requires Shape(s)
    ensures Represents(img, Execute(s, loads, command, frame), NextCalls(c, Exec(loads, command, frame)))
  {
    HasShape(img, s, c);
    FreeIsIdle(img, s, c);
    var i := FirstFree(s.pcbs, 0);
    if !loads {
    } else if i == SLOTS {
      RecordChange(img, s, c, s.pcbs[s.current].(command := command));
    } else {
      ExecChains(img, s, c, command, frame);
      MappingKeepsBooted(s.tables, i);
    }
  }

  lemma ExecChains(img: Image, s: State, c: Calls, command: seq<Byte>, frame: Frame)
    requires WellFormed(img) && Represents(img, s, c)
    requires Shape(s) && FirstFree(s.pcbs, 0) == LowestIdle(c, 0) < SLOTS && FirstFree(s.pcbs, 0) != 0
    ensures var i := FirstFree(s.pcbs, 0);
            forall t | 0 <= t < TERMINALS ::
              Chain(img, LaunchIn(s, i, command, frame).pcbs, t,
                    if t == c.front then c.stacks[t] + [i] else c.stacks[t])
  {
    var i := FirstFree(s.pcbs, 0);
    HasShape(img, s, c);
    var after := LaunchIn(s, i, command, frame);
    assert i !in c.stacks[0] && i !in c.stacks[1] && i !in c.stacks[2];
    PushChain(img, s.pcbs, after.pcbs, c.front, c.stacks[c.front], i);
    forall t | 0 <= t < TERMINALS && t != c.front ensures Chain(img, after.pcbs, t, c.stacks[t]) {
      StacksDisjoint(img, s, c, t, c.front);
      ChainFrame(img, s.pcbs, after.pcbs, t, c.stacks[t]);
    }
  }

  /** An execute that launches nothing leaves everything as it was exactly when the file did not load or the
      command is the caller's own: on a full table the caller's stored command is overwritten. */
  lemma FailedExecuteKeepsExactlyWhen(img: Image, s: State, c: Calls, loads: bool, command: seq<Byte>, frame: Frame)
    requires WellFormed(img) && Represents(img, s, c)
    requires Shape(s) && !ExecuteResult(s, loads).Launched?
    ensures Execute(s, loads, command, frame) == s <==> !loads || command == s.pcbs[s.current].command
  {
  }

  /** The running program's own record changes, but not where it stands. */
  lemma RecordChange(img: Image, s: State, c: Calls, record: Pcb)
    requires WellFormed(img) && Represents(img, s, c) && 0 <= s.current < SLOTS
    requires record == s.pcbs[s.current].(command := record.command, files := record.files)
    requires GoodFiles(img, record.files)
    ensures Represents(img, s.(pcbs := s.pcbs[s.current := record]), c)
  {
    HasShape(img, s, c);
    var after := s.pcbs[s.current := record];
    forall t | 0 <= t < TERMINALS ensures Chain(img, after, t, c.stacks[t]) {
      forall k | 0 <= k < |c.stacks[t]| ensures Link(img, after, t, c.stacks[t], k) {
        assert Chain(img, s.pcbs, t, c.stacks[t]) && Link(img, s.pcbs, t, c.stacks[t], k);
      }
    }
  }

  // ----- Exiting -----

  /** A chain without its top program, the one below active again. */
  lemma PopChain(img: Image, pcbs: seq<Pcb>, after: seq<Pcb>, t: int, stack: seq<int>)
    requires WellFormed(img) && Chain(img, pcbs, t, stack) && |stack| > 1 && |after| == |pcbs|
    requires forall j | j in stack && 0 <= j < |pcbs| && j != stack[|stack| - 1] ::
               after[j] == if j == stack[|stack| - 2] then pcbs[j].(active := true) else pcbs[j]
    ensures Chain(img, after, t, stack[..|stack| - 1])
    ensures stack[|stack| - 1] !in stack[..|stack| - 1]
  {
    var shorter := stack[..|stack| - 1];
    forall k | 0 <= k < |shorter| ensures Link(img, after, t, shorter, k) {
      assert Link(img, pcbs, t, stack, k) && stack[k] in stack;
    }
  }

  lemma ExitKeeps(img: Image, s: State, c: Calls)
    requires WellFormed(img) && Represents(img, s, c)
    requires Shape(s) && s.pcbs[s.current].live && !IsRoot(s, s.current)
    ensures Represents(img, Halt(s), NextCalls(c, Exit))
  {
    HasShape(img, s, c);
    ExitChains(img, s, c);
    var after, d := Halt(s), NextCalls(c, Exit);
    forall i | 0 <= i < SLOTS && !Busy(d, i) ensures Idle(after.pcbs[i]) {
      IdleAfterPop(c, d, i);
    }
    MappingKeepsBooted(s.tables, after.current);
  }

  /** Control goes to the program below, whose chain loses its top. */
  lemma ExitChains(img: Image, s: State, c: Calls)
    requires WellFormed(img) && Represents(img, s, c)
    requires Shape(s) && s.pcbs[s.current].live && !IsRoot(s, s.current)
    ensures var stack := c.stacks[c.front];
            && |stack| > 1
            && Halt(s).current == Halt(s).parent == s.pcbs[s.current].parent == stack[|stack| - 2] != s.current
            && 0 <= Halt(s).current < SLOTS && Halt(s).esp0 == Esp0(Halt(s).current)
            && Busy(c, Halt(s).current)
            && forall t | 0 <= t < TERMINALS ::
                 Chain(img, Halt(s).pcbs, t, if t == c.front then stack[..|stack| - 1] else c.stacks[t])
  {
    HasShape(img, s, c);
    var stack := c.stacks[c.front];
    var n := |stack|;
    assert Link(img, s.pcbs, c.front, stack, n - 1);
    assert stack[n - 2] in stack;
    var k := OnStack(img, s, c, c.front, stack[n - 2]);
    PopChain(img, s.pcbs, Halt(s).pcbs, c.front, stack);
    forall t | 0 <= t < TERMINALS && t != c.front ensures Chain(img, Halt(s).pcbs, t, c.stacks[t]) {
      ExitElsewhere(img, s, c, t, s.pcbs[s.current].parent);
    }
  }

  lemma ExitElsewhere(img: Image, s: State, c: Calls, t: int, up: int)
    requires WellFormed(img) && Represents(img, s, c) && 0 <= t < TERMINALS && t != c.front
    requires Shape(s) && s.pcbs[s.current].live && s.current in c.stacks[c.front]
    requires up == s.pcbs[s.current].parent && up in c.stacks[c.front]
    ensures Chain(img, Halt(s).pcbs, t, c.stacks[t])
  {
    StacksDisjoint(img, s, c, t, c.front);
    ChainFrame(img, s.pcbs, Halt(s).pcbs, t, c.stacks[t]);
  }

  lemma IdleAfterPop(c: Calls, d: Calls, i: int)
    requires WellFormedCalls(c) && |c.stacks[c.front]| > 1 && d == NextCalls(c, Exit) && !Busy(d, i)
    ensures i == Top(c) || !Busy(c, i)
  {
    var stack := c.stacks[c.front];
    assert stack == stack[..|stack| - 1] + [Top(c)];
  }

  // ----- A root shell that is started again -----

  lemma RelaunchKeeps(img: Image, s: State, c: Calls, shell: seq<Byte>, frame: Frame)
    requires WellFormed(img) && Represents(img, s, c)
    requires Shape(s) && s.pcbs[s.current].live && IsRoot(s, s.current)
    requires FirstFree(Halt(s).pcbs, 0) == s.current
    ensures Represents(img, Relaunch(s, shell, frame), c)
  {
    HasShape(img, s, c);
    HaltKeepsShape(s);
    var stack := c.stacks[c.front];
    var after := Relaunch(s, shell, frame);
    assert Link(img, s.pcbs, c.front, stack, 0);
    assert after == LaunchIn(Halt(s), s.current, shell, frame);
    forall t | 0 <= t < TERMINALS ensures Chain(img, after.pcbs, t, c.stacks[t]) {
      if t == c.front {
        assert Link(img, after.pcbs, t, stack, 0);
      } else {
        StacksDisjoint(img, s, c, t, c.front);
        ChainFrame(img, s.pcbs, after.pcbs, t, c.stacks[t]);
      }
    }
    MappingKeepsBooted(s.tables, s.current);
    MappingKeepsBooted(Halt(s).tables, s.current);
  }

  /** In another slot than its own the new shell gets a dead parent, and no stacks describe the table. */
  lemma RelaunchElsewhereBreaks(img: Image, s: State, c: Calls, d: Calls, shell: seq<Byte>, frame: Frame)
    requires WellFormed(img) && Represents(img, s, c)
    requires Shape(s) && s.pcbs[s.current].live && IsRoot(s, s.current)
    requires FirstFree(Halt(s).pcbs, 0) != s.current
    ensures !Represents(img, Relaunch(s, shell, frame), d)
  {
    HasShape(img, s, c);
    HaltKeepsShape(s);
    FreeIsIdle(img, s, c);
    var i := FirstFree(Halt(s).pcbs, 0);
    assert !Halt(s).pcbs[s.current].live;
    assert i < SLOTS && i != 0;
    var after := Relaunch(s, shell, frame);
    assert after == LaunchIn(Halt(s), i, shell, frame);
    assert after.current == i && after.pcbs[i].parent == s.current && !after.pcbs[s.current].live;
    DeadParentBreaks(img, after, d);
  }

  lemma DeadParentBreaks(img: Image, s: State, c: Calls)
    requires WellFormed(img) && Shape(s)
    requires var up := s.pcbs[s.current].parent; 0 <= up < SLOTS && up != s.current && !s.pcbs[up].live
    ensures !Represents(img, s, c)
  {
    if Represents(img, s, c) {
      HasShape(img, s, c);
      var stack := c.stacks[c.front];
      assert |stack| > 1 && stack[|stack| - 2] == s.pcbs[s.current].parent;
      assert stack[|stack| - 2] in stack;
      BusyIsLive(img, s, c, stack[|stack| - 2]);
    }
  }

  /** The relaunch of a root shell keeps the process forest exactly when the slot it gave up is the lowest free
      one. ProcessRuns.RelaunchCanBreak runs into the other case. */
  lemma RelaunchKeepsExactlyWhen(img: Image, s: State, c: Calls, shell: seq<Byte>, frame: Frame)
    requires WellFormed(img) && Represents(img, s, c)
    requires Shape(s) && s.pcbs[s.current].live && IsRoot(s, s.current)
    ensures (exists d :: Represents(img, Relaunch(s, shell, frame), d)) <==> FirstFree(Halt(s).pcbs, 0) == s.current
  {
    if FirstFree(Halt(s).pcbs, 0) == s.current {
      RelaunchKeeps(img, s, c, shell, frame);
    } else {
      forall d ensures !Represents(img, Relaunch(s, shell, frame), d) {
        RelaunchElsewhereBreaks(img, s, c, d, shell, frame);
      }
    }
  }

  // ----- Switching terminals -----

  /** The search over the table finds exactly one active program of a started terminal: the top of its stack. */
  lemma OneActive(img: Image, s: State, c: Calls, t: int)
    requires WellFormed(img) && Represents(img, s, c) && 0 <= t < TERMINALS && c.stacks[t] != []
    ensures var top := c.stacks[t][|c.stacks[t]| - 1];
            0 <= top < SLOTS && forall i | 0 <= i < SLOTS :: Runs(s.pcbs[i], t) <==> i == top
  {
    var stack := c.stacks[t];
    assert stack[|stack| - 1] in stack;
    var last := OnStack(img, s, c, t, stack[|stack| - 1]);
    assert Link(img, s.pcbs, t, stack, |stack| - 1);
    forall i | 0 <= i < SLOTS && Runs(s.pcbs[i], t) ensures i == stack[|stack| - 1] {
      BusyIsLive(img, s, c, i);
      if Busy(c, i) {
        var k := OnStack(img, s, c, t, i);
      }
    }
  }

  lemma {:induction false} SearchFinds(pcbs: seq<Pcb>, t: int, from: nat, i: nat)
    requires from <= i < |pcbs| && forall j | 0 <= j < |pcbs| :: Runs(pcbs[j], t) <==> j == i
    ensures ActivePid(pcbs, t, from) == pcbs[i].pid
    decreases i - from
  {
    if from < i {
      SearchFinds(pcbs, t, from + 1, i);
    }
  }

  /** Resume agreement: for every started terminal in the background, the saved pid, the saved parent pid and
      the search over the table name the same program, which is not the search's default. */
  lemma ResumeAgreement(img: Image, s: State, c: Calls, t: int)
    requires WellFormed(img) && Represents(img, s, c) && 0 <= t < TERMINALS && s.terms[t].started
    ensures ActivePid(s.pcbs, t, 0) == c.stacks[t][|c.stacks[t]| - 1] != NOT_FOUND
    ensures t != s.front ==> s.terms[t].pid == s.terms[t].ppid == ActivePid(s.pcbs, t, 0)
    ensures t == s.front ==> s.current == ActivePid(s.pcbs, t, 0)
  {
    OneActive(img, s, c, t);
    var top := c.stacks[t][|c.stacks[t]| - 1];
    SearchFinds(s.pcbs, t, 0, top);
    assert Chain(img, s.pcbs, t, c.stacks[t]) && Link(img, s.pcbs, t, c.stacks[t], |c.stacks[t]| - 1);
    assert t != c.front ==> Parked(s.terms[t], c.stacks[t]);
  }

  lemma KeyKeeps(img: Image, s: State, c: Calls, t: nat, alt: bool, shell: seq<Byte>, saved: Frame, first: Frame)
    requires WellFormed(img) && Represents(img, s, c) && t < TERMINALS
    requires Shape(s)
    ensures Represents(img, FunctionKey(s, t, alt, shell, saved, first), NextCalls(c, Key(t, alt, shell, saved, first)))
  {
    FreeIsIdle(img, s, c);
    if KeySwitches(s, t, alt) {
      if s.terms[t].started {
        ResumeKeeps(img, s, c, t, shell, saved, first);
      } else {
        StartKeeps(img, s, c, t, shell, saved, first);
      }
    }
  }

  lemma ResumeKeeps(img: Image, s: State, c: Calls, t: nat, shell: seq<Byte>, saved: Frame, first: Frame)
    requires WellFormed(img) && Represents(img, s, c) && t < TERMINALS && t != s.front && s.terms[t].started
    requires Shape(s)
    ensures Represents(img, Switch(s.(front := t), s.front, t, shell, saved, first), c.(front := t))
  {
    ResumeAgreement(img, s, c, t);
    OneActive(img, s, c, t);
    MappingKeepsBooted(s.tables, c.stacks[t][|c.stacks[t]| - 1]);
  }

  /** A terminal shown for the first time: the slot is not yet anybody's, and its program is its own parent. */
  lemma StartKeeps(img: Image, s: State, c: Calls, t: nat, shell: seq<Byte>, saved: Frame, first: Frame)
    requires WellFormed(img) && Represents(img, s, c) && t < TERMINALS && t != s.front && !s.terms[t].started
    requires Shape(s) && FirstFree(s.pcbs, 0) < SLOTS
    ensures Represents(img, Switch(s.(front := t), s.front, t, shell, saved, first),
                       Calls(c.stacks[t := [FirstFree(s.pcbs, 0)]], t))
  {
    FreeIsIdle(img, s, c);
    StartChains(img, s, c, t, shell, saved, first);
    StartIdle(img, s, c, t, shell, saved, first);
    MappingKeepsBooted(s.tables, FirstFree(s.pcbs, 0));
  }

  lemma StartIdle(img: Image, s: State, c: Calls, t: nat, shell: seq<Byte>, saved: Frame, first: Frame)
    requires WellFormed(img) && Represents(img, s, c) && t < TERMINALS && t != s.front && !s.terms[t].started
    requires Shape(s) && FirstFree(s.pcbs, 0) < SLOTS
    ensures var after := Switch(s.(front := t), s.front, t, shell, saved, first);
            && |after.pcbs| == SLOTS
            && forall j | 0 <= j < SLOTS && !Busy(Calls(c.stacks[t := [FirstFree(s.pcbs, 0)]], t), j) ::
                 Idle(after.pcbs[j])
  {
    var i := FirstFree(s.pcbs, 0);
    var d := Calls(c.stacks[t := [i]], t);
    forall j | 0 <= j < SLOTS && !Busy(d, j)
      ensures Idle(Switch(s.(front := t), s.front, t, shell, saved, first).pcbs[j])
    {
      assert i in d.stacks[t] && !Busy(c, j);
    }
  }

  lemma StartChains(img: Image, s: State, c: Calls, t: nat, shell: seq<Byte>, saved: Frame, first: Frame)
    requires WellFormed(img) && Represents(img, s, c) && t < TERMINALS && t != s.front && !s.terms[t].started
    requires Shape(s) && FirstFree(s.pcbs, 0) == LowestIdle(c, 0) < SLOTS
    ensures var i, after := FirstFree(s.pcbs, 0), Switch(s.(front := t), s.front, t, shell, saved, first);
            forall u | 0 <= u < TERMINALS :: Chain(img, after.pcbs, u, if u == t then [i] else c.stacks[u])
  {
    var i := FirstFree(s.pcbs, 0);
    var after := Switch(s.(front := t), s.front, t, shell, saved, first);
    assert Link(img, after.pcbs, t, [i], 0);
    forall u | 0 <= u < TERMINALS && u != t ensures Chain(img, after.pcbs, u, c.stacks[u]) {
      assert i !in c.stacks[u];
      ChainFrame(img, s.pcbs, after.pcbs, u, c.stacks[u]);
    }
  }
}
