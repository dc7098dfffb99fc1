# WindOS: a verified model

WindOS is a small x86 kernel: three text terminals share one display and six process slots, programs are read
from a read-only block file system, and a few user programs come with it. This project models five parts of it
and proves what they promise.

* **Processes and terminals** (`Processes`, `CallStacks`, `ProcessRuns`, `DescriptorRuns`, `TerminalRuns`,
  `LaunchRuns`, `OpenTables`, `Kernel`, `Paging`).
  `Processes` gives each kernel call as a function on the state of the global tables. `CallStacks` gives the
  simple machine, three stacks of slots, and the invariant `Represents` that ties the tables to it. `ProcessRuns`,
  `DescriptorRuns`, `TerminalRuns` and `LaunchRuns` prove properties of whole runs, and `OpenTables` ties a program's
  descriptors to a plain table that its own opens and closes keep. `Kernel` holds the calls as they are written, step
  by step on arrays, each proved equal to its function. `Paging` models the page structures and the address
  translation of section 4.3 of the Intel 64 and IA-32 SDM, volume 3A.
* **File system and its readers** (`FileSystem`, `Directory`, `Cat`, `Grep`). Block-indirect reads against the flat
  file, name lookup, a cursor on top, the read loop of cat and the chunked line search of grep on top of that.
* **Screen and keyboard** (`Screen`, `LineEditor`, `KeyTables`, `Terminals`, `ConsoleCode`). The screen against an
  endless page, the line editor against a fold over the keys and a closed form of the whole page, the four scancode
  tables, and the one physical console against three private terminals.
  `System` puts processes and console under one sequence of events.
* **Blink list** (`BlinkSpec`, `BlinkPool`). The linked list in the slot pool against a sequence of elements, the
  closed form of the blinking, and what the screen shows of it.
* **Library routines** (`Numbers`, `Memory`). Number printing and the word-wise memory routines.

## Where the code does less than it promises

Each of these is stated with the exact condition under which the promise is kept.

* A relaunched root shell takes the lowest free slot, not its own. `CallStacks.RelaunchKeepsExactlyWhen`: the process
  forest survives if and only if the slot it gave up is the lowest free one. Runs take this as the guard of that step,
  and `ProcessRuns.RelaunchCanBreak` is a run of five steps from boot after which it fails.
* `read_data` with nothing left to copy at a non-zero offset copies a byte and lets its counter wrap, and
  `offset + length` can wrap. `FileSystem.ReadIsSliceExactlyWhen` for `read_data`, and
  `FileSystem.FileReadCopiesExactlyWhen` for a read call with any signed count. The model calls this outcome `Stray`.
* The inode check accepts the number of inodes as an inode (`FileSystem.InodeCheckIsOffByOne`).
* grep cuts a line after 1024 bytes. `Grep.GrepIsExactExactlyWhen`: for a given pattern it prints what whole-file search
  prints if and only if no longer line contains the pattern. What it prints otherwise is `GrepPieces`.
* Blink lengths of 0 and above 32768 last one tick: `BlinkSpec.NominalLengthsExactlyWhen`. An element at location 0
  is put on the list while its slot still counts as free, so a later add can be handed the slot of a listed element.
  `BlinkPool.BlinkList.Perform`: after any calls the links follow the sequence of elements if and only if no add
  collides like that; `BlinkPool.CollisionLoops`: when one does the links run in a circle.
* A sync always draws the off character of its target: the conditional move that should pick the on character tests for
  "less" after an instruction that never leaves it. `BlinkSpec.StepShowsExactlyWhen`: an operation that puts no element
  on another keeps every element shown if and only if it is no sync from an element that is on, with two different
  characters in the target.
* Opening an entry of an unknown type marks a descriptor in use without giving it operations.
  `DescriptorRuns.OpenIsSafeExactlyWhen`: afterwards every read, write and close still has an operation if and only if
  no descriptor was free, the type is known, or the descriptor has operations left over from an earlier file.
* Execute on a full table overwrites the caller's stored command (`CallStacks.FailedExecuteKeepsExactlyWhen`).
* Backspace on a full line blanks the byte behind the buffer: `Terminals.BackspaceStaysInsideExactlyWhen`.
* A character typed into the last cell of the screen does not wrap or scroll (`LineEditor.EchoIsOutputExactlyWhen`), and
  output from there on does not wrap before the next newline (`Screen.CursorStaysExactlyWhen`). Text that runs past the
  4 KB display page is stored where nothing is mapped (`Paging.BehindScreenFaults`). Results about the console therefore
  ask that every store falls into the page and the line buffer; `Screen.WriteInsideExactlyWhen`,
  `LineEditor.InsideExactlyWhenKeysFit` and `Terminals.RunInsideExactlyWhen` say exactly when that is so, from the
  cursor, the length of the line and the text.
* A line that starts close to the end of the screen runs out of screen before it runs out of buffer:
  `LineEditor.FoldIsPlainExactlyWhen`.
* memcpy with a destination inside its source loses bytes: `Memory.MemCpyDeliversExactlyWhen`.
* `read_Terminal` stores the whole line and a newline whatever count was asked for: within the count if and only if the
  line is shorter (`ConsoleCode.TextConsole.ReadTerminal`), and so whatever was typed if and only if the count is at
  least 129 (`LineEditor.ReadFitsExactlyWhen`).
* Caps lock does nothing to keys without a letter, but for the backslash with shift held:
  `KeyTables.CapsMattersExactlyFor`. Some keys without a character type a zero byte: `KeyTables.OrdinaryKeysAre`.
* ls prints the directory from where the shared index stands, which is the whole of it if and only if nobody has left
  the index in the middle: `Directory.ListsAllExactlyWhen`.

Two comments in the source disagree with the code, and the model follows the code: execute returns 0, not -1, on a
full table (`student-distrib/syscalls.c:167`), and `read_data` returns the number of bytes copied, not 0
(`student-distrib/file_sys.c:79`).

## Conventions

Pointers into tables are slot numbers. Saved ESP and EBP are opaque frame tokens. A control block, a terminal's save
area and a pool node are values in arrays that the methods update in place. Where the source combines bits with `|`,
the bits are disjoint and the model adds. Each kernel call is one atomic step; there is no preemption in the source
(`student-distrib/PIT.c:52` has the scheduler commented out). A root shell's exit with status 0 and its relaunch are
one step. The outcome of execute's checks of the file (`student-distrib/syscalls.c:147-161`) is a parameter, and so
are the entry found by open, the initial contents of memory, the place of the page tables and the texts that report a
full table. The scancode tables are a parameter of the editor; `KeyTables` has those of the source. Commands are
shorter than 40 bytes. The shell image is assumed to be present. Cursor coordinates are unbounded numbers; as long as
the cursor stays within the page they fit the 16 bits of the source.

## Model

| member | source | states |
|---|---|---|
| CallStacks.ExecKeeps | student-distrib/syscalls.c:174-274 | launching pushes the lowest slot that is on no terminal's stack; all three chains of parent links, activity, descriptors, page entry and esp0 stay right |
| CallStacks.ExitKeeps | student-distrib/syscalls.c:38-79 | the halt of a launched program pops its terminal's stack and frees its slot |
| CallStacks.RelaunchKeepsExactlyWhen | student-distrib/syscalls.c:55-59 | a root shell's exit and relaunch keep the forest if and only if the slot given up is the lowest free one |
| CallStacks.ResumeAgreement | student-distrib/syscalls.c:622-631 | for every started terminal the table search finds its top program, never the default 69, and it equals the saved PID and PPID |
| CallStacks.OneActive | student-distrib/syscalls.c:261-274 | a started terminal has exactly one active program, the top of its stack |
| CallStacks.KeyKeeps | student-distrib/keyboard.c:578-634 | a function key starts, resumes or refuses, and the tables follow the stacks |
| CallStacks.StartKeeps | student-distrib/multiprocess.c:94-139 | a terminal shown for the first time gets a one-program chain in a slot that was free |
| ProcessRuns.RunRefines | student-distrib/syscalls.c:38-302 | over any run of calls, keys and exits the process table refines three call stacks: the forest invariant in every reachable state |
| ProcessRuns.BootRepresents | student-distrib/multiprocess.c:51-73 | the state after boot and the first launch satisfies the invariant, and the first shell has the frame and command of that launch |
| ProcessRuns.RelaunchCanBreak | student-distrib/syscalls.c:55-59 | from boot a run of five steps reaches a root shell whose exit and relaunch leave a table that no three stacks describe |
| ProcessRuns.LaunchFindsSlot | student-distrib/multiprocess.c:128-138 | whenever a key starts a terminal or a root shell is relaunched, a slot is free, so the retry loop never turns |
| ProcessRuns.ExecuteHaltBracket | student-distrib/syscalls.c:38-92 | whatever happens between an execute and the exit of its child, halt returns through that execute's frame and the caller's record, page entry, esp0 and currency are as before |
| TerminalRuns.SwitchAwayAndBack | student-distrib/multiprocess.c:97-156 | whatever runs on the other terminals in between, a terminal left and returned to resumes in the frame in which it was left, with the same program, record, page entry and esp0 |
| TerminalRuns.BackgroundRun | student-distrib/multiprocess.c:100-127 | over any run no record of a background terminal's programs changes, nor where it will resume |
| TerminalRuns.CommandSinceLaunch | student-distrib/syscalls.c:184-191 | a program's stored command is the one it was launched with while it stays up and meets no full table |
| LaunchRuns.LaunchToHalt | student-distrib/syscalls.c:291-296 | however a program is launched, by a program, by a key that starts a terminal or in the place of a root shell, when it is the running one its halt returns into the execute that launched it, and its stored command is the one it was launched with unless it met a full table |
| LaunchRuns.BootToHalt | student-distrib/multiprocess.c:64-73 | the same for the first shell, which boot launches |
| LaunchRuns.LaunchRecord | student-distrib/multiprocess.c:128-138 | a launch makes its slot the running one, with its own frame and command and the launch descriptors |
| DescriptorRuns.SafeDispatch | student-distrib/syscalls.c:315-338 | in every reachable state no read, write or close, of whatever descriptor, goes through a null operation |
| DescriptorRuns.OpenIsSafeExactlyWhen | student-distrib/syscalls.c:364-411 | after an open every read, write and close on every descriptor has an operation if and only if none was free, the type is known or the descriptor has operations left over; for one never used the type alone decides |
| DescriptorRuns.OpenTakesLowest | student-distrib/syscalls.c:366-381 | open returns the lowest free descriptor of 2..7 and takes it with the clock, the directory or the file operations, at position 0, or fails with all taken |
| DescriptorRuns.StandardStreams | student-distrib/syscalls.c:200-221 | every live program has stdin at 0 and stdout at 1 |
| DescriptorRuns.InUseCounts | student-distrib/syscalls.c:348-435 | over any run descriptors in use are successful opens minus closes on top of the start |
| DescriptorRuns.InUseSinceLaunch | student-distrib/syscalls.c:200-229 | since its launch a program has in use exactly its successful opens minus its closes |
| DescriptorRuns.LaunchedWithNone | student-distrib/syscalls.c:224-229 | a launched program starts with none of 2..7 in use |
| DescriptorRuns.Streaming | student-distrib/file_sys.c:188-201 | over any interleaving the reads of one descriptor return consecutive bytes of the file; their total is the position, never past the end |
| DescriptorRuns.EmptyReadExactlyAtEnd | student-distrib/file_sys.c:194-195 | a read with any other count than 0 returns nothing if and only if the position is the size |
| OpenTables.CallsSinceLaunch | student-distrib/syscalls.c:315-435 | from its launch on, a program reaches with a read, a write or a close of any number exactly what its own opens and closes have left there: stdin at 0 for reads, stdout at 1 for writes, from 2 on the clock, the directory or a file by the type opened; an open returns the lowest closed descriptor, and all else is refused |
| OpenTables.TableOverRuns | student-distrib/syscalls.c:348-435 | over any run the descriptors of a program are the plain table that its own opens and closes make |
| OpenTables.CallsReach | student-distrib/syscalls.c:315-338 | in a state described by a table, what each call on each number reaches |
| OpenTables.OpenStreams | student-distrib/syscalls.c:402-409 | a successful open of a regular file gives a file descriptor at its first byte |
| OpenTables.ReadsSinceOpen | student-distrib/file_sys.c:188-201 | from the open on, over any interleaving, what is read from the descriptor is the file from its first byte, in order and without gaps |
| DescriptorRuns.HaltCloses | student-distrib/syscalls.c:48-53 | an exit leaves nothing open in its slot |
| DescriptorRuns.TranslationOverRuns | student-distrib/syscalls.c:248 | in every reachable state program space maps to the running slot's frame, each saved-screen address to its terminal's page, the vidmap window to nothing or the screen |
| DescriptorRuns.PagesApartOverRuns | student-distrib/multiprocess.c:31-44 | in every reachable state program space, the screen page and the saved pages share no byte |
| DescriptorRuns.SlotFramesApart | student-distrib/syscalls.c:248 | the program spaces of two moments of a run share a byte if and only if the same slot runs, and then at the same address |
| DescriptorRuns.WindowOverRuns | student-distrib/syscalls.c:495-519 | over any run the vidmap window shows the display page if and only if it did before or a vidmap call had an address in program space, and faults otherwise |
| DescriptorRuns.WindowSinceBoot | student-distrib/syscalls.c:497-510 | from boot on the window shows the display page if and only if some vidmap call has succeeded |
| DescriptorRuns.KernelStackOverRuns | student-distrib/syscalls.c:290 | in every reachable state the kernel stack of the running program starts in a room of its own, apart from all control blocks and all other stacks |
| Paging.ProgramPage | student-distrib/syscalls.c:79 | entry 32 maps 128 MB onwards linearly, for user code, to 8 MB + 4 MB * slot |
| Paging.HistoryMapped | student-distrib/multiprocess.c:31-44 | video_mem_hist of terminal t translates to the page at 0xBA000 + 4096 t |
| Paging.ScreenMapped | student-distrib/Paging.c:20-27 | the display page translates to itself and is not a user page |
| Paging.BehindScreenFaults | student-distrib/Paging.c:14-27 | nothing below 4 MB but the display page is mapped |
| Paging.VidmapMapped | student-distrib/syscalls.c:495-519 | the window at 144 MB faults while its entry is the one paging left, and shows the display page otherwise |
| Paging.VidmapShows | student-distrib/syscalls.c:507-510 | vidmap makes the window show the display page to user code |
| Paging.PageTables.InitPaging | student-distrib/Paging.c:10-28 | the loop leaves entries 0 and 1 set, every other one not present, and only the display page in the first table |
| Paging.PageTables.Boot | student-distrib/kernel.c:277-279 | after paging and the three terminal pages are set up the page structures are as every run expects them, without a vidmap window |
| Kernel.Kernel.Execute | student-distrib/syscalls.c:103-302 | the step-by-step launch makes exactly the specified new state and result |
| Kernel.Kernel.LaunchSlot | student-distrib/syscalls.c:200-296 | parts 3 to 5 of execute, in the order of the source |
| Kernel.Kernel.Halt | student-distrib/syscalls.c:38-93 | the step-by-step halt makes the specified state and returns the frame of the current program's own launch |
| Kernel.Kernel.SwitchTerminal | student-distrib/multiprocess.c:94-164 | saves PID, PPID and frame, then resumes the other terminal in its saved frame or starts it with a frame of its own; a start always succeeds |
| Kernel.Kernel.FunctionKey | student-distrib/keyboard.c:578-634 | refuses exactly when the table is full and the terminal not started; keeps the forest invariant |
| Kernel.Kernel.IsFull | student-distrib/syscalls.c:693-706 | counting six live slots is the same as finding no free one |
| Kernel.Kernel.FindActive | student-distrib/syscalls.c:622-631 | the search loop returns the pid of the first active slot of the terminal, or 69 |
| Kernel.Kernel.InitPcbArray | student-distrib/syscalls.c:20-28 | every slot is free, inactive and unowned |
| Kernel.Kernel.Open | student-distrib/syscalls.c:348-412 | result and new state of open, for every entry type |
| Kernel.Kernel.Close | student-distrib/syscalls.c:422-435 | result and new state of close |
| Kernel.Kernel.Read | student-distrib/syscalls.c:315-321 | refuses, or dispatches to the device that `ReadTarget` names, which has a read; a regular file yields the next slice and moves the position by its length |
| Kernel.Kernel.Write | student-distrib/syscalls.c:331-338 | refuses, or dispatches to the device that `WriteTarget` names, which has a write |
| Kernel.Kernel.Vidmap | student-distrib/syscalls.c:495-519 | refuses outside program space; otherwise stores the address of the window, which then shows the display page |
| FileSystem.ReadData | student-distrib/file_sys.c:82-176 | for every argument the outcome, and on success exactly file[offset..offset+r] in the buffer and nothing else touched |
| FileSystem.CopyWholeBlocks | student-distrib/file_sys.c:134-173 | the whole-block loop and the partial last block deliver the rest of the slice |
| FileSystem.ReadIsSliceExactlyWhen | student-distrib/file_sys.c:92-96 | the outcome is the flat slice if and only if offset 0, past the end, or something asked, something left and no 32-bit wrap |
| FileSystem.FileReadIsSlice | student-distrib/file_sys.c:188-201 | file_read with a positive count is always the flat slice |
| FileSystem.FileReadCopiesExactlyWhen | student-distrib/file_sys.c:188-201 | for every signed count a read stays within the file if and only if the count fits, and is the flat slice then; a negative count that fits returns all the rest |
| FileSystem.FileReadOfNothing | student-distrib/file_sys.c:194-197 | a zero count is harmless if and only if the position is 0 or at the end |
| FileSystem.OpenFile.Read | student-distrib/file_sys.c:188-201 | a read returns min(count, rest) bytes, exactly the next ones, and advances by them |
| Cat.Cat | syscalls/ece391cat.c:21-28 | the read loop ends and has written the whole file |
| Directory.ReadDentryByName | student-distrib/file_sys.c:28-40 | returns the first entry that spells the same first 32 characters, or finds that none does |
| Directory.StrNCmp | student-distrib/lib.c:487-505 | zero if and only if both strings spell the same within n bytes |
| Directory.DirectoryReader.ReadDirectory | student-distrib/file_sys.c:239-265 | the k-th call since boot lists entry k mod 18, or nothing when that is 17 |
| Directory.ListedIsFound | student-distrib/file_sys.c:28-40 | the name listed at an index names that entry, and no other when the names differ |
| Directory.EveryEntryListed | student-distrib/file_sys.c:246-264 | any eighteen calls in a row hand over every entry and the end once |
| Directory.Ls | syscalls/ece391ls.c:18-26 | prints the names from the shared index on, up to entry 16 or the first without a name, and leaves the index at 0 when all are named |
| Directory.ListsAllExactlyWhen | student-distrib/file_sys.c:246-263 | the listing is the whole directory if and only if the index was 0, and empty if and only if it was 17 |
| Directory.ListingReadsBack | syscalls/ece391ls.c:18-26 | the first line of a listing is the first name, and the rest the rest of the listing |
| Grep.DoOneFile | syscalls/ece391grep.c:20-60 | for every NUL-free file the chunked search ends and prints exactly what searching its 1024-byte pieces in order prints, which is whole-file search if no longer line contains the pattern and something else if one does |
| Grep.ProcessBuffer | syscalls/ece391grep.c:28-57 | one pass over the buffer reports its complete lines and carries the partial one, whatever is stale behind the data |
| Grep.GrepIsExactExactlyWhen | syscalls/ece391grep.c:20-60 | for every pattern, chunked search prints what whole-file search prints if and only if no line over 1024 bytes contains it |
| Grep.SearchLine | syscalls/ece391grep.c:40-51 | prints the line once if and only if the pattern occurs in it |
| Grep.StrNCmp | syscalls/ece391support.c:35-46 | zero if and only if the line goes on with the pattern |
| Grep.StrCpyDown | syscalls/ece391support.c:14-17 | the overlapping forward copy moves the partial line to the front |
| Screen.WriteIsWindow | student-distrib/terminal.c:43-122 | the screen is the last 25 rows reached on the endless page, with the cursor on it; the rest of the page is untouched |
| Screen.WriteAppend | student-distrib/terminal.c:68-119 | writing s then t equals writing s + t |
| Screen.CursorStaysExactlyWhen | student-distrib/terminal.c:68-119 | any text leaves the cursor on the screen if and only if it was on it or the text has a newline |
| Screen.WriteInsideExactlyWhen | student-distrib/terminal.c:86-93 | every byte is stored inside the page if and only if the cursor is on the screen or the text up to the first newline fits behind it |
| LineEditor.KeysEcho | student-distrib/keyboard.c:337-427 | for any keys but Enter, stored inside page and buffer, the line is the fold of the translated keys, the page shows it and the cursor is behind it; nothing else changes unless cleared |
| LineEditor.SessionPage | student-distrib/keyboard.c:337-427 | the whole page after a session that does not clear: the line, blanks as far as it has reached at any time, and everything else as it was |
| LineEditor.BlankStaysBlank | student-distrib/keyboard.c:381-395 | a cell that was blank and ends up behind the cursor is blank: what is erased does not stay on the screen |
| LineEditor.ClearBlanks | student-distrib/keyboard.c:475-483 | ctrl and L leave 25 blank rows, the cursor in the first cell and no line |
| LineEditor.ModifiersFollow | student-distrib/keyboard.c:328-334 | over any keys shift, ctrl and alt are as their last press or release left them, and caps lock has turned with every press |
| KeyTables.LetterKeys | student-distrib/keyboard.c:107-262 | a key with a letter types it, a capital if and only if exactly one of caps lock and shift is on; the branch for L agrees |
| KeyTables.DigitKeys | student-distrib/keyboard.c:187-191 | the digit keys type digits and with shift their signs, whatever caps lock says |
| KeyTables.CapsMattersExactlyFor | student-distrib/keyboard.c:187-240 | caps lock matters to a key that types if and only if it has a letter or is the backslash with shift held |
| KeyTables.OrdinaryKeysAre | student-distrib/keyboard.c:569-703 | which keys type at all, and which of them type a zero byte |
| LineEditor.EchoIsRead | student-distrib/keyboard.c:799-822 | wherever on the screen a line starts, after Enter a read returns exactly what the page showed, with a newline, and empties the line |
| LineEditor.ReadFitsExactlyWhen | student-distrib/keyboard.c:807-812 | a read stays within the count asked for, whatever was typed, if and only if the count is at least 129 |
| LineEditor.InsideExactlyWhenKeysFit | student-distrib/keyboard.c:375-379 | a session stays inside page and buffer if and only if, by the lengths alone, no backspace meets 128 held bytes and no L the end of the page |
| LineEditor.FoldIsPlainExactlyWhen | student-distrib/keyboard.c:702 | the line read is the one an editor without a screen would make, in every session, if and only if it starts at least 127 cells before the end of the screen |
| LineEditor.EchoIsOutputExactlyWhen | student-distrib/keyboard.c:714-718 | an echoed character moves the screen like an output byte if and only if it is not in the last cell; Enter is a newline |
| Terminals.ThreePrivateTerminals | student-distrib/multiprocess.c:94-123 | over any interleaving whose stores fall into page and buffer each terminal is what it would be alone |
| Terminals.RunInsideExactlyWhen | student-distrib/keyboard.c:865-880 | the stores of a run fall into page and buffer if and only if those of each terminal on its own would, and then every cursor stays within the page |
| Terminals.InsideExactlyWhenFits | student-distrib/keyboard.c:375-379 | one step stays inside if and only if it is no backspace at 128 held bytes, no L behind the page and no text longer, up to its first newline, than the room behind the screen |
| Terminals.SwitchKeepsViews | student-distrib/multiprocess.c:97-123 | a switch changes no terminal, only which is in front |
| Terminals.EnteredFollows | student-distrib/keyboard.c:799-806 | over any run the enter flag follows the Enters and the lines taken, and no more lines are taken than Enters pressed but for one |
| Terminals.TakenIsGone | student-distrib/keyboard.c:815-820 | a line that has been read is zeroed and gone |
| Terminals.RestartBlanks | student-distrib/multiprocess.c:134-136 | a restart leaves 25 blank rows and the cursor in the first cell |
| Terminals.ColoursDiffer | student-distrib/keyboard.c:870-877 | each terminal writes in a colour of its own |
| Terminals.StepRefines | student-distrib/keyboard.c:266-273 | keys, output and reads touch only the terminal in front |
| Terminals.BackspaceStaysInsideExactlyWhen | student-distrib/keyboard.c:375-379 | backspace stays inside the buffer if and only if fewer than 128 bytes are held |
| ConsoleCode.TextConsole.WriteTerminal | student-distrib/terminal.c:43-122 | the byte loop with its two scrolls computes the specified screen and cursor |
| ConsoleCode.TextConsole.ShiftRows | student-distrib/keyboard.c:287-294 | the row copies, 24 or 25 turns, move rows 1..24 up and blank the last |
| ConsoleCode.TextConsole.GetChar | student-distrib/keyboard.c:305-784 | one scancode makes the specified change to screen, buffer and modifiers |
| ConsoleCode.TextConsole.ClearHome | student-distrib/multiprocess.c:134-136 | the clear loop and the two cursor calls blank the 25 rows and send the cursor home |
| ConsoleCode.TextConsole.ReadTerminal | student-distrib/keyboard.c:799-822 | stores the line and a newline and touches nothing else, whatever count was asked for; it stays within the count if and only if the line is shorter, and it empties the line |
| ConsoleCode.TextConsole.SwitchTerminal | student-distrib/multiprocess.c:97-123 | the save, clear and restore loops make the specified console |
| System.EventsKeepConsistent | student-distrib/keyboard.c:580-592 | over any sequence of calls, keys, output and exits the running program is the one active program of the terminal on the screen |
| System.EventRefines | student-distrib/keyboard.c:586-592 | under any event the terminal on the screen is the one whose top program runs, and both halves keep their refinements |
| System.EventOnScreen | student-distrib/syscalls.c:193-198 | what each event shows: a print and the refusal by a full table are written out, a restarted shell gets a blank screen, calls and reads change nothing |
| System.BootConsistent | student-distrib/multiprocess.c:51-73 | after boot the tables with the first shell and a newly made console are consistent |
| BlinkPool.BlinkList.AddNode | fish/blink.S:105-184 | prepends in the slot that malloc hands out, draws the on character and keeps list and links in agreement; if that slot is on the list, no list follows the links afterwards |
| BlinkPool.BlinkList.RemoveNode | fish/blink.S:187-237 | removes the first match, keeps the rest in order, and the walk to the previous link ends |
| BlinkPool.BlinkList.FindHelper | fish/blink.S:351-379 | returns the first node at the location, or null |
| BlinkPool.BlinkList.SyncNodes | fish/blink.S:240-275 | copies the timing of the first source match to the first target match and draws the off character of the target |
| BlinkPool.BlinkList.Tasklet | fish/blink.S:49-99 | one tick for every element of the list, drawing those whose period ends |
| BlinkPool.BlinkList.Perform | fish/blink.S:49-275 | any calls up to a first colliding add leave list and links in agreement, the list being what the sequence of elements says, if and only if no add collides; the screen has what the calls draw |
| BlinkPool.CollisionLoops | fish/fish.c:162-172 | linking a slot that is on the list in front of it makes a circle, and no finite list follows the links |
| BlinkPool.BlinkList.Malloc | fish/fish.c:162-172 | the lowest slot with location 0, or null |
| BlinkSpec.BlinkPhase | fish/blink.S:64-86 | an element spared by removes and syncs stays as it was added, but for its timing: on exactly in the first a of every a + b ticks since its add, with a and b as long as they really last, in runs where no add collides |
| BlinkSpec.NominalLengthsExactlyWhen | fish/blink.S:64-66 | the nominal lengths are the real ones at every tick if and only if both are in 1..32768 |
| BlinkSpec.SyncedStayEqual | fish/blink.S:267-275 | after a sync both elements have the source's timing, moved by the ticks since, for as long as both are spared and no add collides |
| BlinkSpec.StepShowsExactlyWhen | fish/blink.S:267-285 | an operation that puts no element on another keeps every element shown if and only if it is no sync that hides its target |
| BlinkSpec.BlinkOnScreen | fish/blink.S:71-84 | over any run without such adds and syncs the cell of an element has its on character in the first a of every a + b ticks and its off character in the rest |
| BlinkSpec.AddFailsExactlyWhen | fish/blink.S:127-145 | an add is refused if and only if it is off the screen or every slot is held |
| Numbers.Itoa | student-distrib/lib.c:211-244 | writes the numeral of the value in the radix, terminated, and nothing else |
| Numbers.NumeralIsUnique | student-distrib/lib.c:212-243 | a value has only one numeral without leading zeros |
| Numbers.StrRev | student-distrib/lib.c:253-269 | reverses the string in place |
| Numbers.FormatSigned | student-distrib/lib.c:117-130 | the decimal text evaluates back to every signed value, the minimum included |
| Numbers.FormatUnsigned | student-distrib/lib.c:107-113 | the decimal numeral of every unsigned value |
| Numbers.FormatHex | student-distrib/lib.c:85-91 | the hexadecimal numeral of every unsigned value |
| Numbers.FormatHexPadded | student-distrib/lib.c:90-101 | exactly eight hex digits that evaluate back to the value |
| Memory.MemCpy | student-distrib/lib.c:398-438 | the loops compute the align, dword and tail phases for every overlap, and deliver the original bytes unless the destination begins inside the source |
| Memory.MemCpyDeliversExactlyWhen | student-distrib/lib.c:402-428 | the phases deliver the original bytes, whatever the memory holds, if and only if the destination does not begin inside the source or all is one aligned dword |
| Memory.MemSet | student-distrib/lib.c:297-334 | the three phases equal the byte loop with the low byte and touch nothing else |
| Memory.MemMove | student-distrib/lib.c:450-471 | delivers the original source bytes for every overlap |

## Left out

- Hardware set-up, interrupt entry, port I/O, the real-time clock and multiboot parsing: device plumbing.
- Register and stack switching: frame tokens stand for the saved stacks.
- A root shell that ends with a non-zero status: the launch loop is left in a state the call stacks do not describe.
- The parsing of command lines and `getargs`, and the loading of the program image: no effect on the process tables.
- Which of several blinking elements at one location shows: their order of drawing is modelled, but results ask that no add puts one on another.
- `printf`'s walk over the format string: the conversions are modelled as the text they produce.
- What runs do after a store past the display page, which faults, or behind the line buffer, which overwrites a byte of another variable: runs end before it.
- CallStacks.RelaunchKeepsExactlyWhen: runs contain the relaunch step only under its condition; what a broken forest does next is not followed.
- Grep.DoOneFile: assumes that the byte behind the stack buffer is not a newline before the first read, and opens no file by name.
- System.EventOnScreen: the text that `execute` prints when the inode of a program file is out of range.
- Kernel.Kernel.Read: what the other devices return is modelled apart (`Directory`, `ConsoleCode`) or, for the clock, not at all.
- BlinkPool.BlinkList.Perform: ends with the first colliding add; what later calls do on links that run in a circle is not followed.
- ProcessRuns.RunRefines: runs contain reads of a regular file only with a count that fits (`FileSystem.CountFits`).
- FileSystem.ReadData: what the code copies after it has left the file is not followed.
- The stub calls (`set_handler`, `sigreturn`, `file_open`, `file_write`, `open_Terminal`) and the demo programs.
- Structures that the source updates through pointers are values in arrays here, so aliasing between them is not captured.
