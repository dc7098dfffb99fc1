/** The page structures of student-distrib/Paging.c and what the processor makes of them.
    Wherever the source combines an address and flags with `|` their bits are disjoint, so `+` is meant. */
module Paging {
  import opened Bytes

  const ENTRIES: nat := 1024
  const PAGE: int := 0x1000
  const FOUR_MB: int := 0x40_0000
  const EIGHT_MB: int := 0x80_0000

  const PRESENT := 0x1
  const READ_WRITE := 0x2
  const USER := 0x4
  const SIZE := 0x80
  const USER_FLAGS := USER + READ_WRITE + PRESENT

  const PROGRAM_ENTRY: nat := 32        // 128 MB
  const VIDMAP_ENTRY: nat := 36         // 0x9000000
  const TERMINAL_ENTRY: nat := 0x25     // PAGE_ENTRY_INIT
  const PROGRAM_BASE: int := 0x800_0000
  const VIDMAP_BASE: int := 0x900_0000
  const SCREEN: int := 0xB8000
  const HISTORY: int := 0xBA000         // VIDEO_MEMORY_OFFSET: terminal t keeps its screen at + t pages

  /** Where the linker put the three page tables. */
  datatype Layout = Layout(table: Word, vidmap: Word, terminals: Word)

  datatype Tables = Tables(layout: Layout, dir: seq<Word>, table: seq<Word>, vidmap: seq<Word>, terminals: seq<Word>)

  ghost predicate WellPlaced(l: Layout) {
    && l.table % PAGE == 0 && l.vidmap % PAGE == 0 && l.terminals % PAGE == 0
    && l.table != l.vidmap && l.table != l.terminals && l.vidmap != l.terminals
  }

  ghost predicate Shaped(m: Tables) {
    |m.dir| == |m.table| == |m.vidmap| == |m.terminals| == ENTRIES
  }

  // ----- Address translation, section 4.3 of the Intel 64 and IA-32 SDM, volume 3A -----

  datatype Mapping = Fault | Maps(physical: int, user: bool)

  predicate Flag(entry: Word, bit: int)
    requires bit > 0
  {
    entry / bit % 2 == 1
  }

  /** The page table a directory entry points at, if it is one of the three. */
  function TableAt(m: Tables, address: int): seq<Word> {
    if address == m.layout.table then m.table
    else if address == m.layout.vidmap then m.vidmap
    else if address == m.layout.terminals then m.terminals
    else []
  }

  function Translate(m: Tables, linear: Word): Mapping
    requires Shaped(m)
  {
    var entry := m.dir[linear / FOUR_MB];
    if !Flag(entry, PRESENT) then Fault
    else if Flag(entry, SIZE) then Maps(entry / FOUR_MB * FOUR_MB + linear % FOUR_MB, Flag(entry, USER))
    else
      var table := TableAt(m, entry / PAGE * PAGE);
      if |table| != ENTRIES then Fault
      else
        var leaf := table[linear / PAGE % ENTRIES];
        if !Flag(leaf, PRESENT) then Fault
        else Maps(leaf / PAGE * PAGE + linear % PAGE, Flag(entry, USER) && Flag(leaf, USER))
  }

  // ----- What the kernel writes into them -----

  function ProgramEntry(slot: int): int {
    EIGHT_MB + slot * FOUR_MB + SIZE + USER_FLAGS
  }

  function HistoryPage(t: int): int {
    HISTORY + t * PAGE
  }

  /** `video_mem_hist` of terminal t. */
  function HistoryAddress(t: int): int {
    TERMINAL_ENTRY * FOUR_MB + HistoryPage(t)
  }

  function MapProgram(m: Tables, slot: int): Tables
    requires Shaped(m) && 0 <= slot < 6
  {
    m.(dir := m.dir[PROGRAM_ENTRY := ProgramEntry(slot)])
  }

  function MapVideo(m: Tables): Tables
    requires Shaped(m) && WellPlaced(m.layout)
  {
    m.(vidmap := m.vidmap[0 := SCREEN + USER_FLAGS], dir := m.dir[VIDMAP_ENTRY := m.layout.vidmap + USER_FLAGS])
  }

  /** What boot leaves behind and nothing later disturbs. */
  ghost predicate Booted(m: Tables) {
    && Shaped(m) && WellPlaced(m.layout)
    && m.dir[0] == m.layout.table + PRESENT
    && m.dir[1] == FOUR_MB + 0x100 + SIZE + PRESENT
    && (forall i | 0 <= i < ENTRIES ::
          m.table[i] == if i == SCREEN / PAGE then SCREEN + READ_WRITE + PRESENT else 0)
    && m.dir[TERMINAL_ENTRY] == m.layout.terminals + USER_FLAGS
    && (forall t | 0 <= t < 3 :: m.terminals[HistoryPage(t) / PAGE] == HistoryPage(t) + USER_FLAGS)
    && (m.dir[VIDMAP_ENTRY] == SIZE ||
        (m.dir[VIDMAP_ENTRY] == m.layout.vidmap + USER_FLAGS && m.vidmap[0] == SCREEN + USER_FLAGS))
  }

  // ----- What the entries translate to -----

  lemma EntryFlags(base: int, flags: int)
    requires 0 <= base && base % PAGE == 0 && 0 <= flags < PAGE && base + flags < WORD
    ensures (base + flags) / PAGE * PAGE == base
    ensures Flag(base + flags, PRESENT) == Flag(flags, PRESENT)
    ensures Flag(base + flags, USER) == Flag(flags, USER)
    ensures Flag(base + flags, SIZE) == Flag(flags, SIZE)
  {
    FlagsAbove(base / PAGE, flags);
  }

  lemma FlagsAbove(k: nat, flags: int)
    requires 0 <= flags < PAGE && PAGE * k + flags < WORD
    ensures (PAGE * k + flags) / PAGE == k
    ensures Flag(PAGE * k + flags, PRESENT) == Flag(flags, PRESENT)
    ensures Flag(PAGE * k + flags, USER) == Flag(flags, USER)
    ensures Flag(PAGE * k + flags, SIZE) == Flag(flags, SIZE)
  {
    LowBit(2048 * k, flags);
    UserAbove(k, flags);
    SizeAbove(k, flags);
  }

  lemma UserAbove(k: nat, flags: int)
    requires 0 <= flags < PAGE && PAGE * k + flags < WORD
    ensures Flag(PAGE * k + flags, USER) == Flag(flags, USER)
  {
    var q, r := flags / 4, flags % 4;
    assert (4 * (1024 * k + q) + r) / 4 == 1024 * k + q;
    LowBit(512 * k, q);
    assert PAGE * k + flags == 4 * (1024 * k + q) + r;
  }

  lemma SizeAbove(k: nat, flags: int)
    requires 0 <= flags < PAGE && PAGE * k + flags < WORD
    ensures Flag(PAGE * k + flags, SIZE) == Flag(flags, SIZE)
  {
    var q, r := flags / 0x80, flags % 0x80;
    assert (0x80 * (32 * k + q) + r) / 0x80 == 32 * k + q;
    LowBit(16 * k, q);
    assert PAGE * k + flags == 0x80 * (32 * k + q) + r;
  }

  lemma LowBit(h: int, q: int)
    ensures (2 * h + q) % 2 == q % 2
  {
  }

  /** The program's 4 MB are mapped linearly, for user code, to the frame of the slot. */
  lemma ProgramPage(m: Tables, slot: int, offset: int)
    requires Shaped(m) && 0 <= slot < 6 && m.dir[PROGRAM_ENTRY] == ProgramEntry(slot) && 0 <= offset < FOUR_MB
    ensures Translate(m, PROGRAM_BASE + offset) == Maps(EIGHT_MB + slot * FOUR_MB + offset, true)
  {
    var base := EIGHT_MB + slot * FOUR_MB;
    assert base % PAGE == 0 by {
      assert base == PAGE * (2048 + slot * 1024);
    }
    EntryFlags(base, SIZE + USER_FLAGS);
    assert (PROGRAM_BASE + offset) / FOUR_MB == PROGRAM_ENTRY && (PROGRAM_BASE + offset) % FOUR_MB == offset;
    assert ProgramEntry(slot) / FOUR_MB == 2 + slot;
  }

  /** A 4 KB page behind a table entry. */
  lemma SmallPage(m: Tables, linear: Word, tableAddress: Word, tableFlags: int, frame: int, flags: int)
    requires Shaped(m) && TableAt(m, tableAddress) != [] && tableAddress % PAGE == 0 && frame % PAGE == 0
    requires 0 <= frame && frame + PAGE <= WORD && 0 <= flags < PAGE
    requires 0 <= tableFlags < SIZE && tableAddress + tableFlags < WORD
    requires Flag(flags, PRESENT) && Flag(tableFlags, PRESENT)
    requires m.dir[linear / FOUR_MB] == tableAddress + tableFlags
    requires |TableAt(m, tableAddress)| == ENTRIES && TableAt(m, tableAddress)[linear / PAGE % ENTRIES] == frame + flags
    ensures Translate(m, linear) == Maps(frame + linear % PAGE, Flag(tableFlags, USER) && Flag(flags, USER))
  {
    EntryFlags(tableAddress, tableFlags);
    EntryFlags(frame, flags);
  }

  /** Each terminal's saved screen address maps to that terminal's own page. */
  lemma HistoryMapped(m: Tables, t: int, offset: int)
    requires Booted(m) && 0 <= t < 3 && 0 <= offset < PAGE
    ensures Translate(m, HistoryAddress(t) + offset) == Maps(HistoryPage(t) + offset, true)
  {
    var linear := HistoryAddress(t) + offset;
    assert linear / FOUR_MB == TERMINAL_ENTRY && linear / PAGE % ENTRIES == HistoryPage(t) / PAGE;
    assert linear % PAGE == offset;
    SmallPage(m, linear, m.layout.terminals, USER_FLAGS, HistoryPage(t), USER_FLAGS);
  }

  /** The kernel reaches the screen at its physical address; user code does not. */
  lemma ScreenMapped(m: Tables, offset: int)
    requires Booted(m) && 0 <= offset < PAGE
    ensures Translate(m, SCREEN + offset) == Maps(SCREEN + offset, false)
  {
    SmallPage(m, SCREEN + offset, m.layout.table, PRESENT, SCREEN, READ_WRITE + PRESENT);
  }

  /** Nothing else below 4 MB is mapped: a store past the display page, or before it, faults. */
  lemma BehindScreenFaults(m: Tables, linear: Word)
    requires Booted(m) && linear < FOUR_MB && linear / PAGE != SCREEN / PAGE
    ensures Translate(m, linear) == Fault
  {
    EntryFlags(m.layout.table, PRESENT);
  }

  /** After a successful vidmap the window at 144 MB shows the screen page to user code. */
  lemma VidmapMapped(m: Tables, offset: int)
    requires Booted(m) && 0 <= offset < PAGE
    ensures Translate(m, VIDMAP_BASE + offset) ==
            if m.dir[VIDMAP_ENTRY] == SIZE then Fault else Maps(SCREEN + offset, true)
  {
    var linear := VIDMAP_BASE + offset;
    assert linear / FOUR_MB == VIDMAP_ENTRY && linear / PAGE % ENTRIES == 0 && linear % PAGE == offset;
    if m.dir[VIDMAP_ENTRY] != SIZE {
      SmallPage(m, linear, m.layout.vidmap, USER_FLAGS, SCREEN, USER_FLAGS);
    }
  }

  /** The window shows the screen. */
  ghost predicate Window(m: Tables, offset: int)
    requires Shaped(m) && 0 <= offset < PAGE
  {
    Translate(m, VIDMAP_BASE + offset) == Maps(SCREEN + offset, true)
  }

  /** vidmap makes the window show the screen, whatever was there before. */
  lemma VidmapShows(m: Tables, offset: int)
    requires Booted(m) && 0 <= offset < PAGE
    ensures Window(MapVideo(m), offset)
  {
    MappingKeepsBooted(m, 0);
    VidmapEntryIsNew(m.layout);
    VidmapMapped(MapVideo(m), offset);
  }

  lemma VidmapEntryIsNew(l: Layout)
    requires WellPlaced(l)
    ensures l.vidmap + USER_FLAGS != SIZE
  {
  }

  /** Four addresses, in program space, on the screen and on two saved screens, reach different bytes. */
  ghost predicate PagesApart(m: Tables, t: int, u: int, offset: int, a: int, b: int)
    requires Shaped(m) && 0 <= t < 3 && 0 <= u < 3 && 0 <= offset < FOUR_MB && 0 <= a < PAGE && 0 <= b < PAGE
  {
    var program, screen := Translate(m, PROGRAM_BASE + offset), Translate(m, SCREEN + a);
    var saved, other := Translate(m, HistoryAddress(t) + b), Translate(m, HistoryAddress(u) + a);
    && program.Maps? && screen.Maps? && saved.Maps? && other.Maps?
    && program.physical != screen.physical && program.physical != saved.physical
    && saved.physical != screen.physical && (t != u ==> saved.physical != other.physical)
  }

  lemma BootedPagesApart(m: Tables, slot: int, t: int, u: int, offset: int, a: int, b: int)
    requires Booted(m) && 0 <= slot < 6 && m.dir[PROGRAM_ENTRY] == ProgramEntry(slot)
    requires 0 <= t < 3 && 0 <= u < 3 && 0 <= offset < FOUR_MB && 0 <= a < PAGE && 0 <= b < PAGE
    ensures PagesApart(m, t, u, offset, a, b)
  {
    ProgramPage(m, slot, offset);
    ScreenMapped(m, a);
    HistoryMapped(m, t, b);
    HistoryMapped(m, u, a);
  }

  /** No step that maps a program or the video window disturbs what boot set up. */
  lemma MappingKeepsBooted(m: Tables, slot: int)
    requires Booted(m) && 0 <= slot < 6
    ensures Booted(MapProgram(m, slot)) && Booted(MapVideo(m))
    ensures MapVideo(m).dir[PROGRAM_ENTRY] == m.dir[PROGRAM_ENTRY]
  {
  }

  // ----- The arrays themselves -----

  class PageTables {
    const layout: Layout
    const dir: array<Word>
    const table: array<Word>
    const vidmap: array<Word>
    const terminals: array<Word>

    ghost predicate Valid() {
      && dir.Length == table.Length == vidmap.Length == terminals.Length == ENTRIES
      && dir != table && dir != vidmap && dir != terminals
      && table != vidmap && table != terminals && vidmap != terminals
      && WellPlaced(layout)
    }

    ghost function Abs(): Tables
      reads dir, table, vidmap, terminals
    {
      Tables(layout, dir[..], table[..], vidmap[..], terminals[..])
    }

    constructor (layout: Layout)
      requires WellPlaced(layout)
      ensures Valid() && fresh(dir) && fresh(table) && fresh(vidmap) && fresh(terminals) && this.layout == layout
    {
      this.layout := layout;
      dir, table := new Word[ENTRIES], new Word[ENTRIES];
      vidmap, terminals := new Word[ENTRIES], new Word[ENTRIES];
    }

    /** `init_paging` and the three calls of `multi_terminal_init` (terminals 2, 1, 0). */
    method Boot()
      requires Valid()
      modifies dir, table, terminals
      ensures Booted(Abs()) && dir[VIDMAP_ENTRY] == SIZE
    {
      InitPaging();
      InitTerminal(2);
      InitTerminal(1);
      InitTerminal(0);
    }

    method InitPaging()
      requires Valid()
      modifies dir, table
      ensures dir[0] == layout.table + PRESENT && dir[1] == FOUR_MB + 0x100 + SIZE + PRESENT
      ensures forall i | 2 <= i < ENTRIES :: dir[i] == SIZE
      ensures forall i | 0 <= i < ENTRIES :: table[i] == if i == SCREEN / PAGE then SCREEN + READ_WRITE + PRESENT else 0
    {
      PresentFits(layout.table);
      for i := 0 to ENTRIES
        invariant forall j | 0 <= j < i :: dir[j] ==
                    if j == 0 then layout.table + PRESENT else if j == 1 then FOUR_MB + 0x100 + SIZE + PRESENT else SIZE
        invariant forall j | 0 <= j < i :: table[j] == 0
      {
        dir[i] := SIZE;
        table[i] := 0;
        if i == 0 {
          dir[0] := layout.table + PRESENT;
        }
        if i == 1 {
          dir[1] := FOUR_MB + SIZE + 0x100 + PRESENT;
        }
      }
      table[SCREEN / PAGE] := SCREEN + READ_WRITE + PRESENT;
    }

    method InitTerminal(t: int)
      requires Valid() && 0 <= t < 3
      modifies dir, terminals
      ensures dir[..] == old(dir[..])[TERMINAL_ENTRY := layout.terminals + USER_FLAGS]
      ensures terminals[..] == old(terminals[..])[HistoryPage(t) / PAGE := HistoryPage(t) + USER_FLAGS]
    {
      PresentFits(layout.terminals);
      terminals[HistoryPage(t) / PAGE] := HistoryPage(t) + USER_FLAGS;
      dir[TERMINAL_ENTRY] := layout.terminals + USER_FLAGS;
    }
  }

  lemma PresentFits(address: Word)
    requires address % PAGE == 0
    ensures address + USER_FLAGS < WORD
  {
  }
}
