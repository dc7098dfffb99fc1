/** terminal.c, keyboard.c and the screen part of multiprocess.c, step by step on the display memory and the
    keyboard globals. `Abs` is the state of module Terminals. */
module ConsoleCode {
  import opened Bytes
  import opened Screen
  import opened LineEditor
  import opened Terminals

  /** The cases of getchar's switch that only acknowledge the key. */
  const DEAD_KEYS: seq<Byte> :=
    [0x00, 0x0F, 0xE0, 0x49, 0x3B, 0x3C, 0x3D, 0x3E, 0x3F, 0x40, 0x41, 0x42, 0x43, 0x44, 0x57, 0x58,
     0x4D, 0x4B, 0x48, 0x50, 0x52, 0x53, 0x47, 0x4F, 0x46, 0x45, 0x37, 0x51]

  lemma DeadKeysAre(scancode: Byte)
    ensures scancode in DEAD_KEYS <==> IsDead(scancode)
  {
  }

  class TextConsole {
    const video: array<Cell>   // the page at 0xB8000
    const buffer: array<Byte>  // 128 bytes and the one behind them
    const saves: array<Save>   // three_term_buf
    var x: nat
    var y: nat
    var size: nat              // buffer_Size
    var front: nat             // buffer_flag
    var caps: bool
    var shift: bool
    var ctrl: bool
    var alt: bool
    var entered: bool          // enter_flag

    ghost predicate Valid()
      reads this, video, buffer, saves
    {
      video.Length == PAGE_CELLS && buffer.Length == BUFFER_SIZE + 1 && saves.Length == TERMINALS && IsConsole(Abs())
    }

    ghost function Repr(): set<object> {
      {this, video, buffer, saves}
    }

    function Modifiers(): Mods
      reads this
    {
      Mods(caps, shift, ctrl, alt)
    }

    ghost function Abs(): Console
      reads this, video, buffer, saves
    {
      Console(Tty(video[..], x, y), buffer[..], size, Modifiers(), entered, front, saves[..])
    }

    /** Power-on: empty lines; the display memory holds whatever it holds. */
    constructor (screen: seq<Cell>, pages: seq<Cell>)
      requires |screen| == |pages| == PAGE_CELLS
      ensures Valid() && fresh(Repr())
      ensures size == 0 && front == 0 && x == 0 && y == 0 && video[..] == screen
      ensures AllInPage(Abs())
    {
      video := new Cell[PAGE_CELLS](i requires 0 <= i < PAGE_CELLS => screen[i]);
      buffer := new Byte[BUFFER_SIZE + 1](_ => NUL);
      saves := new Save[TERMINALS](_ => Save(pages, 0, 0, seq(BUFFER_SIZE, _ => NUL), 0));
      x, y, size, front := 0, 0, 0, 0;
      caps, shift, ctrl, alt, entered := false, false, false, false, false;
      new;
      assert video[..] == screen;
    }

    // ----- Output -----

    method WriteCharacter(ch: Byte, column: nat, row: nat)
      requires Valid() && row * WIDTH + column < PAGE_CELLS
      modifies video
      ensures video[..] == old(video[..])[row * WIDTH + column := Cell(ch, Colour(front))]
    {
      video[row * WIDTH + column] := Cell(ch, Colour(front));
    }

    /** The copy of one row over the row above it. */
    method CopyRowUp(row: nat)
      requires Valid() && row < LAST_ROW
      modifies video
      ensures forall i | row * WIDTH <= i < row * WIDTH + WIDTH :: video[i] == old(video[i + WIDTH])
      ensures forall i | 0 <= i < PAGE_CELLS && !(row * WIDTH <= i < row * WIDTH + WIDTH) :: video[i] == old(video[i])
    {
      var at := row * WIDTH;
      for i := 0 to WIDTH
        invariant forall j | at <= j < at + i :: video[j] == old(video[j + WIDTH])
        invariant forall j | 0 <= j < PAGE_CELLS && !(at <= j < at + i) :: video[j] == old(video[j])
      {
        video[at + i] := video[at + WIDTH + i];
      }
    }

    /** The row loops of `scroll` (25 turns) and of `write_Terminal` (24 turns): both move rows 1..24 up. */
    method ShiftRows(turns: nat)
      requires Valid() && turns >= LAST_ROW
      modifies video
      ensures video[..] == ScrollUp(old(video[..]), Colour(front))
    {
      for row := 0 to turns
        invariant forall i | 0 <= i < Min(row, LAST_ROW) * WIDTH :: video[i] == old(video[i + WIDTH])
        invariant forall i | Min(row, LAST_ROW) * WIDTH <= i < PAGE_CELLS :: video[i] == old(video[i])
      {
        if row < LAST_ROW {
          CopyRowUp(row);
        }
      }
      var at := LAST_ROW * WIDTH;
      for i := 0 to WIDTH
        invariant forall j | 0 <= j < PAGE_CELLS ::
                    video[j] == if j < at then old(video[j + WIDTH])
                                else if j < at + i then Blank(Colour(front)) else old(video[j])
      {
        WriteCharacter(SPACE, i, LAST_ROW);
      }
    }

    /** `scroll`, called with the cursor on row 25. */
    method Scroll()
      requires Valid() && y == LAST_ROW + 1
      modifies video, this`y
      ensures video[..] == ScrollUp(old(video[..]), Colour(front)) && y == LAST_ROW
    {
      ShiftRows(y);
      y := y - 1;
    }

    /** The body of the byte loop, on the local cursor. */
    method WriteOne(b: Byte, column: nat, row: nat) returns (c: nat, r: nat)
      requires Valid() && (b == NEWLINE || row * WIDTH + column < PAGE_CELLS)
      modifies video, this`x, this`y
      ensures Tty(video[..], c, r) == WriteByte(Tty(old(video[..]), column, row), b, Colour(front))
    {
      c, r := column, row;
      if b == NEWLINE {
        r, c := r + 1, 0;
        if r == LAST_ROW + 1 {
          x, y := c, r;
          Scroll();
          c, r := x, y;
        }
      } else {
        WriteCharacter(b, c, r);
        c := c + 1;
        if c == WIDTH && r < LAST_ROW + 1 {
          r, c := r + 1, 0;
        }
        if r == LAST_ROW + 1 {
          r := r - 1;
          ShiftRows(r);
        }
      }
    }

    /** The opening of `write_Terminal`, on the local cursor. */
    method SettleCursor() returns (c: nat, r: nat)
      requires Valid()
      modifies video
      ensures Tty(video[..], c, r) == Settled(Tty(old(video[..]), x, y), Colour(front))
    {
      c, r := x, y;
      if r == LAST_ROW + 2 {
        r := r - 1;
      }
      if r == LAST_ROW + 1 {
        r := r - 1;
        ShiftRows(r);
      }
    }

    /** `write_Terminal`. */
    method WriteTerminal(text: seq<Byte>)
      requires Valid() && WriteInside(Abs().tty, text, Colour(front))
      modifies video, this`x, this`y
      ensures Valid()
      ensures Abs() == old(Abs()).(tty := Write(old(Abs()).tty, text, Colour(front)))
    {
      var c, r := SettleCursor();
      ghost var settled := Tty(video[..], c, r);
      for i := 0 to |text|
        invariant Valid()
        invariant Tty(video[..], c, r) == WriteBytes(settled, text[..i], Colour(front))
      {
        PrefixInside(settled, text, i + 1, Colour(front));
        assert text[..i + 1][..i] == text[..i];
        c, r := WriteOne(text[i], c, r);
      }
      assert text[..|text|] == text;
      x, y := c, r;
    }

    /** `clear`. */
    method ClearScreen()
      requires Valid()
      modifies video
      ensures video[..] == ClearPage(old(video[..]))
    {
      for i := 0 to CELLS
        invariant forall j | 0 <= j < PAGE_CELLS :: video[j] == if j < i then Blank(ATTRIB) else old(video[j])
      {
        video[i] := Blank(ATTRIB);
      }
    }

    /** Before a root shell is launched again the screen is cleared and the cursor sent home. */
    method ClearHome()
      requires Valid()
      modifies video, this`x, this`y
      ensures Valid() && Abs() == old(Abs()).(tty := Tty(ClearPage(old(Abs()).tty.page), 0, 0))
    {
      ClearScreen();
      x, y := 0, 0;
    }

    // ----- The keyboard -----

    /** The common end of every branch that takes a character. */
    method TakeChar(ch: Byte)
      requires Valid() && size < BUFFER_SIZE && y * WIDTH + x < PAGE_CELLS
      modifies video, buffer, this`x, this`y, this`size
      ensures Valid()
      ensures Abs() == PressOn(old(Abs()), Insert(ch, true))
    {
      buffer[size] := ch;
      size := size + 1;
      WriteCharacter(ch, x, y);
      x := x + 1;
      if x == WIDTH && y < LAST_ROW {
        y := y + 1;
        x := 0;
      }
    }

    method Backspace()
      requires Valid() && (size > 0 ==> y * WIDTH + x <= PAGE_CELLS)
      modifies video, buffer, this`x, this`y, this`size
      ensures Valid() && Abs() == PressOn(old(Abs()), Erase)
    {
      if x == 0 && y == 0 {
        return;
      }
      if size > 0 {
        buffer[size] := SPACE;
        size := size - 1;
        if x > 0 {
          WriteCharacter(SPACE, x - 1, y);
          x := x - 1;
        } else {
          y := y - 1;
          x := WIDTH - 1;
          WriteCharacter(SPACE, x, y);
        }
      }
    }

    method EnterKey()
      requires Valid()
      modifies video, this`x, this`y, this`entered
      ensures Valid() && Abs() == PressOn(old(Abs()), Enter)
    {
      entered := true;
      x := 0;
      y := y + 1;
      if y == LAST_ROW + 1 {
        Scroll();
      }
    }

    method LKey()
      requires Valid() && (!ctrl && size < BUFFER_SIZE ==> y * WIDTH + x < PAGE_CELLS)
      modifies video, buffer, this`x, this`y, this`size
      ensures Valid()
      ensures Abs() == PressOn(old(Abs()),
                               if ctrl then Clear else Insert(if caps != shift then UPPER_L else LOWER_L, true))
    {
      if ctrl {
        ClearScreen();
        x, y, size := 0, 0, 0;
      } else if size < BUFFER_SIZE {
        TakeChar(if caps && shift then LOWER_L else if caps || shift then UPPER_L else LOWER_L);
      }
    }

    /** `getchar` for one scancode; F1 to F3 are the kernel's. */
    method GetChar(k: Keymap, scancode: Byte)
      requires Valid() && IsKeymap(k)
      requires ActOnPage(ViewOf(Abs(), front), ActionOf(Modifiers(), k, scancode))
      modifies Repr()
      ensures Valid() && Abs() == NextConsole(old(Abs()), k, Press(scancode))
    {
      DeadKeysAre(scancode);
      if scancode == ENTER {
        EnterKey();
      } else if scancode == CAPS_LOCK {
        caps := !caps;
      } else if scancode == BACKSPACE {
        Backspace();
      } else if scancode == 0x2A || scancode == 0x36 {
        shift := true;
      } else if scancode == 0xAA || scancode == 0xB6 {
        shift := false;
      } else if scancode == 0x1D {
        ctrl := true;
      } else if scancode == 0x9D {
        ctrl := false;
      } else if scancode == L_KEY {
        LKey();
      } else if scancode == 0x38 {
        alt := true;
      } else if scancode == 0xB8 {
        alt := false;
      } else if scancode !in DEAD_KEYS && scancode < 0x80 {
        CharacterKey(k, scancode);
      }
    }

    /** The four branches behind the switch, one for each table. */
    method CharacterKey(k: Keymap, scancode: Byte)
      requires Valid() && IsKeymap(k) && scancode < 128
      requires Accepts(ViewOf(Abs(), front), false) ==> y * WIDTH + x < PAGE_CELLS
      modifies video, buffer, this`x, this`y, this`size
      ensures Valid() && Abs() == PressOn(old(Abs()), Insert(Translate(old(Modifiers()), k, scancode), false))
    {
      if x < WIDTH + 1 && y < LAST_ROW + 1 && size < BUFFER_SIZE {
        var ch := if !shift then (if caps then k.caps else k.plain)[scancode]
                  else (if caps then k.both else k.shift)[scancode];
        TakeChar(ch);
      }
    }

    /** `read_Terminal` once Enter has been pressed, into the caller's memory from `at` on. The count asked for is
        not looked at: a line that does not fit is stored beyond the caller's `nbytes` bytes. */
    method ReadTerminal(memory: array<Byte>, at: nat, ghost nbytes: int) returns (n: nat)
      requires Valid() && entered && at + size < memory.Length && memory != buffer
      modifies memory, buffer, this`size, this`entered
      ensures Valid() && Abs() == TakeLine(old(Abs()))
      ensures n == old(size) + 1 && (n <= nbytes <==> old(size) < nbytes)
      ensures memory[..] == old(memory[..at]) + ReadLine(ViewOf(old(Abs()), front)).1 + old(memory[..])[at + n..]
      ensures 0 <= nbytes <= memory.Length - at && n <= nbytes ==>
                memory[at + nbytes..] == old(memory[..])[at + nbytes..]
    {
      entered := false;
      ghost var was := old(Abs());
      n := CopyLine(memory, at);
      ZeroLine();
      size := 0;
      assert buffer[..] == TakeLine(was).buffer;
    }

    method CopyLine(memory: array<Byte>, at: nat) returns (n: nat)
      requires size < buffer.Length && at + size < memory.Length && memory != buffer
      modifies memory
      ensures n == size + 1
      ensures memory[..] == old(memory[..at]) + (buffer[..size] + [NEWLINE]) + old(memory[..])[at + n..]
    {
      n := 0;
      while n < size
        invariant 0 <= n <= size && memory[at..at + n] == buffer[..n]
        invariant forall i | 0 <= i < memory.Length && !(at <= i < at + n) :: memory[i] == old(memory[i])
      {
        memory[at + n] := buffer[n];
        n := n + 1;
      }
      memory[at + size] := NEWLINE;
      n := n + 1;
    }

    method ZeroLine()
      requires size <= buffer.Length
      modifies buffer
      ensures buffer[..] == seq(size, _ => NUL) + old(buffer[..])[size..]
    {
      for i := 0 to size
        invariant forall j | 0 <= j < buffer.Length :: buffer[j] == if j < i then NUL else old(buffer[j])
      {
        buffer[i] := NUL;
      }
    }

    // ----- switch_terminal -----

    /** `fill_buffer`: only the bytes of the line are saved. */
    method FillBuffer(cur: nat)
      requires Valid() && cur < TERMINALS
      modifies saves
      ensures var line := buffer[..size] + old(saves[cur]).buffer[size..];
              saves[..] == old(saves[..])[cur := old(saves[cur]).(buffer := line)]
    {
      ghost var was := saves[cur];
      for i := 0 to size
        invariant saves[..] == old(saves[..])[cur := was.(buffer := saves[cur].buffer)]
        invariant |saves[cur].buffer| == BUFFER_SIZE
        invariant forall j | 0 <= j < BUFFER_SIZE :: saves[cur].buffer[j] == if j < i then buffer[j] else was.buffer[j]
      {
        saves[cur] := saves[cur].(buffer := saves[cur].buffer[i := buffer[i]]);
      }
      assert saves[cur].buffer == buffer[..size] + was.buffer[size..];
    }

    method SwitchTerminal(next: nat)
      requires Valid() && next < TERMINALS && next != front
      modifies Repr()
      ensures Valid() && Abs() == SwitchConsole(old(Abs()), next)
    {
      ghost var was := Abs();
      var cur := front;
      front := next;  // the key handler, before the call
      saves[cur] := saves[cur].(x := x, y := y);
      x, y := saves[next].x, saves[next].y;
      SaveScreen(cur);
      assert saves[..] == was.saves[cur := SaveFront(was)];
      assert IsSave(SaveFront(was));
      RestoreScreen(next);
    }

    /** The line, its length and the screen of the terminal that is left. */
    method SaveScreen(cur: nat)
      requires Valid() && cur < TERMINALS
      modifies saves
      ensures var line := buffer[..size] + old(saves[cur]).buffer[size..];
              saves[..] == old(saves[..])[cur := old(saves[cur]).(page := video[..], buffer := line, size := size)]
    {
      FillBuffer(cur);
      saves[cur] := saves[cur].(size := size);
      saves[cur] := saves[cur].(page := video[..]);
    }

    /** Those of the terminal that is shown. */
    method RestoreScreen(next: nat)
      requires Valid() && next < TERMINALS
      modifies video, buffer, this`size
      ensures video[..] == saves[next].page && size == saves[next].size
      ensures buffer[..] == saves[next].buffer + old(buffer[..])[BUFFER_SIZE..]
    {
      ClearScreen();
      RestorePage(saves[next].page);
      RestoreBuffer(saves[next].buffer);
      size := saves[next].size;
    }

    method RestorePage(page: seq<Cell>)
      requires video.Length == |page| == PAGE_CELLS
      modifies video
      ensures video[..] == page
    {
      for i := 0 to PAGE_CELLS
        invariant forall j | 0 <= j < i :: video[j] == page[j]
      {
        video[i] := page[i];
      }
    }

    method RestoreBuffer(saved: seq<Byte>)
      requires buffer.Length == BUFFER_SIZE + 1 && |saved| == BUFFER_SIZE
      modifies buffer
      ensures buffer[..] == saved + old(buffer[..])[BUFFER_SIZE..]
    {
      for i := 0 to BUFFER_SIZE
        invariant forall j | 0 <= j < i :: buffer[j] == saved[j]
        invariant buffer[BUFFER_SIZE] == old(buffer[BUFFER_SIZE])
      {
        buffer[i] := saved[i];
      }
    }
  }

  lemma {:induction false} PrefixInside(t: Tty, s: seq<Byte>, n: nat, attr: Byte)
    requires IsTty(t) && n <= |s| && BytesInside(t, s, attr)
    ensures BytesInside(t, s[..n], attr)
    decreases |s|
  {
    if n == |s| {
      assert s[..n] == s;
    } else {
      assert s[..|s| - 1][..n] == s[..n];
      PrefixInside(t, s[..|s| - 1], n, attr);
    }
  }
}
