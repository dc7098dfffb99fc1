/** The text screen: what `write_Terminal` (student-distrib/terminal.c) makes of it, and the unbounded page it shows. */
module Screen {
  import opened Bytes

  const WIDTH: nat := 80
  const LAST_ROW: nat := 24      // TERMINAL_HEIGHT
  const CELLS: nat := 2000       // 25 rows
  const PAGE_CELLS: nat := 2048  // the 4 KB page behind the screen

  /** A character and its attribute byte. */
  datatype Cell = Cell(ch: Byte, attr: Byte)

  /** One terminal's page and cursor. */
  datatype Tty = Tty(page: seq<Cell>, x: nat, y: nat)

  predicate IsTty(t: Tty) {
    |t.page| == PAGE_CELLS
  }

  /** The cursor is on the screen. */
  predicate OnScreen(t: Tty) {
    t.x < WIDTH && t.y <= LAST_ROW
  }

  function Blank(attr: Byte): Cell {
    Cell(SPACE, attr)
  }

  /** All 25 rows are spaces in grey. */
  ghost predicate IsBlank(t: Tty)
    requires IsTty(t)
  {
    forall i | 0 <= i < CELLS :: t.page[i] == Cell(SPACE, 7)
  }

  /** Number of the cell under the cursor. */
  function Cursor(t: Tty): nat {
    t.y * WIDTH + t.x
  }

  /** The cursor is where runs that stay inside the page can leave it: on the screen, or behind its last row. */
  predicate InPage(t: Tty) {
    t.y <= LAST_ROW && (t.x < WIDTH || t.y == LAST_ROW) && Cursor(t) <= PAGE_CELLS
  }

  /** `WriteCharacter`. The page behind the last cell is not mapped (Paging.BehindScreenFaults): a store there
      does not return, so results about runs ask that none is made. */
  function Put(page: seq<Cell>, i: nat, c: Cell): (r: seq<Cell>)
    ensures |r| == |page|
  {
    if i < |page| then page[i := c] else page
  }

  /** Rows 1..24 move up one and row 24 is blanked. */
  function ScrollUp(page: seq<Cell>, attr: Byte): (r: seq<Cell>)
    requires |page| == PAGE_CELLS
    ensures |r| == PAGE_CELLS
  {
    page[WIDTH..CELLS] + seq(WIDTH, _ => Blank(attr)) + page[CELLS..]
  }

  /** A cursor that has reached row 25 goes back to row 24 of a scrolled screen. */
  function Settle(t: Tty, attr: Byte): Tty
    requires IsTty(t)
  {
    if t.y == LAST_ROW + 1 then Tty(ScrollUp(t.page, attr), t.x, LAST_ROW) else t
  }

  /** One byte of `write_Terminal`. */
  function WriteByte(t: Tty, b: Byte, attr: Byte): (r: Tty)
    requires IsTty(t)
    ensures IsTty(r)
  {
    if b == NEWLINE then Settle(Tty(t.page, 0, t.y + 1), attr)
    else
      var page := Put(t.page, t.y * WIDTH + t.x, Cell(b, attr));
      var wraps := t.x + 1 == WIDTH && t.y < LAST_ROW + 1;
      Settle(if wraps then Tty(page, 0, t.y + 1) else Tty(page, t.x + 1, t.y), attr)
  }

  function WriteBytes(t: Tty, s: seq<Byte>, attr: Byte): (r: Tty)
    requires IsTty(t)
    ensures IsTty(r)
  {
    if s == [] then t
    else WriteByte(WriteBytes(t, s[..|s| - 1], attr), s[|s| - 1], attr)
  }

  /** Where `write_Terminal` starts: a cursor left below the screen is settled first. */
  function Settled(t: Tty, attr: Byte): (r: Tty)
    requires IsTty(t)
    ensures IsTty(r)
  {
    Settle(t.(y := if t.y == LAST_ROW + 2 then t.y - 1 else t.y), attr)
  }

  /** `write_Terminal`. */
  function Write(t: Tty, s: seq<Byte>, attr: Byte): (r: Tty)
    requires IsTty(t)
    ensures IsTty(r)
  {
    WriteBytes(Settled(t, attr), s, attr)
  }

  // ----- Stores inside the page -----

  predicate ByteInside(t: Tty, b: Byte) {
    b == NEWLINE || Cursor(t) < PAGE_CELLS
  }

  predicate BytesInside(t: Tty, s: seq<Byte>, attr: Byte)
    requires IsTty(t)
  {
    s == [] ||
    (BytesInside(t, s[..|s| - 1], attr) && ByteInside(WriteBytes(t, s[..|s| - 1], attr), s[|s| - 1]))
  }

  /** Every store of a call of `write_Terminal` falls into the display page. */
  predicate WriteInside(t: Tty, s: seq<Byte>, attr: Byte)
    requires IsTty(t)
  {
    BytesInside(Settled(t, attr), s, attr)
  }

  // ----- The unbounded page -----

  /** An endless page, cell `80 * row + column`, and the place of the next character. Reaching the end of a
      row is nothing special here; a newline goes to the start of the next one. */
  datatype Tape = Tape(cells: nat -> Cell, pos: nat)

  ghost function TapeByte(t: Tape, b: Byte, attr: Byte): Tape {
    if b == NEWLINE then t.(pos := (t.pos / WIDTH + 1) * WIDTH)
    else Tape((i: nat) => if i == t.pos then Cell(b, attr) else t.cells(i), t.pos + 1)
  }

  ghost function TapeBytes(t: Tape, s: seq<Byte>, attr: Byte): Tape {
    if s == [] then t else TapeByte(TapeBytes(t, s[..|s| - 1], attr), s[|s| - 1], attr)
  }

  /** The page a screen starts from: its own 25 rows, then blanks. */
  ghost function TapeOf(t: Tty, attr: Byte): Tape
    requires IsTty(t)
  {
    Tape((i: nat) => if i < CELLS then t.page[i] else Blank(attr), t.y * WIDTH + t.x)
  }

  /** The screen is the 25 rows of the page from row `top` on, with the cursor where the page has it. */
  ghost predicate Shows(t: Tty, tape: Tape, top: nat, attr: Byte) {
    && IsTty(t) && OnScreen(t)
    && tape.pos == WIDTH * (top + t.y) + t.x
    && (forall i | 0 <= i < CELLS :: t.page[i] == tape.cells(WIDTH * top + i))
    && (forall i | i >= WIDTH * top + CELLS :: tape.cells(i) == Blank(attr))
  }

  /** The lowest window that has the cursor on its last row or above. */
  function TopFor(top: nat, pos: nat): nat {
    if pos / WIDTH > top + LAST_ROW then pos / WIDTH - LAST_ROW else top
  }

  lemma RowOf(row: nat, x: nat)
    requires x < WIDTH
    ensures (WIDTH * row + x) / WIDTH == row
  {
  }

  /** Scrolling moves the window down by one row. */
  lemma SettleShows(t: Tty, tape: Tape, top: nat, attr: Byte)
    requires IsTty(t) && t.x < WIDTH && t.y <= LAST_ROW + 1
    requires tape.pos == WIDTH * (top + t.y) + t.x
    requires forall i | 0 <= i < CELLS :: t.page[i] == tape.cells(WIDTH * top + i)
    requires forall i | i >= WIDTH * top + CELLS :: tape.cells(i) == Blank(attr)
    ensures Shows(Settle(t, attr), tape, TopFor(top, tape.pos), attr)
    ensures Settle(t, attr).page[CELLS..] == t.page[CELLS..]
  {
    RowOf(top + t.y, t.x);
    if t.y == LAST_ROW + 1 {
      var page := ScrollUp(t.page, attr);
      forall i | 0 <= i < CELLS ensures page[i] == tape.cells(WIDTH * (top + 1) + i) {
        if i < CELLS - WIDTH {
          assert page[i] == t.page[WIDTH + i] == tape.cells(WIDTH * top + (WIDTH + i));
        } else {
          assert page[i] == Blank(attr) == tape.cells(WIDTH * (top + 1) + i);
        }
      }
    }
  }

  lemma ByteShows(t: Tty, tape: Tape, top: nat, b: Byte, attr: Byte)
    requires Shows(t, tape, top, attr)
    ensures Shows(WriteByte(t, b, attr), TapeByte(tape, b, attr), TopFor(top, TapeByte(tape, b, attr).pos), attr)
    ensures WriteByte(t, b, attr).page[CELLS..] == t.page[CELLS..]
  {
    var next := TapeByte(tape, b, attr);
    RowOf(top + t.y, t.x);
    if b == NEWLINE {
      SettleShows(Tty(t.page, 0, t.y + 1), next, top, attr);
    } else {
      var at := t.y * WIDTH + t.x;
      assert at < CELLS;
      var page := t.page[at := Cell(b, attr)];
      forall i | 0 <= i < CELLS ensures page[i] == next.cells(WIDTH * top + i) {
      }
      SettleShows(if t.x + 1 == WIDTH then Tty(page, 0, t.y + 1) else Tty(page, t.x + 1, t.y), next, top, attr);
      assert page[CELLS..] == t.page[CELLS..];
    }
  }

  lemma {:induction false} BytesShow(t: Tty, tape: Tape, s: seq<Byte>, attr: Byte)
    requires Shows(t, tape, 0, attr)
    ensures Shows(WriteBytes(t, s, attr), TapeBytes(tape, s, attr), TopFor(0, TapeBytes(tape, s, attr).pos), attr)
    ensures WriteBytes(t, s, attr).page[CELLS..] == t.page[CELLS..]
    ensures TapeBytes(tape, s, attr).pos >= tape.pos
  {
    if s == [] {
      RowOf(t.y, t.x);
    } else {
      var front, b := s[..|s| - 1], s[|s| - 1];
      BytesShow(t, tape, front, attr);
      var mid := TapeBytes(tape, front, attr);
      ByteShows(WriteBytes(t, front, attr), mid, TopFor(0, mid.pos), b, attr);
      RowsGrow(mid.pos, TapeByte(mid, b, attr).pos);
    }
  }

  lemma RowsGrow(pos: nat, next: nat)
    requires next == pos + 1 || next == (pos / WIDTH + 1) * WIDTH
    ensures pos < next && pos / WIDTH <= next / WIDTH
    ensures TopFor(TopFor(0, pos), next) == TopFor(0, next)
  {
  }

  /** Whatever is written, the screen is the last 25 rows reached on the endless page that started as the
      screen, the cursor is on it, and the rest of the 4 KB page is untouched. */
  lemma WriteIsWindow(t: Tty, s: seq<Byte>, attr: Byte)
    requires IsTty(t) && OnScreen(t)
    ensures Shows(Write(t, s, attr), TapeBytes(TapeOf(t, attr), s, attr),
                  TopFor(0, TapeBytes(TapeOf(t, attr), s, attr).pos), attr)
    ensures Write(t, s, attr).page[CELLS..] == t.page[CELLS..]
  {
    BytesShow(t, TapeOf(t, attr), s, attr);
  }

  lemma {:induction false} WriteBytesAppend(t: Tty, s: seq<Byte>, u: seq<Byte>, attr: Byte)
    requires IsTty(t)
    ensures WriteBytes(t, s + u, attr) == WriteBytes(WriteBytes(t, s, attr), u, attr)
    decreases |u|
  {
    if u == [] {
      assert s + u == s;
    } else {
      assert (s + u)[..|s + u| - 1] == s + u[..|u| - 1];
      WriteBytesAppend(t, s, u[..|u| - 1], attr);
    }
  }

  /** Two calls write what one call with both texts would. */
  lemma WriteAppend(t: Tty, s: seq<Byte>, u: seq<Byte>, attr: Byte)
    requires IsTty(t) && OnScreen(t)
    ensures Write(t, s + u, attr) == Write(Write(t, s, attr), u, attr)
  {
    WriteBytesAppend(t, s, u, attr);
    WriteIsWindow(t, s, attr);
  }

  /** Where the cursor is after some output: on the screen if it was there or a newline was written. From column
      80 on the wrap test is missed, and the column only grows. */
  lemma {:induction false} CursorAfter(t: Tty, s: seq<Byte>, attr: Byte)
    requires IsTty(t) && t.y <= LAST_ROW
    ensures OnScreen(WriteBytes(t, s, attr)) <==> OnScreen(t) || NEWLINE in s
    ensures !OnScreen(t) && NEWLINE !in s ==>
              WriteBytes(t, s, attr).x == t.x + |s| && WriteBytes(t, s, attr).y == t.y
    ensures WriteBytes(t, s, attr).y <= LAST_ROW
  {
    if s != [] {
      CursorAfter(t, s[..|s| - 1], attr);
      assert s == s[..|s| - 1] + [s[|s| - 1]];
    }
  }

  /** Output leaves the cursor on the screen exactly when it was on it or a newline is written. */
  lemma CursorStaysExactlyWhen(t: Tty, s: seq<Byte>, attr: Byte)
    requires IsTty(t) && t.y <= LAST_ROW
    ensures OnScreen(Write(t, s, attr)) <==> OnScreen(t) || NEWLINE in s
  {
    CursorAfter(t, s, attr);
  }

  /** Output is stored inside the page exactly when the cursor is on the screen or the text up to the first
      newline fits between the cursor and the end of the page. */
  lemma {:induction false} WriteInsideExactlyWhen(t: Tty, s: seq<Byte>, attr: Byte)
    requires IsTty(t) && t.y <= LAST_ROW
    ensures WriteInside(t, s, attr) <==>
            OnScreen(t) || LineLength(s) == 0 || Cursor(t) + LineLength(s) <= PAGE_CELLS
  {
    if s != [] {
      var front, b := s[..|s| - 1], s[|s| - 1];
      WriteInsideExactlyWhen(t, front, attr);
      CursorAfter(t, front, attr);
      LineLengthOfFront(s);
    }
  }

  lemma LineLengthOfFront(s: seq<Byte>)
    requires s != []
    ensures LineLength(s) == LineLength(s[..|s| - 1]) + if NEWLINE in s then 0 else 1
    ensures NEWLINE !in s ==> LineLength(s) == |s|
    ensures NEWLINE in s[..|s| - 1] ==> LineLength(s) < |s| - 1
  {
    var front := s[..|s| - 1];
    assert forall i | 0 <= i < |front| :: front[i] == s[i];
  }

  /** Stores inside the page keep the cursor inside it. */
  lemma InsideKeepsInPage(t: Tty, s: seq<Byte>, attr: Byte)
    requires IsTty(t) && InPage(t) && WriteInside(t, s, attr)
    ensures InPage(Write(t, s, attr))
  {
    CursorAfter(t, s, attr);
    WriteInsideExactlyWhen(t, s, attr);
    if !OnScreen(t) && NEWLINE !in s && s != [] {
      LineLengthOfFront(s);
    }
  }
}
