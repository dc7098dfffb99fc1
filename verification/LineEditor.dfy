/** The keyboard's line editor (student-distrib/keyboard.c, getchar and read_Terminal) on one terminal. */
module LineEditor {
  import opened Bytes
  import opened Screen

  const BUFFER_SIZE: nat := 128
  const ATTRIB: Byte := 7         // what clear() fills with
  const LOWER_L: Byte := 108
  const UPPER_L: Byte := 76

  /** A terminal as its user sees it: screen, cursor and the line typed so far. */
  datatype View = View(tty: Tty, line: seq<Byte>)

  predicate IsView(v: View) {
    IsTty(v.tty) && |v.line| <= BUFFER_SIZE
  }

  /** The modifier keys; there is one set for all terminals. */
  datatype Mods = Mods(caps: bool, shift: bool, ctrl: bool, alt: bool)

  /** The four scancode tables. */
  datatype Keymap = Keymap(plain: seq<Byte>, caps: seq<Byte>, shift: seq<Byte>, both: seq<Byte>)

  predicate IsKeymap(k: Keymap) {
    |k.plain| == |k.caps| == |k.shift| == |k.both| == 128
  }

  /** What a scancode asks for. `Insert` of an ordinary key is refused off the screen; the L key does not look. */
  datatype Action = Nothing | SetMods(mods: Mods) | Insert(ch: Byte, anywhere: bool) | Erase | Enter | Clear

  const ENTER: Byte := 0x1C
  const CAPS_LOCK: Byte := 0x3A
  const BACKSPACE: Byte := 0x0E
  const L_KEY: Byte := 0x26

  /** Keys that getchar acknowledges and ignores: tab, F1 to F12 (of which F1 to F3 are handled by the kernel), the
      locks, the cursor block, print screen and the prefix. */
  predicate IsDead(scancode: Byte) {
    scancode == 0x00 || scancode == 0x0F || scancode == 0xE0 || scancode == 0x37 || 0x3B <= scancode < 0x4A ||
    scancode == 0x4B || scancode == 0x4D || 0x4F <= scancode < 0x54 || scancode == 0x57 || scancode == 0x58
  }

  function ActionOf(m: Mods, k: Keymap, scancode: Byte): Action
    requires IsKeymap(k)
  {
    if scancode == ENTER then Enter
    else if scancode == CAPS_LOCK then SetMods(m.(caps := !m.caps))
    else if scancode == BACKSPACE then Erase
    else if scancode == 0x2A || scancode == 0x36 then SetMods(m.(shift := true))
    else if scancode == 0xAA || scancode == 0xB6 then SetMods(m.(shift := false))
    else if scancode == 0x1D then SetMods(m.(ctrl := true))
    else if scancode == 0x9D then SetMods(m.(ctrl := false))
    else if scancode == L_KEY then
      if m.ctrl then Clear else Insert(if m.caps != m.shift then UPPER_L else LOWER_L, true)
    else if scancode == 0x38 then SetMods(m.(alt := true))
    else if scancode == 0xB8 then SetMods(m.(alt := false))
    else if IsDead(scancode) || scancode >= 0x80 then Nothing
    else Insert(Translate(m, k, scancode), false)
  }

  function Translate(m: Mods, k: Keymap, scancode: Byte): Byte
    requires IsKeymap(k) && scancode < 128
  {
    if m.shift then (if m.caps then k.both else k.shift)[scancode]
    else (if m.caps then k.caps else k.plain)[scancode]
  }

  function ModsAfter(m: Mods, a: Action): Mods {
    if a.SetMods? then a.mods else m
  }

  /** The modifiers after a session. */
  function ModsAfterKeys(m: Mods, k: Keymap, keys: seq<Byte>): Mods
    requires IsKeymap(k)
    decreases |keys|
  {
    if keys == [] then m else ModsAfterKeys(ModsAfter(m, ActionOf(m, k, keys[0])), k, keys[1..])
  }

  /** The last press or release of one of these keys decides; a release has the code of the press and bit 7. */
  function LastDecides(keys: seq<Byte>, down: set<Byte>, was: bool): bool
    decreases |keys|
  {
    if keys == [] then was else LastDecides(keys[1..], down, Decided(keys[0], down, was))
  }

  function Presses(keys: seq<Byte>, code: Byte): nat
    decreases |keys|
  {
    if keys == [] then 0 else (if keys[0] == code then 1 else 0) + Presses(keys[1..], code)
  }

  function Decided(code: Byte, down: set<Byte>, was: bool): bool {
    if code in down then true else if code >= 0x80 && code - 0x80 in down then false else was
  }

  lemma ModifierStep(m: Mods, k: Keymap, code: Byte)
    requires IsKeymap(k)
    ensures var after := ModsAfter(m, ActionOf(m, k, code));
            && after.shift == Decided(code, {0x2A, 0x36}, m.shift) && after.ctrl == Decided(code, {0x1D}, m.ctrl)
            && after.alt == Decided(code, {0x38}, m.alt) && after.caps == (m.caps != (code == 0x3A))
  {
  }

  /** Over any keys: shift, ctrl and alt are as their last press or release left them, and caps lock has turned
      with every press. */
  lemma {:induction false} ModifiersFollow(m: Mods, k: Keymap, keys: seq<Byte>)
    requires IsKeymap(k)
    ensures ModsAfterKeys(m, k, keys).shift == LastDecides(keys, {0x2A, 0x36}, m.shift)
    ensures ModsAfterKeys(m, k, keys).ctrl == LastDecides(keys, {0x1D}, m.ctrl)
    ensures ModsAfterKeys(m, k, keys).alt == LastDecides(keys, {0x38}, m.alt)
    ensures ModsAfterKeys(m, k, keys).caps == (m.caps != (Presses(keys, 0x3A) % 2 == 1))
    decreases |keys|
  {
    if keys != [] {
      ModifierStep(m, k, keys[0]);
      ModifiersFollow(ModsAfter(m, ActionOf(m, k, keys[0])), k, keys[1..]);
    }
  }

  // ----- What the actions do -----

  predicate Accepts(v: View, anywhere: bool) {
    |v.line| < BUFFER_SIZE && (anywhere || (v.tty.x < WIDTH + 1 && v.tty.y < LAST_ROW + 1))
  }

  /** The character is shown at the cursor and appended to the line. */
  function TypeChar(v: View, ch: Byte, attr: Byte): View {
    var page := Put(v.tty.page, v.tty.y * WIDTH + v.tty.x, Cell(ch, attr));
    var wraps := v.tty.x + 1 == WIDTH && v.tty.y < LAST_ROW;
    View(if wraps then Tty(page, 0, v.tty.y + 1) else Tty(page, v.tty.x + 1, v.tty.y), v.line + [ch])
  }

  /** The last character of the line and its cell are removed; with an empty line nothing happens. */
  function EraseChar(v: View, attr: Byte): View {
    if v.line == [] || (v.tty.x == 0 && v.tty.y == 0) then v
    else
      var (x, y) := if v.tty.x > 0 then (v.tty.x - 1, v.tty.y) else (WIDTH - 1, v.tty.y - 1);
      View(Tty(Put(v.tty.page, y * WIDTH + x, Blank(attr)), x, y), v.line[..|v.line| - 1])
  }

  function ClearPage(page: seq<Cell>): seq<Cell>
    requires |page| == PAGE_CELLS
  {
    seq(CELLS, _ => Blank(ATTRIB)) + page[CELLS..]
  }

  function Act(v: View, a: Action, attr: Byte): (r: View)
    requires IsTty(v.tty)
    ensures IsTty(r.tty)
  {
    match a
    case Insert(ch, anywhere) => if Accepts(v, anywhere) then TypeChar(v, ch, attr) else v
    case Erase => EraseChar(v, attr)
    case Enter => v.(tty := Settle(Tty(v.tty.page, 0, v.tty.y + 1), attr))
    case Clear => View(Tty(ClearPage(v.tty.page), 0, 0), [])
    case _ => v
  }

  /** The cell the action stores into, if any, lies on the display page. */
  predicate ActOnPage(v: View, a: Action) {
    match a
    case Insert(_, anywhere) => Accepts(v, anywhere) ==> Cursor(v.tty) < PAGE_CELLS
    case Erase => v.line != [] ==> Cursor(v.tty) <= PAGE_CELLS
    case _ => true
  }

  /** Backspace also blanks the byte behind the line, which a full buffer does not have. */
  predicate ActInside(v: View, a: Action) {
    ActOnPage(v, a) && (a.Erase? ==> |v.line| < BUFFER_SIZE || Cursor(v.tty) == 0)
  }

  /** `read_Terminal` hands over the line and a newline, however many bytes were asked for. */
  function ReadLine(v: View): (View, seq<Byte>) {
    (v.(line := []), v.line + [NEWLINE])
  }

  /** A caller that reads into `nbytes` bytes is safe whatever has been typed exactly when it offers 129. */
  lemma ReadFitsExactlyWhen(nbytes: int)
    ensures (forall v | IsView(v) :: |ReadLine(v).1| <= nbytes) <==> nbytes > BUFFER_SIZE
  {
    var page := seq(PAGE_CELLS, _ => Blank(ATTRIB));
    var full := View(Tty(page, 0, 0), seq(BUFFER_SIZE, _ => SPACE));
    assert IsView(full) && |ReadLine(full).1| == BUFFER_SIZE + 1;
  }

  // ----- The line as a fold of the keys -----

  /** What one key makes of the line alone, with as many cells as are left on the screen. */
  function EditLine(line: seq<Byte>, room: int, a: Action): seq<Byte> {
    match a
    case Insert(ch, anywhere) =>
      if |line| < BUFFER_SIZE && (anywhere || |line| <= room) then line + [ch] else line
    case Erase => if line == [] then [] else line[..|line| - 1]
    case Clear => []
    case _ => line
  }

  /** The fold for a line that starts at cell `base`. */
  function EditKeys(base: nat, line: seq<Byte>, m: Mods, k: Keymap, keys: seq<Byte>): seq<Byte>
    requires IsKeymap(k)
    decreases |keys|
  {
    if keys == [] then line
    else
      var a := ActionOf(m, k, keys[0]);
      EditKeys(BaseOf(base, a), EditLine(line, CELLS - base, a), ModsAfter(m, a), k, keys[1..])
  }

  /** The fold of an editor that knows no screen. */
  function PlainKeys(line: seq<Byte>, m: Mods, k: Keymap, keys: seq<Byte>): seq<Byte>
    requires IsKeymap(k)
    decreases |keys|
  {
    if keys == [] then line
    else
      var a := ActionOf(m, k, keys[0]);
      PlainKeys(EditLine(line, BUFFER_SIZE, a), ModsAfter(m, a), k, keys[1..])
  }

  /** By the lengths alone: no backspace on a full line, and no L behind the end of the page. */
  predicate KeysFit(base: nat, line: seq<Byte>, m: Mods, k: Keymap, keys: seq<Byte>)
    requires IsKeymap(k)
    decreases |keys|
  {
    keys == [] ||
    var a := ActionOf(m, k, keys[0]);
    && (a.Erase? ==> |line| < BUFFER_SIZE)
    && (a.Insert? && a.anywhere && |line| < BUFFER_SIZE ==> base + |line| < PAGE_CELLS)
    && KeysFit(BaseOf(base, a), EditLine(line, CELLS - base, a), ModsAfter(m, a), k, keys[1..])
  }

  function PressKeys(v: View, m: Mods, k: Keymap, keys: seq<Byte>, attr: Byte): (r: View)
    requires IsKeymap(k) && IsTty(v.tty)
    ensures IsTty(r.tty)
    decreases |keys|
  {
    if keys == [] then v
    else
      var a := ActionOf(m, k, keys[0]);
      PressKeys(Act(v, a, attr), ModsAfter(m, a), k, keys[1..], attr)
  }

  /** Every store of a session falls into the display page and the line buffer. */
  predicate PressInside(v: View, m: Mods, k: Keymap, keys: seq<Byte>, attr: Byte)
    requires IsKeymap(k) && IsTty(v.tty)
    decreases |keys|
  {
    keys == [] ||
    var a := ActionOf(m, k, keys[0]);
    ActInside(v, a) && PressInside(Act(v, a, attr), ModsAfter(m, a), k, keys[1..], attr)
  }

  /** Where the line starts on the screen: the place it had, or the top once the screen is cleared. */
  function BaseOf(base: nat, a: Action): nat {
    if a.Clear? then 0 else base
  }

  function BaseAfter(base: nat, m: Mods, k: Keymap, keys: seq<Byte>): nat
    requires IsKeymap(k)
    decreases |keys|
  {
    if keys == [] then base
    else
      var a := ActionOf(m, k, keys[0]);
      BaseAfter(BaseOf(base, a), ModsAfter(m, a), k, keys[1..])
  }

  /** The cursor stands behind the line, and the cells from `base` to the cursor hold exactly the line. */
  ghost predicate Echoes(v: View, base: nat, attr: Byte) {
    && IsView(v) && InPage(v.tty) && Cursor(v.tty) == base + |v.line|
    && (forall i | 0 <= i < |v.line| :: v.tty.page[base + i] == Cell(v.line[i], attr))
  }

  /** Outside the room for the line the screen is as it was. */
  ghost predicate SameElsewhere(v: View, was: View, base: nat) {
    && |v.tty.page| == |was.tty.page|
    && forall i | 0 <= i < |v.tty.page| && !(base <= i < base + BUFFER_SIZE) :: v.tty.page[i] == was.tty.page[i]
  }

  predicate NeverClears(m: Mods, k: Keymap, keys: seq<Byte>)
    requires IsKeymap(k)
    decreases |keys|
  {
    keys == [] ||
    (!ActionOf(m, k, keys[0]).Clear? && NeverClears(ModsAfter(m, ActionOf(m, k, keys[0])), k, keys[1..]))
  }

  lemma ActEchoes(v: View, a: Action, base: nat, attr: Byte)
    requires Echoes(v, base, attr) && !a.Enter? && ActOnPage(v, a)
    ensures Act(v, a, attr).line == EditLine(v.line, CELLS - base, a)
    ensures Echoes(Act(v, a, attr), BaseOf(base, a), attr)
    ensures !a.Clear? ==> SameElsewhere(Act(v, a, attr), v, base)
  {
  }

  /** Whether a session stays inside the page and the buffer can be told from the lengths alone. */
  lemma {:induction false} InsideExactlyWhenKeysFit(v: View, m: Mods, k: Keymap, keys: seq<Byte>, base: nat, attr: Byte)
    requires IsKeymap(k) && Echoes(v, base, attr) && ENTER !in keys
    ensures PressInside(v, m, k, keys, attr) <==> KeysFit(base, v.line, m, k, keys)
    decreases |keys|
  {
    if keys != [] {
      var a := ActionOf(m, k, keys[0]);
      assert keys[0] in keys && !a.Enter?;
      if ActInside(v, a) {
        ActEchoes(v, a, base, attr);
        InsideExactlyWhenKeysFit(Act(v, a, attr), ModsAfter(m, a), k, keys[1..], BaseOf(base, a), attr);
      }
    }
  }

  /** For any keys but Enter, whatever the modifiers: the line is the append and drop-last fold of the translated
      keys, the screen shows it from its base on, the cursor is right behind it, and nothing else has changed
      unless the screen was cleared. */
  lemma {:induction false} KeysEcho(v: View, m: Mods, k: Keymap, keys: seq<Byte>, base: nat, attr: Byte)
    requires IsKeymap(k) && Echoes(v, base, attr) && ENTER !in keys && PressInside(v, m, k, keys, attr)
    ensures PressKeys(v, m, k, keys, attr).line == EditKeys(base, v.line, m, k, keys)
    ensures Echoes(PressKeys(v, m, k, keys, attr), BaseAfter(base, m, k, keys), attr)
    ensures NeverClears(m, k, keys) ==> SameElsewhere(PressKeys(v, m, k, keys, attr), v, base)
    decreases |keys|
  {
    if keys != [] {
      var a := ActionOf(m, k, keys[0]);
      assert keys[0] in keys && !a.Enter?;
      ActEchoes(v, a, base, attr);
      KeysEcho(Act(v, a, attr), ModsAfter(m, a), k, keys[1..], BaseOf(base, a), attr);
    }
  }

  // ----- What is left behind the cursor -----

  /** The most bytes the line has held at any time. */
  function MostHeld(most: nat, base: nat, line: seq<Byte>, m: Mods, k: Keymap, keys: seq<Byte>): nat
    requires IsKeymap(k)
    decreases |keys|
  {
    if keys == [] then most
    else
      var a := ActionOf(m, k, keys[0]);
      var next := EditLine(line, CELLS - base, a);
      MostHeld(if |next| > most then |next| else most, base, next, ModsAfter(m, a), k, keys[1..])
  }

  /** From the cursor on the page is blank as far as the line has reached, and as it was from there on. */
  ghost predicate BlankBehind(v: View, was: seq<Cell>, base: nat, most: nat, attr: Byte) {
    && |was| == |v.tty.page| == PAGE_CELLS && |v.line| <= most
    && forall i | base + |v.line| <= i < PAGE_CELLS :: v.tty.page[i] == if i < base + most then Blank(attr) else was[i]
  }

  lemma ActBlanks(v: View, a: Action, was: seq<Cell>, base: nat, most: nat, attr: Byte)
    requires Echoes(v, base, attr) && !a.Enter? && !a.Clear? && ActOnPage(v, a) && BlankBehind(v, was, base, most, attr)
    ensures var next := Act(v, a, attr);
            BlankBehind(next, was, base, if |next.line| > most then |next.line| else most, attr)
  {
  }

  lemma {:induction false} PressesBlank(v: View, m: Mods, k: Keymap, keys: seq<Byte>, was: seq<Cell>, base: nat,
                                        most: nat, attr: Byte)
    requires IsKeymap(k) && Echoes(v, base, attr) && ENTER !in keys && PressInside(v, m, k, keys, attr)
    requires NeverClears(m, k, keys) && BlankBehind(v, was, base, most, attr)
    ensures BlankBehind(PressKeys(v, m, k, keys, attr), was, base, MostHeld(most, base, v.line, m, k, keys), attr)
    decreases |keys|
  {
    if keys != [] {
      var a := ActionOf(m, k, keys[0]);
      assert keys[0] in keys && !a.Enter?;
      ActEchoes(v, a, base, attr);
      ActBlanks(v, a, was, base, most, attr);
      var next := Act(v, a, attr);
      var reached := if |next.line| > most then |next.line| else most;
      PressesBlank(next, ModsAfter(m, a), k, keys[1..], was, base, reached, attr);
    }
  }

  /** The whole page after a session that never clears: the line from its base to the cursor, blanks as far as the
      line has reached at any time, and everything else as it was. What is erased does not stay on the screen. */
  lemma SessionPage(v: View, m: Mods, k: Keymap, keys: seq<Byte>, base: nat, attr: Byte)
    requires IsKeymap(k) && Echoes(v, base, attr) && ENTER !in keys && PressInside(v, m, k, keys, attr)
    requires NeverClears(m, k, keys)
    ensures var after, most := PressKeys(v, m, k, keys, attr), MostHeld(|v.line|, base, v.line, m, k, keys);
            && Cursor(after.tty) == base + |after.line| && |after.line| <= most
            && after.line == EditKeys(base, v.line, m, k, keys)
            && forall i | 0 <= i < PAGE_CELLS ::
                 after.tty.page[i] == CellAfter(v.tty.page, base, after.line, most, attr, i)
  {
    KeysEcho(v, m, k, keys, base, attr);
    NoClearKeepsBase(base, m, k, keys);
    PressesBlank(v, m, k, keys, v.tty.page, base, |v.line|, attr);
    var after, most := PressKeys(v, m, k, keys, attr), MostHeld(|v.line|, base, v.line, m, k, keys);
    forall i | 0 <= i < PAGE_CELLS
      ensures after.tty.page[i] == CellAfter(v.tty.page, base, after.line, most, attr, i)
    {
      PageAt(after, v, base, most, attr, i);
    }
  }

  /** A line of which `most` bytes have been shown, on a page that was `was`. */
  function CellAfter(was: seq<Cell>, base: nat, line: seq<Byte>, most: nat, attr: Byte, i: nat): Cell
    requires i < |was|
  {
    if base <= i < base + |line| then Cell(line[i - base], attr)
    else if base <= i < base + most then Cell(SPACE, attr)
    else was[i]
  }

  lemma PageAt(after: View, v: View, base: nat, most: nat, attr: Byte, i: nat)
    requires Echoes(after, base, attr) && SameElsewhere(after, v, base) && i < PAGE_CELLS && |v.tty.page| == PAGE_CELLS
    requires BlankBehind(after, v.tty.page, base, most, attr)
    ensures after.tty.page[i] == CellAfter(v.tty.page, base, after.line, most, attr, i)
  {
    if base <= i < base + |after.line| {
      assert after.tty.page[base + (i - base)] == Cell(after.line[i - base], attr);
    }
  }

  lemma {:induction false} NoClearKeepsBase(base: nat, m: Mods, k: Keymap, keys: seq<Byte>)
    requires IsKeymap(k) && NeverClears(m, k, keys)
    ensures BaseAfter(base, m, k, keys) == base
    decreases |keys|
  {
    if keys != [] {
      NoClearKeepsBase(base, ModsAfter(m, ActionOf(m, k, keys[0])), k, keys[1..]);
    }
  }

  /** In particular cells that are blank at the start and end up behind the cursor are blank at the end. */
  lemma BlankStaysBlank(v: View, m: Mods, k: Keymap, keys: seq<Byte>, base: nat, attr: Byte, i: nat)
    requires IsKeymap(k) && Echoes(v, base, attr) && ENTER !in keys && PressInside(v, m, k, keys, attr)
    requires NeverClears(m, k, keys) && i < PAGE_CELLS && v.tty.page[i] == Blank(attr)
    ensures var after := PressKeys(v, m, k, keys, attr).tty; Cursor(after) <= i ==> after.page[i] == Blank(attr)
  {
    SessionPage(v, m, k, keys, base, attr);
  }

  /** Ctrl with L leaves 25 blank rows, the cursor in the first cell and an empty line, and nothing else changes. */
  lemma ClearBlanks(v: View, attr: Byte)
    requires IsTty(v.tty)
    ensures var after := Act(v, Clear, attr);
            && after.line == [] && after.tty.x == 0 && after.tty.y == 0
            && IsBlank(after.tty) && after.tty.page[CELLS..] == v.tty.page[CELLS..]
  {
  }

  /** Echo equals what is read: after a session on an empty line, wherever on the screen it starts, Enter and a
      read return exactly the fold of the keys, which is what the page showed before Enter, and leave the line
      empty. */
  lemma EchoIsRead(v: View, m: Mods, k: Keymap, keys: seq<Byte>, attr: Byte)
    requires IsKeymap(k) && IsTty(v.tty) && OnScreen(v.tty) && v.line == [] && ENTER !in keys
    requires KeysFit(Cursor(v.tty), [], m, k, keys)
    ensures var typed := PressKeys(v, m, k, keys, attr);
            var (after, text) := ReadLine(Act(typed, Enter, attr));
            var from := BaseAfter(Cursor(v.tty), m, k, keys);
            && text == EditKeys(Cursor(v.tty), [], m, k, keys) + [NEWLINE] && after.line == []
            && |text| <= BUFFER_SIZE + 1 && from + |text| - 1 <= |typed.tty.page|
            && (forall i | 0 <= i < |text| - 1 :: typed.tty.page[from + i] == Cell(text[i], attr))
            && Cursor(typed.tty) == from + |text| - 1
  {
    InsideExactlyWhenKeysFit(v, m, k, keys, Cursor(v.tty), attr);
    KeysEcho(v, m, k, keys, Cursor(v.tty), attr);
  }

  /** The last cell from which a line runs out of buffer no later than out of screen. */
  const LAST_BASE: nat := CELLS - BUFFER_SIZE + 1

  lemma {:induction false} PlainBelow(base: nat, line: seq<Byte>, m: Mods, k: Keymap, keys: seq<Byte>)
    requires IsKeymap(k) && base <= LAST_BASE
    ensures EditKeys(base, line, m, k, keys) == PlainKeys(line, m, k, keys)
    decreases |keys|
  {
    if keys != [] {
      var a := ActionOf(m, k, keys[0]);
      PlainBelow(BaseOf(base, a), EditLine(line, BUFFER_SIZE, a), ModsAfter(m, a), k, keys[1..]);
    }
  }

  const Q_KEY: Byte := 0x10
  const RELEASED := Mods(false, false, false, false)

  lemma QInserts(k: Keymap)
    requires IsKeymap(k)
    ensures ActionOf(RELEASED, k, Q_KEY) == Insert(k.plain[Q_KEY], false)
  {
  }

  /** Typing one ordinary key over and over fills the buffer, or the screen first. */
  lemma {:induction false} TypingFills(base: nat, line: seq<Byte>, k: Keymap, n: nat)
    requires IsKeymap(k) && base < CELLS && |line| <= BUFFER_SIZE && base + |line| <= CELLS + 1
    ensures |EditKeys(base, line, RELEASED, k, seq(n, _ => Q_KEY))| ==
            Min(Min(|line| + n, BUFFER_SIZE), CELLS + 1 - base)
    decreases n
  {
    if n > 0 {
      var keys := seq(n, _ => Q_KEY);
      assert keys[0] == Q_KEY && keys[1..] == seq(n - 1, _ => Q_KEY);
      QInserts(k);
      TypingFills(base, EditLine(line, CELLS - base, Insert(k.plain[Q_KEY], false)), k, n - 1);
    }
  }

  /** An editor without a screen reads every session the same exactly when the line starts at least 127 cells
      before the end of the screen: from there on an ordinary key is refused while the buffer has room. */
  lemma FoldIsPlainExactlyWhen(k: Keymap, base: nat)
    requires IsKeymap(k) && base < CELLS
    ensures (forall m, keys | ENTER !in keys ::
               EditKeys(base, [], m, k, keys) == PlainKeys([], m, k, keys)) <==> base <= LAST_BASE
  {
    if base <= LAST_BASE {
      forall m, keys | ENTER !in keys ensures EditKeys(base, [], m, k, keys) == PlainKeys([], m, k, keys) {
        PlainBelow(base, [], m, k, keys);
      }
    } else {
      var keys := seq(BUFFER_SIZE, _ => Q_KEY);
      TypingFills(base, [], k, BUFFER_SIZE);
      TypingFills(0, [], k, BUFFER_SIZE);
      PlainBelow(0, [], RELEASED, k, keys);
      assert EditKeys(base, [], RELEASED, k, keys) != PlainKeys([], RELEASED, k, keys) && ENTER !in keys;
    }
  }

  // ----- Typing against output -----

  /** An echoed character moves the screen as an output byte would, except in the last cell: there the editor
      neither wraps nor scrolls. Enter is always a newline. */
  lemma EchoIsOutputExactlyWhen(v: View, ch: Byte, attr: Byte)
    requires IsView(v) && OnScreen(v.tty) && ch != NEWLINE
    ensures TypeChar(v, ch, attr).tty == WriteByte(v.tty, ch, attr) <==> !(v.tty.x == WIDTH - 1 && v.tty.y == LAST_ROW)
    ensures Act(v, Enter, attr).tty == WriteByte(v.tty, NEWLINE, attr)
  {
  }
}
