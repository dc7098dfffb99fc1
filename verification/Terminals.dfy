/** Three terminals on one display: the physical screen, cursor, line buffer and save areas of
    student-distrib/multiprocess.c and keyboard.c, and the three private terminals they stand for. */
module Terminals {
  import opened Bytes
  import opened Screen
  import opened LineEditor

  const TERMINALS: nat := 3

  /** The part of `three_term_buf[t]` that holds a terminal in the background. */
  datatype Save = Save(page: seq<Cell>, x: nat, y: nat, buffer: seq<Byte>, size: nat)

  /** What there is one of: the display memory, the cursor, the line buffer with the byte behind it, the
      modifier keys, the flag set by Enter and the number of the terminal in front. */
  datatype Console = Console(tty: Tty, buffer: seq<Byte>, size: nat, mods: Mods, entered: bool,
                             front: nat, saves: seq<Save>)

  predicate IsSave(s: Save) {
    |s.page| == PAGE_CELLS && |s.buffer| == BUFFER_SIZE && s.size <= BUFFER_SIZE
  }

  predicate IsConsole(c: Console) {
    && IsTty(c.tty) && |c.buffer| == BUFFER_SIZE + 1 && c.size <= BUFFER_SIZE
    && c.front < TERMINALS && |c.saves| == TERMINALS
    && forall t | 0 <= t < TERMINALS :: IsSave(c.saves[t])
  }

  /** `WriteCharacter` colours the text by the terminal in front: forecolour 18 + front, low four bits. */
  function Colour(front: nat): Byte
    requires front < TERMINALS
  {
    (18 + front) % 16
  }

  datatype Step = Press(scancode: Byte) | Output(text: seq<Byte>) | Line | Restart | SwitchTo(t: nat)

  // ----- The physical machine -----

  /** A key, on the buffer and its size. Backspace blanks the byte after the line before it shortens it. */
  function PressOn(c: Console, a: Action): (r: Console)
    requires IsConsole(c)
    ensures IsConsole(r)
  {
    var colour := Colour(c.front);
    match a
    case SetMods(m) => c.(mods := m)
    case Insert(ch, anywhere) =>
      if c.size < BUFFER_SIZE && (anywhere || (c.tty.x < WIDTH + 1 && c.tty.y < LAST_ROW + 1))
      then c.(tty := TypeChar(View(c.tty, []), ch, colour).tty, buffer := c.buffer[c.size := ch], size := c.size + 1)
      else c
    case Erase =>
      if c.size == 0 || (c.tty.x == 0 && c.tty.y == 0) then c
      else
        var erased := EraseChar(View(c.tty, [SPACE]), colour).tty;
        c.(tty := erased, buffer := c.buffer[c.size := SPACE], size := c.size - 1)
    case Enter => c.(tty := Settle(Tty(c.tty.page, 0, c.tty.y + 1), colour), entered := true)
    case Clear => c.(tty := Tty(ClearPage(c.tty.page), 0, 0), size := 0)
    case Nothing => c
  }

  /** `read_Terminal` zeroes the bytes it hands over. */
  function TakeLine(c: Console): (r: Console)
    requires IsConsole(c)
    ensures IsConsole(r)
  {
    c.(buffer := seq(c.size, _ => NUL) + c.buffer[c.size..], size := 0, entered := false)
  }

  function SaveFront(c: Console): Save
    requires IsConsole(c)
  {
    Save(c.tty.page, c.tty.x, c.tty.y, c.buffer[..c.size] + c.saves[c.front].buffer[c.size..], c.size)
  }

  /** `switch_terminal`, the screen part: only the bytes of the line are saved, the whole buffer is restored. */
  function SwitchConsole(c: Console, t: nat): (r: Console)
    requires IsConsole(c) && t < TERMINALS
    ensures IsConsole(r)
  {
    var saves := c.saves[c.front := SaveFront(c)];
    var s := saves[t];
    Console(Tty(s.page, s.x, s.y), s.buffer + c.buffer[BUFFER_SIZE..], s.size, c.mods, c.entered, t, saves)
  }

  function NextConsole(c: Console, k: Keymap, step: Step): (r: Console)
    requires IsConsole(c) && IsKeymap(k)
    ensures IsConsole(r)
  {
    match step
    case Press(scancode) => PressOn(c, ActionOf(c.mods, k, scancode))
    case Output(text) => c.(tty := Write(c.tty, text, Colour(c.front)))
    case Line => TakeLine(c)
    case Restart => c.(tty := Tty(ClearPage(c.tty.page), 0, 0))  // before a root shell is launched again
    case SwitchTo(t) => if t < TERMINALS && t != c.front then SwitchConsole(c, t) else c
  }

  // ----- Three private terminals -----

  datatype Three = Three(views: seq<View>, mods: Mods, front: nat)

  /** What a step other than a switch does to the terminal in front. */
  function NextView(v: View, m: Mods, k: Keymap, step: Step, colour: Byte): View
    requires IsTty(v.tty) && IsKeymap(k)
  {
    match step
    case Press(scancode) => Act(v, ActionOf(m, k, scancode), colour)
    case Output(text) => v.(tty := Write(v.tty, text, colour))
    case Line => ReadLine(v).0
    case Restart => v.(tty := Tty(ClearPage(v.tty.page), 0, 0))
    case SwitchTo(_) => v
  }

  function NextMods(m: Mods, k: Keymap, step: Step): Mods
    requires IsKeymap(k)
  {
    if step.Press? then ModsAfter(m, ActionOf(m, k, step.scancode)) else m
  }

  function FrontAfter(front: nat, step: Step): nat {
    if step.SwitchTo? && step.t < TERMINALS then step.t else front
  }

  function NextThree(p: Three, k: Keymap, step: Step): Three
    requires |p.views| == TERMINALS && p.front < TERMINALS && IsTty(p.views[p.front].tty) && IsKeymap(k)
  {
    var views := p.views[p.front := NextView(p.views[p.front], p.mods, k, step, Colour(p.front))];
    Three(views, NextMods(p.mods, k, step), FrontAfter(p.front, step))
  }

  /** The terminal that a console state stands for: the physical one in front, the saved one otherwise. */
  function ViewOf(c: Console, t: nat): View
    requires IsConsole(c) && t < TERMINALS
  {
    if t == c.front then View(c.tty, c.buffer[..c.size])
    else View(Tty(c.saves[t].page, c.saves[t].x, c.saves[t].y), c.saves[t].buffer[..c.saves[t].size])
  }

  function Private(c: Console): Three
    requires IsConsole(c)
  {
    Three([ViewOf(c, 0), ViewOf(c, 1), ViewOf(c, 2)], c.mods, c.front)
  }

  // ----- Refinement -----

  lemma PressRefines(c: Console, a: Action)
    requires IsConsole(c)
    ensures ViewOf(PressOn(c, a), c.front) == Act(ViewOf(c, c.front), a, Colour(c.front))
    ensures PressOn(c, a).saves == c.saves && PressOn(c, a).front == c.front
    ensures PressOn(c, a).mods == ModsAfter(c.mods, a)
  {
    var line := c.buffer[..c.size];
    match a
    case Insert(ch, _) =>
      if c.size < BUFFER_SIZE {
        assert c.buffer[c.size := ch][..c.size + 1] == line + [ch];
      }
    case Erase =>
      if c.size > 0 {
        assert c.buffer[c.size := SPACE][..c.size - 1] == line[..c.size - 1];
      }
    case _ =>
  }

  /** A switch changes no terminal, only which one is in front. */
  lemma SwitchKeepsViews(c: Console, t: nat, u: nat)
    requires IsConsole(c) && t < TERMINALS && t != c.front && u < TERMINALS
    ensures ViewOf(SwitchConsole(c, t), u) == ViewOf(c, u)
  {
    var s := SaveFront(c);
    assert s.buffer[..c.size] == c.buffer[..c.size];
    assert (c.saves[t].buffer + c.buffer[BUFFER_SIZE..])[..c.saves[t].size] == c.saves[t].buffer[..c.saves[t].size];
  }

  /** The stores of a step fall into the display page and the line buffer. */
  predicate ViewInside(v: View, m: Mods, k: Keymap, step: Step, colour: Byte)
    requires IsTty(v.tty) && IsKeymap(k)
  {
    match step
    case Press(scancode) => ActInside(v, ActionOf(m, k, scancode))
    case Output(text) => WriteInside(v.tty, text, colour)
    case _ => true
  }

  predicate StepInside(c: Console, k: Keymap, step: Step)
    requires IsConsole(c) && IsKeymap(k)
  {
    ViewInside(ViewOf(c, c.front), c.mods, k, step, Colour(c.front))
  }

  /** Keys, output and reads touch only the terminal in front. */
  lemma StepRefines(c: Console, k: Keymap, step: Step)
    requires IsConsole(c) && IsKeymap(k) && StepInside(c, k, step)
    ensures Private(NextConsole(c, k, step)) == NextThree(Private(c), k, step)
  {
    match step
    case Press(scancode) => PressRefines(c, ActionOf(c.mods, k, scancode));
    case SwitchTo(t) =>
      if t < TERMINALS && t != c.front {
        SwitchKeepsViews(c, t, 0);
        SwitchKeepsViews(c, t, 1);
        SwitchKeepsViews(c, t, 2);
      }
    case _ =>
  }

  /** The same, told from the key or the text, the length of the line and the cursor. */
  predicate StepFits(v: View, m: Mods, k: Keymap, step: Step)
    requires IsKeymap(k)
  {
    match step
    case Press(scancode) =>
      var a := ActionOf(m, k, scancode);
      && (a.Erase? && |v.line| == BUFFER_SIZE ==> Cursor(v.tty) == 0)
      && (a.Insert? && a.anywhere ==> |v.line| == BUFFER_SIZE || Cursor(v.tty) < PAGE_CELLS)
    case Output(text) => OnScreen(v.tty) || LineLength(text) == 0 || Cursor(v.tty) + LineLength(text) <= PAGE_CELLS
    case _ => true
  }

  /** A step stays inside exactly when it fits, and then leaves the cursor where the next one can be judged
      in the same way. Only a backspace on a full line and, behind the last cell of the screen, an L or
      unbroken output do not fit. */
  lemma InsideExactlyWhenFits(v: View, m: Mods, k: Keymap, step: Step, colour: Byte)
    requires IsView(v) && InPage(v.tty) && IsKeymap(k)
    ensures ViewInside(v, m, k, step, colour) <==> StepFits(v, m, k, step)
    ensures ViewInside(v, m, k, step, colour) ==>
              IsView(NextView(v, m, k, step, colour)) && InPage(NextView(v, m, k, step, colour).tty)
  {
    if step.Output? {
      WriteInsideExactlyWhen(v.tty, step.text, colour);
      if WriteInside(v.tty, step.text, colour) {
        InsideKeepsInPage(v.tty, step.text, colour);
      }
    }
  }

  function RunConsole(c: Console, k: Keymap, steps: seq<Step>): (r: Console)
    requires IsConsole(c) && IsKeymap(k)
    ensures IsConsole(r)
    decreases |steps|
  {
    if steps == [] then c else RunConsole(NextConsole(c, k, steps[0]), k, steps[1..])
  }

  /** What one private terminal makes of a run: it takes part in a step only while it is in front. */
  function RunView(v: View, t: nat, m: Mods, front: nat, k: Keymap, steps: seq<Step>): (r: View)
    requires IsTty(v.tty) && IsKeymap(k) && t < TERMINALS && front < TERMINALS
    ensures IsTty(r.tty)
    decreases |steps|
  {
    if steps == [] then v
    else
      RunView(if t == front then NextView(v, m, k, steps[0], Colour(t)) else v, t, NextMods(m, k, steps[0]),
              FrontAfter(front, steps[0]), k, steps[1..])
  }

  /** Every store of a run of the console falls into the display page and the line buffer. */
  predicate RunInside(c: Console, k: Keymap, steps: seq<Step>)
    requires IsConsole(c) && IsKeymap(k)
    decreases |steps|
  {
    steps == [] || (StepInside(c, k, steps[0]) && RunInside(NextConsole(c, k, steps[0]), k, steps[1..]))
  }

  /** Every step that one private terminal takes part in fits. */
  predicate RunFits(v: View, t: nat, m: Mods, front: nat, k: Keymap, steps: seq<Step>)
    requires IsTty(v.tty) && IsKeymap(k) && t < TERMINALS && front < TERMINALS
    decreases |steps|
  {
    steps == [] ||
    (&& (t == front ==> StepFits(v, m, k, steps[0]))
     && RunFits(if t == front then NextView(v, m, k, steps[0], Colour(t)) else v, t, NextMods(m, k, steps[0]),
                FrontAfter(front, steps[0]), k, steps[1..]))
  }

  /** Over any interleaving of keys, output, reads, restarts and switches each terminal is what it would be
      alone, with a screen, a cursor and a line of its own. */
  lemma {:induction false} ThreePrivateTerminals(c: Console, k: Keymap, steps: seq<Step>, t: nat)
    requires IsConsole(c) && IsKeymap(k) && t < TERMINALS && RunInside(c, k, steps)
    ensures ViewOf(RunConsole(c, k, steps), t) == RunView(ViewOf(c, t), t, c.mods, c.front, k, steps)
    decreases |steps|
  {
    if steps != [] {
      var next := NextConsole(c, k, steps[0]);
      StepRefines(c, k, steps[0]);
      assert Private(next).views[t] == ViewOf(next, t) && Private(c).views[t] == ViewOf(c, t);
      ThreePrivateTerminals(next, k, steps[1..], t);
    }
  }

  /** Every terminal's cursor is where runs can leave it. */
  ghost predicate AllInPage(c: Console)
    requires IsConsole(c)
  {
    forall t | 0 <= t < TERMINALS :: InPage(ViewOf(c, t).tty)
  }

  ghost predicate AllFit(c: Console, k: Keymap, steps: seq<Step>)
    requires IsConsole(c) && IsKeymap(k)
  {
    forall t | 0 <= t < TERMINALS :: RunFits(ViewOf(c, t), t, c.mods, c.front, k, steps)
  }

  /** A step that stays inside takes every terminal where it goes alone. */
  lemma FitsStep(c: Console, k: Keymap, steps: seq<Step>, t: nat)
    requires IsConsole(c) && IsKeymap(k) && t < TERMINALS && InPage(ViewOf(c, t).tty)
    requires steps != [] && StepInside(c, k, steps[0])
    requires StepFits(ViewOf(c, c.front), c.mods, k, steps[0])
    requires InPage(NextView(ViewOf(c, c.front), c.mods, k, steps[0], Colour(c.front)).tty)
    ensures var next := NextConsole(c, k, steps[0]);
            && InPage(ViewOf(next, t).tty)
            && (RunFits(ViewOf(c, t), t, c.mods, c.front, k, steps) <==>
                RunFits(ViewOf(next, t), t, next.mods, next.front, k, steps[1..]))
  {
    var next := NextConsole(c, k, steps[0]);
    StepRefines(c, k, steps[0]);
    assert Private(next).views[t] == ViewOf(next, t) && Private(c).views[t] == ViewOf(c, t);
  }

  /** A run of the shared console stays inside the page and the buffer exactly when each of the three terminals
      would alone, and then all cursors end where the next run can be judged in the same way. */
  lemma {:induction false} RunInsideExactlyWhen(c: Console, k: Keymap, steps: seq<Step>)
    requires IsConsole(c) && IsKeymap(k) && AllInPage(c)
    ensures RunInside(c, k, steps) <==> AllFit(c, k, steps)
    ensures RunInside(c, k, steps) ==> AllInPage(RunConsole(c, k, steps))
    decreases |steps|
  {
    if steps != [] {
      var step, next := steps[0], NextConsole(c, k, steps[0]);
      InsideExactlyWhenFits(ViewOf(c, c.front), c.mods, k, step, Colour(c.front));
      if StepInside(c, k, step) {
        forall t | 0 <= t < TERMINALS
          ensures InPage(ViewOf(next, t).tty)
          ensures RunFits(ViewOf(c, t), t, c.mods, c.front, k, steps) <==>
                  RunFits(ViewOf(next, t), t, next.mods, next.front, k, steps[1..])
        {
          FitsStep(c, k, steps, t);
        }
        RunInsideExactlyWhen(next, k, steps[1..]);
      } else {
        assert !RunFits(ViewOf(c, c.front), c.front, c.mods, c.front, k, steps);
      }
    }
  }

  // ----- Enter and the reads that wait for it -----

  /** Whether a read would wait: an Enter since the last line that was taken, on whichever terminal. */
  function Ready(was: bool, steps: seq<Step>): bool
    decreases |steps|
  {
    if steps == [] then was
    else Ready(if steps[0] == Press(ENTER) then true else if steps[0] == Line then false else was, steps[1..])
  }

  function Count(steps: seq<Step>, step: Step): nat
    decreases |steps|
  {
    if steps == [] then 0 else (if steps[0] == step then 1 else 0) + Count(steps[1..], step)
  }

  /** Every line is taken only after the wait. */
  predicate LinesWait(c: Console, k: Keymap, steps: seq<Step>)
    requires IsConsole(c) && IsKeymap(k)
    decreases |steps|
  {
    steps == [] ||
    ((steps[0].Line? ==> c.entered) && LinesWait(NextConsole(c, k, steps[0]), k, steps[1..]))
  }

  /** Over any run the flag follows the Enters and the lines taken, and no more lines are taken than Enters pressed,
      but for one if the flag was set at the start. */
  lemma {:induction false} EnteredFollows(c: Console, k: Keymap, steps: seq<Step>)
    requires IsConsole(c) && IsKeymap(k)
    ensures RunConsole(c, k, steps).entered == Ready(c.entered, steps)
    ensures LinesWait(c, k, steps) ==>
              Count(steps, Line) + (if RunConsole(c, k, steps).entered then 1 else 0)
              <= Count(steps, Press(ENTER)) + if c.entered then 1 else 0
    decreases |steps|
  {
    if steps != [] {
      EnterSets(c, k, steps[0]);
      EnteredFollows(NextConsole(c, k, steps[0]), k, steps[1..]);
    }
  }

  lemma EnterSets(c: Console, k: Keymap, step: Step)
    requires IsConsole(c) && IsKeymap(k)
    ensures NextConsole(c, k, step).entered ==
            if step == Press(ENTER) then true else if step == Line then false else c.entered
  {
    if step.Press? {
      assert step != Press(ENTER) ==> !ActionOf(c.mods, k, step.scancode).Enter?;
    }
  }

  /** A line that has been taken is gone: its bytes are zero, and the terminal in front has none. */
  lemma TakenIsGone(c: Console, i: nat)
    requires IsConsole(c) && i < BUFFER_SIZE
    ensures ViewOf(TakeLine(c), c.front) == View(c.tty, [])
    ensures TakeLine(c).buffer[i] == if i < c.size then NUL else c.buffer[i]
  {
  }

  /** A restart leaves 25 blank rows and the cursor in the first cell; what was typed stays in the line. */
  lemma RestartBlanks(c: Console, k: Keymap)
    requires IsConsole(c) && IsKeymap(k)
    ensures var was, after := ViewOf(c, c.front), ViewOf(NextConsole(c, k, Restart), c.front);
            && after.line == was.line && Cursor(after.tty) == 0
            && IsBlank(after.tty) && after.tty.page[CELLS..] == was.tty.page[CELLS..]
  {
  }

  /** Text shows in the colour of the terminal in front: green, cyan, red, and each terminal has its own. */
  lemma ColoursDiffer(t: nat, u: nat)
    requires t < TERMINALS && u < TERMINALS
    ensures Colour(t) == 2 + t && (Colour(t) == Colour(u) <==> t == u)
  {
  }

  /** Backspace stays inside the 128 bytes of the buffer exactly when fewer than 128 are held: with a full
      buffer, unless the cursor is at the origin, it blanks the byte behind it. */
  lemma BackspaceStaysInsideExactlyWhen(c: Console)
    requires IsConsole(c) && c.buffer[BUFFER_SIZE] != SPACE && !(c.tty.x == 0 && c.tty.y == 0)
    ensures PressOn(c, Erase).buffer[BUFFER_SIZE] == c.buffer[BUFFER_SIZE] <==> c.size < BUFFER_SIZE
  {
  }
}
