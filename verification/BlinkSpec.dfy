/** What the blink list means: a sequence of blinking elements, most recently added first. */
module BlinkSpec {
  const POOL_SIZE: nat := 2000  // 80 * 25
  type Half = h: int | 0 <= h < 0x1_0000

  /** How an element blinks: its two period lengths, what is left of the current one, and which it is in. */
  datatype Timing = Timing(onLength: Half, offLength: Half, countdown: Half, on: bool)

  /** An element, and the pool slot it occupies. */
  datatype Entry = Entry(slot: nat, location: Half, onChar: char, offChar: char, timing: Timing)

  datatype Op =
    | Add(location: Half, onChar: char, offChar: char, onLength: Half, offLength: Half)
    | Remove(location: Half)
    | Sync(source: Half, target: Half)
    | Tick

  // ----- One operation -----

  function Slots(list: seq<Entry>): set<nat> {
    set e | e in list :: e.slot
  }

  /** The slots that `mp1_malloc` takes for used: those of the elements at a location other than 0. */
  function Held(list: seq<Entry>): set<nat> {
    set e | e in list && e.location != 0 :: e.slot
  }

  /** The lowest unused slot, or POOL_SIZE when there is none. */
  function LowestFree(used: set<nat>, from: nat): (i: nat)
    requires from <= POOL_SIZE
    ensures from <= i <= POOL_SIZE && (i < POOL_SIZE ==> i !in used)
    ensures forall j | from <= j < i :: j in used
    decreases POOL_SIZE - from
  {
    if from == POOL_SIZE || from !in used then from else LowestFree(used, from + 1)
  }

  /** Index of the first element at `location`, or the length of the list. */
  function FirstAt(list: seq<Entry>, location: Half): (k: nat)
    ensures k <= |list| && (k < |list| ==> list[k].location == location)
    ensures forall j | 0 <= j < k :: list[j].location != location
  {
    if list == [] || list[0].location == location then 0 else 1 + FirstAt(list[1..], location)
  }

  /** The slot `mp1_malloc` hands out, or POOL_SIZE. */
  function Malloced(list: seq<Entry>): (i: nat)
    ensures i <= POOL_SIZE
  {
    LowestFree(Held(list), 0)
  }

  predicate AddSucceeds(list: seq<Entry>, location: Half) {
    location < POOL_SIZE && Malloced(list) < POOL_SIZE
  }

  /** The countdown after `decw`; the period ends unless it is above zero as a signed number. */
  function Less(t: Timing): Half {
    (t.countdown + 0xFFFF) % 0x1_0000
  }

  predicate Toggles(t: Timing) {
    !(0 < Less(t) < 0x8000)
  }

  function TickTiming(t: Timing): Timing {
    if Toggles(t) then t.(countdown := if t.on then t.offLength else t.onLength, on := !t.on)
    else t.(countdown := Less(t))
  }

  function Step(list: seq<Entry>, op: Op): seq<Entry> {
    match op
    case Add(location, onChar, offChar, a, b) =>
      if AddSucceeds(list, location)
      then [Entry(Malloced(list), location, onChar, offChar, Timing(a, b, a, true))] + list
      else list
    case Remove(location) =>
      var k := FirstAt(list, location);
      if k < |list| then list[..k] + list[k + 1..] else list
    case Sync(source, target) =>
      var i, k := FirstAt(list, source), FirstAt(list, target);
      if i < |list| && k < |list| then list[k := list[k].(timing := list[i].timing)] else list
    case Tick =>
      seq(|list|, k requires 0 <= k < |list| => list[k].(timing := TickTiming(list[k].timing)))
  }

  function Run(list: seq<Entry>, ops: seq<Op>): seq<Entry>
    decreases |ops|
  {
    if ops == [] then list else Run(Step(list, ops[0]), ops[1..])
  }

  function Ticks(ops: seq<Op>): nat {
    if ops == [] then 0 else (if ops[0].Tick? then 1 else 0) + Ticks(ops[1..])
  }

  /** The add is handed a slot that an element still on the list occupies. */
  predicate Collides(list: seq<Entry>, op: Op) {
    op.Add? && AddSucceeds(list, op.location) && Malloced(list) in Slots(list)
  }

  predicate NoneCollides(list: seq<Entry>, ops: seq<Op>)
    decreases |ops|
  {
    ops == [] || (!Collides(list, ops[0]) && NoneCollides(Step(list, ops[0]), ops[1..]))
  }

  /** An add can only be handed the slot of an element at location 0; without one none collides. */
  lemma OnlyZeroCollides(list: seq<Entry>, op: Op)
    requires Collides(list, op)
    ensures exists k :: 0 <= k < |list| && list[k].location == 0 && list[k].slot == Malloced(list)
  {
    var e :| e in list && e.slot == Malloced(list);
    var k :| 0 <= k < |list| && list[k] == e;
    assert e.location != 0 ==> e.slot in Held(list);
  }

  lemma {:induction false} RunAppend(list: seq<Entry>, a: seq<Op>, b: seq<Op>)
    ensures Run(list, a + b) == Run(Run(list, a), b)
    ensures NoneCollides(list, a + b) <==> NoneCollides(list, a) && NoneCollides(Run(list, a), b)
    decreases |a|
  {
    if a == [] {
      assert a + b == b;
    } else {
      assert (a + b)[0] == a[0] && (a + b)[1..] == a[1..] + b;
      RunAppend(Step(list, a[0]), a[1..], b);
    }
  }

  lemma RunExtends(list: seq<Entry>, ops: seq<Op>, n: nat)
    requires n < |ops|
    ensures Run(list, ops[..n + 1]) == Step(Run(list, ops[..n]), ops[n])
    ensures NoneCollides(list, ops[..n + 1]) <==>
            NoneCollides(list, ops[..n]) && !Collides(Run(list, ops[..n]), ops[n])
  {
    assert ops[..n + 1] == ops[..n] + [ops[n]];
    RunAppend(list, ops[..n], [ops[n]]);
    assert Run(Run(list, ops[..n]), [ops[n]]) == Run(Step(Run(list, ops[..n]), ops[n]), []);
    assert NoneCollides(Run(list, ops[..n]), [ops[n]]) <==> !Collides(Run(list, ops[..n]), ops[n]);
  }

  lemma PrefixCollidesNot(list: seq<Entry>, ops: seq<Op>, n: nat)
    requires n <= |ops| && NoneCollides(list, ops)
    ensures NoneCollides(list, ops[..n])
  {
    assert ops == ops[..n] + ops[n..];
    RunAppend(list, ops[..n], ops[n..]);
  }

  /** A run in which some add collides begins with one in which only the last call does. */
  lemma {:induction false} RunSplits(list: seq<Entry>, ops: seq<Op>) returns (n: nat)
    requires !NoneCollides(list, ops)
    ensures n < |ops| && NoneCollides(list, ops[..n]) && !NoneCollides(list, ops[..n + 1])
    decreases |ops|
  {
    var last := |ops| - 1;
    if NoneCollides(list, ops[..last]) {
      n := last;
      assert ops[..last + 1] == ops;
    } else {
      n := RunSplits(list, ops[..last]);
      assert ops[..last][..n] == ops[..n] && ops[..last][..n + 1] == ops[..n + 1];
    }
  }

  // ----- Following one element through a run -----

  ghost predicate Distinct(list: seq<Entry>) {
    forall i, j | 0 <= i < j < |list| :: list[i].slot != list[j].slot
  }

  /** The operation neither removes the element in `slot` nor synchronises it to another. */
  ghost predicate Spares(list: seq<Entry>, op: Op, slot: nat) {
    match op
    case Remove(location) => var k := FirstAt(list, location); k < |list| ==> list[k].slot != slot
    case Sync(_, target) => var k := FirstAt(list, target); k < |list| ==> list[k].slot != slot
    case _ => true
  }

  ghost predicate SparesAll(list: seq<Entry>, ops: seq<Op>, slot: nat)
    decreases |ops|
  {
    ops == [] || (Spares(list, ops[0], slot) && SparesAll(Step(list, ops[0]), ops[1..], slot))
  }

  /** No operation but a colliding add lets two elements share a slot. */
  lemma StepKeepsDistinct(list: seq<Entry>, op: Op)
    requires Distinct(list) && !Collides(list, op)
    ensures Distinct(Step(list, op))
  {
    if op.Add? && AddSucceeds(list, op.location) {
      forall j | 0 <= j < |list| ensures list[j].slot != Malloced(list) {
        assert list[j] in list;
      }
    }
  }

  /** Where an element is after an operation that spares it. */
  function Moved(list: seq<Entry>, op: Op, k: nat): int
    requires k < |list|
  {
    match op
    case Add(location, _, _, _, _) => if AddSucceeds(list, location) then k + 1 else k
    case Remove(location) => if FirstAt(list, location) < k then k - 1 else k
    case _ => k
  }

  function Ticked(e: Entry, op: Op): Entry {
    if op.Tick? then e.(timing := TickTiming(e.timing)) else e
  }

  lemma MovedIs(list: seq<Entry>, op: Op, k: nat)
    requires k < |list| && Spares(list, op, list[k].slot)
    ensures 0 <= Moved(list, op, k) < |Step(list, op)|
    ensures Step(list, op)[Moved(list, op, k)] == Ticked(list[k], op)
  {
    match op
    case Remove(location) => assert FirstAt(list, location) != k;
    case Sync(_, target) => assert FirstAt(list, target) != k;
    case _ =>
  }

  function TickMany(t: Timing, n: nat): Timing
    decreases n
  {
    if n == 0 then t else TickMany(TickTiming(t), n - 1)
  }

  /** A spared element only changes when time passes. */
  lemma StepSpares(list: seq<Entry>, op: Op, e: Entry)
    requires e in list && Spares(list, op, e.slot)
    ensures Ticked(e, op) in Step(list, op)
  {
    var k :| 0 <= k < |list| && list[k] == e;
    MovedIs(list, op, k);
    assert Step(list, op)[Moved(list, op, k)] == Ticked(e, op);
  }

  lemma {:induction false} RunKeepsDistinct(list: seq<Entry>, ops: seq<Op>)
    requires Distinct(list) && NoneCollides(list, ops)
    ensures Distinct(Run(list, ops))
    decreases |ops|
  {
    if ops != [] {
      StepKeepsDistinct(list, ops[0]);
      RunKeepsDistinct(Step(list, ops[0]), ops[1..]);
    }
  }

  /** The element after the ticks of a run. */
  function Aged(e: Entry, ops: seq<Op>): Entry {
    e.(timing := TickMany(e.timing, Ticks(ops)))
  }

  lemma AgedStep(e: Entry, ops: seq<Op>)
    requires ops != []
    ensures Aged(e, ops) == Aged(Ticked(e, ops[0]), ops[1..])
  {
  }

  /** Whatever is added, removed or synchronised around it, an element only feels the ticks. */
  lemma {:induction false} RunSpares(list: seq<Entry>, ops: seq<Op>, e: Entry)
    requires e in list && SparesAll(list, ops, e.slot)
    ensures Aged(e, ops) in Run(list, ops)
    decreases |ops|
  {
    if ops != [] {
      StepSpares(list, ops[0], e);
      AgedStep(e, ops);
      RunSpares(Step(list, ops[0]), ops[1..], Ticked(e, ops[0]));
    }
  }

  // ----- The closed form -----

  /** How many ticks a period of length `n` really lasts: the signed test ends 0 and everything
      above 0x8000 at the first tick. */
  function Lasts(n: Half): (ticks: nat)
    ensures ticks >= 1
  {
    if n == 0 || n > 0x8000 then 1 else n
  }

  /** Position in the cycle: `m` ticks after the start of the on period. */
  ghost predicate AtPhase(t: Timing, a: Half, b: Half, m: nat) {
    && t.onLength == a && t.offLength == b
    && m < Lasts(a) + Lasts(b)
    && t.on == (m < Lasts(a))
    && Lasts(t.countdown) == if m < Lasts(a) then Lasts(a) - m else Lasts(a) + Lasts(b) - m
  }

  function NextPhase(m: nat, period: nat): nat {
    if m + 1 == period then 0 else m + 1
  }

  lemma TickAdvances(t: Timing, a: Half, b: Half, m: nat)
    requires AtPhase(t, a, b, m)
    ensures AtPhase(TickTiming(t), a, b, NextPhase(m, Lasts(a) + Lasts(b)))
  {
    var c := (t.countdown + 0xFFFF) % 0x1_0000;
    assert c == if t.countdown == 0 then 0xFFFF else t.countdown - 1;
    assert Lasts(t.countdown) > 1 <==> 0 < c < 0x8000;
  }

  lemma ModSuccessor(n: nat, period: nat)
    requires period > 0
    ensures (n + 1) % period == NextPhase(n % period, period)
  {
    var q, r := n / period, n % period;
    assert n == q * period + r;
    if r + 1 == period {
      assert n + 1 == (q + 1) * period;
      MultipleMod(q + 1, period, 0);
    } else {
      MultipleMod(q, period, r + 1);
    }
  }

  lemma MultipleMod(q: nat, period: nat, r: nat)
    requires r < period
    ensures (q * period + r) % period == r
  {
    var x := q * period + r;
    var d := x / period - q;
    assert d * period == r - x % period;
    assert d > 0 ==> d * period >= period;
    assert d < 0 ==> d * period <= -1 * period;
  }

  lemma {:induction false} TickManyAdvances(t: Timing, a: Half, b: Half, n: nat, k: nat)
    requires AtPhase(t, a, b, n % (Lasts(a) + Lasts(b)))
    ensures AtPhase(TickMany(t, k), a, b, (n + k) % (Lasts(a) + Lasts(b)))
    decreases k
  {
    if k > 0 {
      TickAdvances(t, a, b, n % (Lasts(a) + Lasts(b)));
      ModSuccessor(n, Lasts(a) + Lasts(b));
      TickManyAdvances(TickTiming(t), a, b, n + 1, k - 1);
    }
  }

  /** The state of an element that was added with lengths `a` and `b` and has seen `n` ticks. */
  function After(a: Half, b: Half, n: nat): Timing {
    TickMany(Timing(a, b, a, true), n)
  }

  /** The first `Lasts(a)` of every `Lasts(a) + Lasts(b)` ticks. */
  predicate InOnPeriod(a: Half, b: Half, n: nat) {
    n % (Lasts(a) + Lasts(b)) < Lasts(a)
  }

  lemma AfterIs(a: Half, b: Half, n: nat)
    ensures After(a, b, n).on <==> InOnPeriod(a, b, n)
  {
    var period := Lasts(a) + Lasts(b);
    MultipleMod(0, period, 0);
    TickManyAdvances(Timing(a, b, a, true), a, b, 0, n);
    assert AtPhase(TickMany(Timing(a, b, a, true), n), a, b, n % period);
  }

  /** The element that a successful add puts on the list, after `n` ticks. */
  function Added(list: seq<Entry>, add: Op, n: nat): Entry
    requires add.Add?
  {
    Entry(Malloced(list), add.location, add.onChar, add.offChar, After(add.onLength, add.offLength, n))
  }

  /** An element added at the start of a run that spares it is still there at the end, has felt the ticks since and
      nothing else, and is on exactly in the first `Lasts(a)` of every `Lasts(a) + Lasts(b)` of them. */
  lemma BlinkPhase(list: seq<Entry>, add: Op, ops: seq<Op>)
    requires Distinct(list) && add.Add? && AddSucceeds(list, add.location) && !Collides(list, add)
    requires NoneCollides(Step(list, add), ops)
    requires SparesAll(Step(list, add), ops, Malloced(list))
    ensures Distinct(Run(Step(list, add), ops))
    ensures Added(list, add, Ticks(ops)) in Run(Step(list, add), ops)
    ensures Added(list, add, Ticks(ops)).timing.on <==> InOnPeriod(add.onLength, add.offLength, Ticks(ops))
  {
    assert Step(list, add)[0] == Added(list, add, 0);
    StepKeepsDistinct(list, add);
    RunKeepsDistinct(Step(list, add), ops);
    RunSpares(Step(list, add), ops, Added(list, add, 0));
    AfterIs(add.onLength, add.offLength, Ticks(ops));
  }

  /** The first tick at which a length out of range shows. */
  lemma OutOfRangeShows(a: Half, b: Half) returns (n: nat)
    requires a + b > 0 && !(1 <= a <= 0x8000 && 1 <= b <= 0x8000)
    ensures InOnPeriod(a, b, n) != (n % (a + b) < a)
  {
    n := if a == 0 then 0 else if a > 0x8000 then 1 else if b == 0 then a else a + 1;
    var period := Lasts(a) + Lasts(b);
    if n < a + b {
      MultipleMod(0, a + b, n);
    } else {
      MultipleMod(1, a + b, 0);
    }
    if n < period {
      MultipleMod(0, period, n);
    } else {
      MultipleMod(1, period, 0);
    }
  }

  /** The nominal lengths describe the blinking at every tick exactly when both are in 1..0x8000. */
  lemma NominalLengthsExactlyWhen(a: Half, b: Half)
    requires a + b > 0
    ensures (forall n: nat :: After(a, b, n).on <==> n % (a + b) < a) <==> 1 <= a <= 0x8000 && 1 <= b <= 0x8000
  {
    if 1 <= a <= 0x8000 && 1 <= b <= 0x8000 {
      forall n: nat ensures After(a, b, n).on <==> n % (a + b) < a {
        AfterIs(a, b, n);
      }
    } else {
      var n := OutOfRangeShows(a, b);
      AfterIs(a, b, n);
    }
  }

  /** After a successful sync of two elements they blink together for as long as both are spared. */
  lemma SyncedStayEqual(list: seq<Entry>, source: Half, target: Half, ops: seq<Op>)
    requires Distinct(list)
    requires FirstAt(list, source) < |list| && FirstAt(list, target) < |list|
    requires NoneCollides(Step(list, Sync(source, target)), ops)
    requires SparesAll(Step(list, Sync(source, target)), ops, list[FirstAt(list, source)].slot)
    requires SparesAll(Step(list, Sync(source, target)), ops, list[FirstAt(list, target)].slot)
    ensures var i, k := FirstAt(list, source), FirstAt(list, target);
            var run, t := Run(Step(list, Sync(source, target)), ops), TickMany(list[i].timing, Ticks(ops));
            list[i].(timing := t) in run && list[k].(timing := t) in run
  {
    var i, k := FirstAt(list, source), FirstAt(list, target);
    var synced := Step(list, Sync(source, target));
    assert synced[i] == list[i] && synced[k] == list[k].(timing := list[i].timing);
    RunSpares(synced, ops, synced[i]);
    RunSpares(synced, ops, synced[k]);
  }

  // ----- The text on the screen -----

  /** The characters of the 80 * 25 cells. */
  type Text = t: seq<char> | |t| == POOL_SIZE witness seq(POOL_SIZE, _ => ' ')

  predicate OnText(list: seq<Entry>) {
    forall k | 0 <= k < |list| :: list[k].location < POOL_SIZE
  }

  /** Adds are refused exactly off the screen or with every slot held. */
  lemma AddFailsExactlyWhen(list: seq<Entry>, location: Half)
    ensures !AddSucceeds(list, location) <==> location >= POOL_SIZE || forall i | 0 <= i < POOL_SIZE :: i in Held(list)
  {
  }

  /** The character an element is showing. */
  function Face(e: Entry): char {
    if e.timing.on then e.onChar else e.offChar
  }

  /** A tick draws the elements whose period ends, in the order of the list: here the first `n`. */
  function TickCells(list: seq<Entry>, text: Text, n: nat): Text
    requires n <= |list| && OnText(list)
    decreases n
  {
    if n == 0 then text
    else
      var e, before := list[n - 1], TickCells(list, text, n - 1);
      if Toggles(e.timing) then before[e.location := if e.timing.on then e.offChar else e.onChar] else before
  }

  /** What one operation draws. A sync moves the off character of its target into a register, and replaces it by the
      on character under a condition that the test before it never meets. */
  function Draw(list: seq<Entry>, text: Text, op: Op): Text
    requires OnText(list)
  {
    match op
    case Add(location, onChar, _, _, _) => if AddSucceeds(list, location) then text[location := onChar] else text
    case Remove(_) => text
    case Sync(source, target) =>
      var i, k := FirstAt(list, source), FirstAt(list, target);
      if i < |list| && k < |list| then text[list[k].location := list[k].offChar] else text
    case Tick => TickCells(list, text, |list|)
  }

  lemma StepKeepsOnText(list: seq<Entry>, op: Op)
    requires OnText(list)
    ensures OnText(Step(list, op))
  {
    var after := Step(list, op);
    match op
    case Add(location, _, _, _, _) =>
      assert AddSucceeds(list, location) ==> forall k | 0 < k < |after| :: after[k] == list[k - 1];
    case Remove(location) =>
      var i := FirstAt(list, location);
      assert i < |list| ==> forall k | 0 <= k < |after| :: after[k] == list[if k < i then k else k + 1];
    case Sync(_, _) =>
      assert forall k | 0 <= k < |after| :: after[k].location == list[k].location;
    case Tick =>
  }

  function RunText(list: seq<Entry>, text: Text, ops: seq<Op>): Text
    requires OnText(list)
    decreases |ops|
  {
    if ops == [] then text
    else
      StepKeepsOnText(list, ops[0]);
      RunText(Step(list, ops[0]), Draw(list, text, ops[0]), ops[1..])
  }

  lemma {:induction false} TextExtends(list: seq<Entry>, text: Text, ops: seq<Op>, n: nat)
    requires n < |ops| && OnText(list)
    ensures OnText(Run(list, ops[..n]))
    ensures RunText(list, text, ops[..n + 1]) == Draw(Run(list, ops[..n]), RunText(list, text, ops[..n]), ops[n])
    decreases n
  {
    if n > 0 {
      StepKeepsOnText(list, ops[0]);
      assert ops[..n + 1][1..] == ops[1..][..n] && ops[..n][1..] == ops[1..][..n - 1];
      TextExtends(Step(list, ops[0]), Draw(list, text, ops[0]), ops[1..], n - 1);
    }
  }

  /** Every element's cell shows its present character, and no two elements share a cell. */
  ghost predicate Shows(list: seq<Entry>, text: Text) {
    && OnText(list) && Apart(list)
    && forall k | 0 <= k < |list| :: text[list[k].location] == Face(list[k])
  }

  ghost predicate Apart(list: seq<Entry>) {
    forall j, k | 0 <= j < k < |list| :: list[j].location != list[k].location
  }

  /** The operation puts no element on another. */
  predicate Fresh(list: seq<Entry>, op: Op) {
    op.Add? && AddSucceeds(list, op.location) ==> FirstAt(list, op.location) == |list|
  }

  /** A sync from an element that is on hides the on character of its target. */
  predicate Hides(list: seq<Entry>, op: Op) {
    op.Sync? &&
    var i, k := FirstAt(list, op.source), FirstAt(list, op.target);
    i < |list| && k < |list| && list[i].timing.on && list[k].onChar != list[k].offChar
  }

  lemma {:induction false} TickCellsAt(list: seq<Entry>, text: Text, n: nat, k: nat)
    requires n <= |list| && k < |list| && OnText(list) && Apart(list)
    requires text[list[k].location] == Face(list[k])
    ensures TickCells(list, text, n)[list[k].location] ==
            if k < n then Face(list[k].(timing := TickTiming(list[k].timing))) else Face(list[k])
    decreases n
  {
    if n > 0 {
      TickCellsAt(list, text, n - 1, k);
      assert n - 1 != k ==> list[n - 1].location != list[k].location;
    }
  }

  /** One operation keeps every element shown exactly when it is no sync that hides its target. */
  lemma StepShowsExactlyWhen(list: seq<Entry>, text: Text, op: Op)
    requires Shows(list, text) && Fresh(list, op)
    ensures Shows(Step(list, op), Draw(list, text, op)) <==> !Hides(list, op)
  {
    StepKeepsOnText(list, op);
    match op
    case Add(_, _, _, _, _) => AddShows(list, text, op);
    case Remove(_) => RemoveShows(list, text, op);
    case Sync(_, _) => SyncShows(list, text, op);
    case Tick =>
      forall k | 0 <= k < |list| ensures Draw(list, text, op)[list[k].location] == Face(Step(list, op)[k]) {
        TickCellsAt(list, text, |list|, k);
      }
  }

  lemma AddShows(list: seq<Entry>, text: Text, op: Op)
    requires Shows(list, text) && op.Add? && Fresh(list, op)
    ensures Shows(Step(list, op), Draw(list, text, op))
  {
    if AddSucceeds(list, op.location) {
      InFrontShows(Added(list, op, 0), list, text);
    }
  }

  lemma InFrontShows(e: Entry, list: seq<Entry>, text: Text)
    requires Shows(list, text) && e.location < POOL_SIZE && FirstAt(list, e.location) == |list|
    ensures Shows([e] + list, text[e.location := Face(e)])
  {
    var longer, drawn := [e] + list, text[e.location := Face(e)];
    assert forall k | 0 <= k < |list| :: list[k].location != e.location;
    forall k | 0 <= k < |longer|
      ensures longer[k].location < POOL_SIZE && drawn[longer[k].location] == Face(longer[k])
    {
      if k > 0 {
        assert longer[k] == list[k - 1];
      }
    }
    FrontApart(e, list);
  }

  lemma FrontApart(e: Entry, list: seq<Entry>)
    requires Apart(list) && forall k | 0 <= k < |list| :: list[k].location != e.location
    ensures Apart([e] + list)
  {
  }

  lemma RemoveShows(list: seq<Entry>, text: Text, op: Op)
    requires Shows(list, text) && op.Remove?
    ensures Shows(Step(list, op), Draw(list, text, op))
  {
    var k, after := FirstAt(list, op.location), Step(list, op);
    if k < |list| {
      assert forall j | 0 <= j < |after| :: after[j] == list[if j < k then j else j + 1];
    }
  }

  lemma SyncShows(list: seq<Entry>, text: Text, op: Op)
    requires Shows(list, text) && op.Sync?
    ensures Shows(Step(list, op), Draw(list, text, op)) <==> !Hides(list, op)
  {
    var i, k, after := FirstAt(list, op.source), FirstAt(list, op.target), Step(list, op);
    if i < |list| && k < |list| {
      assert after[k] == list[k].(timing := list[i].timing);
      assert forall j | 0 <= j < |list| && j != k :: after[j] == list[j] && list[j].location != list[k].location;
    }
  }

  /** No add of the run puts an element on another, and no sync hides one. */
  predicate Tidy(list: seq<Entry>, ops: seq<Op>)
    decreases |ops|
  {
    ops == [] || (Fresh(list, ops[0]) && !Hides(list, ops[0]) && Tidy(Step(list, ops[0]), ops[1..]))
  }

  lemma {:induction false} RunShows(list: seq<Entry>, text: Text, ops: seq<Op>)
    requires Shows(list, text) && Tidy(list, ops)
    ensures Shows(Run(list, ops), RunText(list, text, ops))
    decreases |ops|
  {
    if ops != [] {
      StepShowsExactlyWhen(list, text, ops[0]);
      RunShows(Step(list, ops[0]), Draw(list, text, ops[0]), ops[1..]);
    }
  }

  /** What the user sees: at every tick of a tidy run that spares it, the cell of an added element has its on
      character in the first `Lasts(a)` of every `Lasts(a) + Lasts(b)` ticks and its off character in the rest. */
  lemma BlinkOnScreen(list: seq<Entry>, text: Text, add: Op, ops: seq<Op>)
    requires Distinct(list) && add.Add? && AddSucceeds(list, add.location) && !Collides(list, add)
    requires Shows(list, text) && Tidy(list, [add] + ops)
    requires NoneCollides(Step(list, add), ops)
    requires SparesAll(Step(list, add), ops, Malloced(list))
    ensures RunText(list, text, [add] + ops)[add.location] ==
            if InOnPeriod(add.onLength, add.offLength, Ticks(ops)) then add.onChar else add.offChar
  {
    assert ([add] + ops)[0] == add && ([add] + ops)[1..] == ops;
    BlinkPhase(list, add, ops);
    RunShows(list, text, [add] + ops);
    var run := Run(Step(list, add), ops);
    var k :| 0 <= k < |run| && run[k] == Added(list, add, Ticks(ops));
  }
}
