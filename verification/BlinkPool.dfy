/** fish/blink.S on the slot pool of fish/fish.c: a linked list threaded through a fixed array. */
module BlinkPool {
  import opened BlinkSpec

  const NULL := -1

  /** A `struct mp1_blink_struct`; the next pointer is a slot number or NULL. */
  datatype Node = Node(location: Half, onChar: char, offChar: char, timing: Timing, next: int)

  const ZEROED := Node(0, '\0', '\0', Timing(0, 0, 0, false), NULL)

  ghost predicate Linked(pool: seq<Node>, order: seq<nat>, k: nat)
    requires k < |order| && order[k] < |pool|
  {
    pool[order[k]].next == SlotAt(order, k + 1)
  }

  ghost predicate Threaded(pool: seq<Node>, head: int, order: seq<nat>) {
    && |pool| == POOL_SIZE
    && head == SlotAt(order, 0)
    && (forall k | 0 <= k < |order| :: order[k] < POOL_SIZE)
    && (forall k | 0 <= k < |order| :: Linked(pool, order, k))
    && (forall j, k | 0 <= j < k < |order| :: order[j] != order[k])
  }

  /** The pool and the list agree: following `head` visits `order`, which never repeats, and every slot with a
      non-zero location is on it. A node at location 0 is on the list while its slot counts as free. */
  ghost predicate Agree(pool: seq<Node>, head: int, order: seq<nat>) {
    && Threaded(pool, head, order)
    && (forall i | 0 <= i < POOL_SIZE && pool[i].location != 0 :: i in order)
    && (forall i | 0 <= i < POOL_SIZE :: pool[i].location < POOL_SIZE)
  }

  function SlotAt(order: seq<nat>, k: nat): int {
    if k < |order| then order[k] else NULL
  }

  function EntryAt(pool: seq<Node>, slot: nat): Entry
    requires slot < |pool|
  {
    Entry(slot, pool[slot].location, pool[slot].onChar, pool[slot].offChar, pool[slot].timing)
  }

  ghost function Entries(pool: seq<Node>, order: seq<nat>): seq<Entry>
    requires |pool| == POOL_SIZE && forall k | 0 <= k < |order| :: order[k] < POOL_SIZE
  {
    seq(|order|, k requires 0 <= k < |order| => EntryAt(pool, order[k]))
  }

  class BlinkList {
    const pool: array<Node>    // blink_array
    const screen: array<char>  // the characters of the text screen
    var head: int            // mp1_list_head
    ghost var order: seq<nat>

    ghost predicate Valid()
      reads this, pool
    {
      Agree(pool[..], head, order) && screen.Length == POOL_SIZE
    }

    ghost function View(): seq<Entry>
      requires Valid()
      reads this, pool
    {
      Entries(pool[..], order)
    }

    lemma ViewOnText()
      requires Valid()
      ensures OnText(View())
    {
    }

    /** The array starts zeroed (fish/fish.c, main). */
    constructor (text: Text)
      ensures Valid() && View() == [] && fresh(pool) && fresh(screen) && screen[..] == text
    {
      pool := new Node[POOL_SIZE](_ => ZEROED);
      screen := new char[POOL_SIZE](i requires 0 <= i < POOL_SIZE => text[i]);
      head, order := NULL, [];
    }

    lemma ViewFacts()
      requires Valid()
      ensures Distinct(View())
      ensures forall i :: i in Slots(View()) <==> i in order
      ensures forall i | 0 <= i < POOL_SIZE :: i in Held(View()) <==> pool[i].location != 0
    {
      forall i | i in order ensures i in Slots(View()) && (pool[i].location != 0 ==> i in Held(View())) {
        var k :| 0 <= k < |order| && order[k] == i;
        assert View()[k] in View();
      }
    }

    /** `mp1_malloc`: the first slot whose location is zero. */
    method Malloc() returns (i: int)
      requires Valid()
      ensures i == (if Malloced(View()) < POOL_SIZE then Malloced(View()) else NULL)
    {
      ViewFacts();
      i := FirstZero();
      LowestFreeIs(Held(View()), 0, i);
      if i == POOL_SIZE {
        i := NULL;
      }
    }

    /** The scan of `mp1_malloc`. */
    method FirstZero() returns (i: nat)
      requires pool.Length == POOL_SIZE
      ensures i <= POOL_SIZE && (i < POOL_SIZE ==> pool[i].location == 0)
      ensures forall j | 0 <= j < i :: pool[j].location != 0
    {
      i := 0;
      while i < POOL_SIZE && pool[i].location != 0
        invariant 0 <= i <= POOL_SIZE
        invariant forall j | 0 <= j < i :: pool[j].location != 0
      {
        i := i + 1;
      }
    }

    /** `mp1_find_helper`: walk the list to the first node at `location`. */
    method FindHelper(location: Half) returns (node: int)
      requires Valid()
      ensures FirstAt(View(), location) <= |order|
      ensures node == SlotAt(order, FirstAt(View(), location))
    {
      node := head;
      ghost var k := 0;
      while node != NULL
        invariant 0 <= k <= |order| && node == SlotAt(order, k)
        invariant forall j | 0 <= j < k :: View()[j].location != location
        decreases |order| - k
      {
        assert View()[k].location == pool[node].location && Linked(pool[..], order, k);
        if pool[node].location == location {
          return;
        }
        node := pool[node].next;
        k := k + 1;
      }
    }

    /** `mp1_poke`. */
    method Poke(location: Half, c: char)
      requires location < screen.Length
      modifies screen
      ensures screen[..] == old(screen[..])[location := c]
    {
      screen[location] := c;
    }

    /** `mp1_ioctl_add` of a structure that the caller filled in. When `mp1_malloc` hands out the slot of an element
        on the list, its link is overwritten and the links run in a circle: no list follows them any more. */
    method AddNode(user: Node) returns (r: int)
      requires Valid()
      modifies this, pool, screen
      ensures r == (if AddSucceeds(old(View()), user.location) then 0 else -1)
      ensures if Collides(old(View()), AddOf(user)) then forall o :: !Threaded(pool[..], head, o)
              else Valid() && View() == Step(old(View()), AddOf(user))
      ensures OnText(old(View())) && screen[..] == Draw(old(View()), old(screen[..]), AddOf(user))
    {
      ViewOnText();
      if user.location >= POOL_SIZE {
        return -1;
      }
      var node := user.(timing := user.timing.(countdown := user.timing.onLength, on := true));
      var i := Malloc();
      if i == NULL {
        return -1;
      }
      ViewFacts();
      ghost var after := pool[..][i := node.(next := head)];
      if i in order {
        forall o ensures !Threaded(after, i, o) {
          CollisionLoops(pool[..], head, order, i, node, o);
        }
      } else {
        Prepend(pool[..], head, order, i, node);
      }
      pool[i] := node.(next := head);
      assert pool[..] == after;
      head, order := i, [i] + order;
      Poke(pool[i].location, pool[i].onChar);
      return 0;
    }

    /** `mp1_ioctl_remove`: find the node, find the link that points at it, bypass and zero it. */
    method RemoveNode(location: Half) returns (r: int)
      requires Valid()
      modifies this, pool
      ensures Valid() && View() == Step(old(View()), Remove(location))
      ensures r == (if FirstAt(old(View()), location) < |old(View())| then 0 else -1)
    {
      var node := FindHelper(location);
      if node == NULL {
        return -1;
      }
      ghost var k := FirstAt(View(), location);
      var prev := FindLink(node, k);
      BypassAgrees(pool[..], head, order, k);
      BypassEntries(pool[..], head, order, k);
      if prev == NULL {
        head := pool[node].next;
      } else {
        pool[prev] := pool[prev].(next := pool[node].next);
      }
      pool[node] := ZEROED;  // mp1_free
      order := Without(order, k);
      return 0;
    }

    /** The walk along the links to the one that points at `node`; NULL stands for mp1_list_head itself. */
    method FindLink(node: int, ghost k: nat) returns (prev: int)
      requires Valid() && k < |order| && node == order[k]
      ensures prev == if k == 0 then NULL else order[k - 1]
    {
      prev := NULL;
      var link := head;
      ghost var j := 0;
      while link != node
        invariant 0 <= j <= k && link == SlotAt(order, j)
        invariant prev == if j == 0 then NULL else order[j - 1]
        decreases k - j
      {
        assert Linked(pool[..], order, j);
        prev, link := link, pool[link].next;
        j := j + 1;
      }
    }

    /** `mp1_ioctl_sync`: copy the timing of the first node at `source` to the first at `target`. */
    method SyncNodes(source: Half, target: Half) returns (r: int)
      requires Valid()
      modifies pool, screen
      ensures Valid() && View() == Step(old(View()), Sync(source, target))
      ensures OnText(old(View())) && screen[..] == Draw(old(View()), old(screen[..]), Sync(source, target))
      ensures r == (if FirstAt(old(View()), source) < |old(View())| && FirstAt(old(View()), target) < |old(View())|
                    then 0 else -1)
    {
      ViewOnText();
      var from := FindHelper(source);
      if from == NULL {
        return -1;
      }
      var to := FindHelper(target);
      if to == NULL {
        return -1;
      }
      Retime(pool[..], head, order, FirstAt(View(), target), pool[from].timing);
      pool[to] := pool[to].(timing := pool[from].timing);
      var c := SyncFace(pool[to]);
      Poke(pool[to].location, c);
      return 0;
    }

    /** The character that a sync shows: the conditional move asks for "less", and the flags left by the test of the
        status bit say "not less" whether it is set or not. */
    method SyncFace(node: Node) returns (c: char)
      ensures c == node.offChar
    {
      var status := if node.timing.on then 1 else 0;
      var sign, overflow := status / 0x80 == 1, false;  // testb $1
      c := if sign != overflow then node.onChar else node.offChar;
    }

    /** `mp1_rtc_tasklet`: one tick for every node on the list. */
    method Tasklet()
      requires Valid()
      modifies pool, screen
      ensures Valid() && View() == Step(old(View()), Tick)
      ensures OnText(old(View())) && screen[..] == Draw(old(View()), old(screen[..]), Tick)
    {
      ViewOnText();
      var node := head;
      ghost var k, was := 0, View();
      while node != NULL
        invariant 0 <= k <= |order| && node == SlotAt(order, k)
        invariant Valid()
        invariant screen[..] == TickCells(was, old(screen[..]), k)
        invariant forall j | 0 <= j < |order| ::
                    View()[j] == if j < k then was[j].(timing := TickTiming(was[j].timing)) else was[j]
        decreases |order| - k
      {
        assert View()[k] == was[k];
        node := TickAt(node, k);
        k := k + 1;
      }
    }

    /** The body of the tick loop, for the node at index `k`. */
    method TickAt(node: nat, ghost k: nat) returns (next: int)
      requires Valid() && k < |order| && node == order[k]
      modifies pool, screen
      ensures Valid() && next == SlotAt(order, k + 1)
      ensures var e := old(View())[k];
              && View() == old(View())[k := e.(timing := TickTiming(e.timing))]
              && e.location < POOL_SIZE
              && screen[..] == if Toggles(e.timing)
                               then old(screen[..])[e.location := if e.timing.on then e.offChar else e.onChar]
                               else old(screen[..])
    {
      assert Linked(pool[..], order, k);
      Retime(pool[..], head, order, k, TickNode(pool[node].timing));
      ShowTick(pool[node]);
      pool[node] := pool[node].(timing := TickNode(pool[node].timing));
      next := pool[node].next;
    }

    /** The node an ioctl of type add passes in for an operation. */
    static function Request(op: Op): Node
      requires op.Add?
    {
      Node(op.location, op.onChar, op.offChar, Timing(op.onLength, op.offLength, 0, false), NULL)
    }

    method PerformOne(op: Op)
      requires Valid()
      modifies this, pool, screen
      ensures OnText(old(View())) && screen[..] == Draw(old(View()), old(screen[..]), op)
      ensures if Collides(old(View()), op) then forall o :: !Threaded(pool[..], head, o)
              else Valid() && View() == Step(old(View()), op)
    {
      ViewOnText();
      match op
      case Add(_, _, _, _, _) => var r := AddNode(Request(op));
      case Remove(location) => var r := RemoveNode(location);
      case Sync(source, target) => var r := SyncNodes(source, target);
      case Tick => Tasklet();
    }

    /** Any sequence of calls, up to and including a first colliding add: BlinkSpec.RunSplits divides every run
        like that. The list is what the sequence of elements says as long as no add collides; once one does, no
        list follows the links. */
    method Perform(ops: seq<Op>)
      requires Valid() && (ops != [] ==> NoneCollides(View(), ops[..|ops| - 1]))
      modifies this, pool, screen
      ensures OnText(old(View())) && screen[..] == RunText(old(View()), old(screen[..]), ops)
      ensures if NoneCollides(old(View()), ops) then Valid() && View() == Run(old(View()), ops)
              else forall o :: !Threaded(pool[..], head, o)
    {
      ghost var start := View();
      ViewOnText();
      if ops == [] {
        return;
      }
      var last := |ops| - 1;
      for i := 0 to last
        invariant Valid() && View() == Run(start, ops[..i])
        invariant screen[..] == RunText(start, old(screen[..]), ops[..i])
      {
        RunExtends(start, ops, i);
        TextExtends(start, old(screen[..]), ops, i);
        PrefixCollidesNot(start, ops[..last], i + 1);
        assert ops[..last][..i + 1] == ops[..i + 1];
        PerformOne(ops[i]);
      }
      RunExtends(start, ops, last);
      TextExtends(start, old(screen[..]), ops, last);
      assert ops[..last + 1] == ops;
      PerformOne(ops[last]);
    }

    /** What the tick loop draws for one node, before it changes the status. */
    method ShowTick(node: Node)
      requires node.location < screen.Length
      modifies screen
      ensures screen[..] == if Toggles(node.timing)
                            then old(screen[..])[node.location := if node.timing.on then node.offChar else node.onChar]
                            else old(screen[..])
    {
      var c := if node.timing.countdown == 0 then 0xFFFF else node.timing.countdown - 1;
      if c > 0 && c < 0x8000 {
        return;
      }
      Poke(node.location, if node.timing.on then node.offChar else node.onChar);
    }

    /** The body of the tick loop, on the 16-bit fields of one node. */
    static function TickNode(t: Timing): (r: Timing)
      ensures r == TickTiming(t)
    {
      var c := if t.countdown == 0 then 0xFFFF else t.countdown - 1;
      if c > 0 && c < 0x8000 then t.(countdown := c)
      else if t.on then t.(countdown := t.offLength, on := false)
      else t.(countdown := t.onLength, on := true)
    }
  }

  /** The operation an ioctl of type add asks for. */
  function AddOf(user: Node): Op {
    Add(user.location, user.onChar, user.offChar, user.timing.onLength, user.timing.offLength)
  }

  lemma LowestFreeIs(used: set<nat>, from: nat, i: nat)
    requires from <= i <= POOL_SIZE && (i < POOL_SIZE ==> i !in used)
    requires forall j | from <= j < i :: j in used
    ensures LowestFree(used, from) == i
  {
    var l := LowestFree(used, from);
    assert l < i ==> l in used;
  }

  /** Linking a slot that is not on the list in front. */
  lemma Prepend(pool: seq<Node>, head: int, order: seq<nat>, i: nat, node: Node)
    requires Agree(pool, head, order) && i < POOL_SIZE && i !in order && node.location < POOL_SIZE
    ensures var after := pool[i := node.(next := head)];
            && Agree(after, i, [i] + order)
            && Entries(after, [i] + order) ==
               [Entry(i, node.location, node.onChar, node.offChar, node.timing)] + Entries(pool, order)
  {
    var after := pool[i := node.(next := head)];
    var longer := [i] + order;
    assert forall k | 0 <= k < |longer| :: longer[k] < POOL_SIZE;
    forall k | 0 <= k < |longer| ensures Linked(after, longer, k) {
      if k > 0 {
        assert Linked(pool, order, k - 1) && order[k - 1] != i;
      }
    }
    forall j | 0 <= j < POOL_SIZE && after[j].location != 0 ensures j in longer {
      assert j != i ==> j in order;
    }
  }

  /** Linking a slot that is on the list in front of it: from `i` the links visit what was before `i`, in order. */
  lemma {:induction false} CircleFollows(pool: seq<Node>, head: int, order: seq<nat>, k: nat, node: Node,
                                         o: seq<nat>, j: nat)
    requires Threaded(pool, head, order) && k < |order|
    requires Threaded(pool[order[k] := node.(next := head)], order[k], o) && j <= k
    ensures j + 1 < |o| && o[j + 1] == order[j]
    decreases j
  {
    var after := pool[order[k] := node.(next := head)];
    assert o[0] == order[k] && Linked(after, o, 0);
    if j > 0 {
      CircleFollows(pool, head, order, k, node, o, j - 1);
      assert Linked(after, o, j) && Linked(pool, order, j - 1) && order[j - 1] != order[k];
    }
  }

  /** A slot that is on the list becomes its head: the links come back to it, and no list follows them. */
  lemma CollisionLoops(pool: seq<Node>, head: int, order: seq<nat>, i: nat, node: Node, o: seq<nat>)
    requires Threaded(pool, head, order) && i in order
    ensures !Threaded(pool[i := node.(next := head)], i, o)
  {
    var k :| 0 <= k < |order| && order[k] == i;
    if Threaded(pool[i := node.(next := head)], i, o) {
      CircleFollows(pool, head, order, k, node, o, k);
    }
  }

  /** The pool after the node at index `k` is unlinked and its slot zeroed. */
  function Bypassed(pool: seq<Node>, order: seq<nat>, k: nat): (after: seq<Node>)
    requires k < |order| && forall j | 0 <= j < |order| :: order[j] < |pool|
    ensures |after| == |pool|
  {
    var bypassed := if k == 0 then pool else pool[order[k - 1] := pool[order[k - 1]].(next := pool[order[k]].next)];
    bypassed[order[k] := ZEROED]
  }

  function Without(order: seq<nat>, k: nat): seq<nat>
    requires k < |order|
  {
    order[..k] + order[k + 1..]
  }

  lemma WithoutAt(order: seq<nat>, k: nat, j: nat)
    requires k < |order|
    ensures SlotAt(Without(order, k), j) == SlotAt(order, if j < k then j else j + 1)
    ensures j < |order| - 1 ==> Without(order, k)[j] == order[if j < k then j else j + 1]
  {
  }

  /** The link that follows the `j`-th remaining node. */
  lemma BypassedNext(pool: seq<Node>, head: int, order: seq<nat>, k: nat, j: nat)
    requires Threaded(pool, head, order) && k < |order| && j < |order| - 1
    ensures Without(order, k)[j] < POOL_SIZE
    ensures Linked(Bypassed(pool, order, k), Without(order, k), j)
    ensures EntryAt(Bypassed(pool, order, k), Without(order, k)[j]) ==
            EntryAt(pool, order[if j < k then j else j + 1])
  {
    WithoutAt(order, k, j);
    WithoutAt(order, k, j + 1);
    var was := if j < k then j else j + 1;
    assert order[was] != order[k] && Linked(pool, order, was) && Linked(pool, order, k);
    assert k > 0 && was != k - 1 ==> order[was] != order[k - 1];
  }

  lemma WithoutDistinct(order: seq<nat>, k: nat)
    requires k < |order| && forall i, j | 0 <= i < j < |order| :: order[i] != order[j]
    ensures forall i, j | 0 <= i < j < |order| - 1 :: Without(order, k)[i] != Without(order, k)[j]
    ensures forall x :: x in Without(order, k) <==> x in order && x != order[k]
  {
    forall i, j | 0 <= i < j < |order| - 1 ensures Without(order, k)[i] != Without(order, k)[j] {
      WithoutAt(order, k, i);
      WithoutAt(order, k, j);
    }
    forall x | x in order && x != order[k] ensures x in Without(order, k) {
      var i :| 0 <= i < |order| && order[i] == x;
      assert Without(order, k)[if i < k then i else i - 1] == x;
    }
  }

  lemma BypassAgrees(pool: seq<Node>, head: int, order: seq<nat>, k: nat)
    requires Agree(pool, head, order) && k < |order|
    ensures Agree(Bypassed(pool, order, k), if k == 0 then pool[order[k]].next else head, Without(order, k))
  {
    WithoutAt(order, k, 0);
    WithoutDistinct(order, k);
    forall j | 0 <= j < |order| - 1
      ensures Without(order, k)[j] < POOL_SIZE && Linked(Bypassed(pool, order, k), Without(order, k), j)
    {
      BypassedNext(pool, head, order, k, j);
    }
    BypassedLocations(pool, order, k);
    assert Linked(pool, order, k);
  }

  lemma BypassEntries(pool: seq<Node>, head: int, order: seq<nat>, k: nat)
    requires Agree(pool, head, order) && k < |order|
    requires forall j | 0 <= j < |order| - 1 :: Without(order, k)[j] < POOL_SIZE
    ensures Entries(Bypassed(pool, order, k), Without(order, k))
         == Entries(pool, order)[..k] + Entries(pool, order)[k + 1..]
  {
    forall j | 0 <= j < |order| - 1
      ensures EntryAt(Bypassed(pool, order, k), Without(order, k)[j]) ==
            EntryAt(pool, order[if j < k then j else j + 1])
    {
      BypassedNext(pool, head, order, k, j);
    }
  }

  lemma BypassedLocations(pool: seq<Node>, order: seq<nat>, k: nat)
    requires k < |order| && forall j | 0 <= j < |order| :: order[j] < |pool|
    ensures forall i | 0 <= i < |pool| ::
              Bypassed(pool, order, k)[i].location == if i == order[k] then 0 else pool[i].location
  {
  }

  /** Changing the timing of the node at index `k`. */
  lemma Retime(pool: seq<Node>, head: int, order: seq<nat>, k: nat, t: Timing)
    requires Agree(pool, head, order) && k < |order|
    ensures var after := pool[order[k] := pool[order[k]].(timing := t)];
            && Agree(after, head, order)
            && Entries(after, order) == Entries(pool, order)[k := Entries(pool, order)[k].(timing := t)]
  {
    var after := pool[order[k] := pool[order[k]].(timing := t)];
    forall i | 0 <= i < POOL_SIZE
      ensures after[i].next == pool[i].next && after[i].location == pool[i].location
    {
    }
    assert Threaded(after, head, order) by {
      forall j | 0 <= j < |order| ensures Linked(after, order, j) {
        assert Linked(pool, order, j);
      }
    }
  }
}
