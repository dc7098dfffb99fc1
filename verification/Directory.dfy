/** Looking names up in the directory of student-distrib/file_sys.c, and listing it. */
module Directory {
  import opened Bytes

  const NAME_SIZE: nat := 32     // NAMESIZE
  const ENTRIES: nat := 63       // SIZEFILES
  const LAST_LISTED: nat := 16   // NUM_DIRECTORY

  datatype Dentry = Dentry(name: seq<Byte>, fileType: nat, inode: nat)

  datatype Lookup = Missing | Entry(index: nat)

  ghost predicate IsTable(table: seq<Dentry>) {
    |table| == ENTRIES && forall i | 0 <= i < ENTRIES :: |table[i].name| == NAME_SIZE
  }

  /** The name that at most `n` bytes of a C string spell: what comes before the first NUL. */
  function Spelled(s: seq<Byte>, n: nat): (r: seq<Byte>)
    ensures |r| <= n
    decreases n
  {
    if n == 0 || s == [] || s[0] == NUL then [] else [s[0]] + Spelled(s[1..], n - 1)
  }

  /** `strncmp` of lib.c: zero exactly when the first `n` bytes spell the same. */
  method StrNCmp(s1: seq<Byte>, s2: seq<Byte>, n: nat) returns (r: int)
    ensures r == 0 <==> Spelled(s1, n) == Spelled(s2, n)
  {
    var i := 0;
    while i < n
      invariant 0 <= i <= n && i <= |s1| && i <= |s2|
      invariant forall j | 0 <= j < i :: s1[j] == s2[j] != NUL
    {
      if At(s1, i) != At(s2, i) || At(s1, i) == NUL {
        SpelledStops(s1, n, i);
        SpelledStops(s2, n, i);
        assert At(s1, i) == At(s2, i) ==> s1[..i] == s2[..i];
        return At(s1, i) - At(s2, i);
      }
      i := i + 1;
    }
    SpelledAll(s1, n);
    SpelledAll(s2, n);
    assert s1[..n] == s2[..n];
    return 0;
  }

  /** After `i` characters a name ends at a NUL, or goes on with the next character. */
  lemma {:induction false} SpelledStops(s: seq<Byte>, n: nat, i: nat)
    requires i < n && i <= |s| && forall j | 0 <= j < i :: s[j] != NUL
    ensures At(s, i) == NUL ==> Spelled(s, n) == s[..i]
    ensures At(s, i) != NUL ==> |Spelled(s, n)| > i && Spelled(s, n)[i] == At(s, i)
  {
    if i > 0 {
      SpelledStops(s[1..], n - 1, i - 1);
      assert At(s[1..], i - 1) == At(s, i) && s[..i] == [s[0]] + s[1..][..i - 1];
    }
  }

  lemma {:induction false} SpelledAll(s: seq<Byte>, n: nat)
    requires n <= |s| && forall j | 0 <= j < n :: s[j] != NUL
    ensures Spelled(s, n) == s[..n]
  {
    if n > 0 {
      SpelledAll(s[1..], n - 1);
    }
  }

  predicate Names(e: Dentry, name: seq<Byte>) {
    Spelled(e.name, NAME_SIZE) == Spelled(name, NAME_SIZE)
  }

  /** `read_dentry_by_name`: the first entry with the same first 32 characters. */
  method ReadDentryByName(table: seq<Dentry>, name: seq<Byte>) returns (r: Lookup)
    requires |table| == ENTRIES
    ensures r.Entry? ==> r.index < ENTRIES && Names(table[r.index], name)
    ensures forall i | 0 <= i < (if r.Entry? then r.index else ENTRIES) :: !Names(table[i], name)
  {
    var i := 0;
    while i < ENTRIES
      invariant 0 <= i <= ENTRIES
      invariant forall j | 0 <= j < i :: !Names(table[j], name)
    {
      var check := StrNCmp(table[i].name, name, NAME_SIZE);
      if check == 0 {
        return Entry(i);
      }
      i := i + 1;
    }
    return Missing;
  }

  // ----- Listing -----

  /** The name `read_directory` hands over when its index is `i`. */
  function NameAt(table: seq<Dentry>, i: nat): seq<Byte>
    requires IsTable(table) && i <= LAST_LISTED + 1
  {
    if i > LAST_LISTED then [] else Spelled(table[i].name, NAME_SIZE)
  }

  /** What the `k`-th call of `read_directory` since boot returns, whoever makes it: entries 0 to 16 in turn,
      then nothing. */
  function Listed(table: seq<Dentry>, k: nat): seq<Byte>
    requires IsTable(table)
  {
    NameAt(table, k % (LAST_LISTED + 2))
  }

  function NextIndex(i: nat): nat {
    if i > LAST_LISTED then 0 else i + 1
  }

  /** The global `read_directory_index`. */
  class DirectoryReader {
    var index: nat
    ghost var calls: nat

    ghost predicate Valid()
      reads this
    {
      index == calls % (LAST_LISTED + 2)
    }

    constructor ()
      ensures Valid() && calls == 0
    {
      index, calls := 0, 0;
    }

    method ReadDirectory(table: seq<Dentry>, buf: array<Byte>) returns (copied: nat)
      requires Valid() && IsTable(table) && buf.Length >= NAME_SIZE
      modifies this, buf
      ensures Valid() && calls == old(calls) + 1
      ensures copied <= NAME_SIZE && buf[..copied] == Listed(table, old(calls))
      ensures old(index) <= LAST_LISTED + 1 && index == NextIndex(old(index))
    {
      IndexTurns(calls);
      calls := calls + 1;
      if index > LAST_LISTED {
        index := 0;
        return 0;
      }
      copied := CopyName(table[index].name, buf);
      index := index + 1;
    }
  }

  lemma IndexTurns(k: nat)
    ensures (k + 1) % (LAST_LISTED + 2) == NextIndex(k % (LAST_LISTED + 2))
  {
  }

  /** `strlen` of the name field, cut at 32, and the copy loop. */
  method CopyName(name: seq<Byte>, buf: array<Byte>) returns (copied: nat)
    requires |name| == NAME_SIZE <= buf.Length
    modifies buf
    ensures copied <= NAME_SIZE && buf[..copied] == Spelled(name, NAME_SIZE)
  {
    var length := 0;
    while length < NAME_SIZE && name[length] != NUL
      invariant 0 <= length <= NAME_SIZE
      invariant forall j | 0 <= j < length :: name[j] != NUL
    {
      length := length + 1;
    }
    if length < NAME_SIZE {
      SpelledStops(name, NAME_SIZE, length);
    } else {
      SpelledAll(name, NAME_SIZE);
    }
    copied := 0;
    while copied < length
      invariant 0 <= copied <= length && buf[..copied] == name[..copied]
    {
      buf[copied] := name[copied];
      copied := copied + 1;
    }
  }

  lemma {:induction false} SpelledTwice(s: seq<Byte>, n: nat)
    ensures Spelled(Spelled(s, n), n) == Spelled(s, n)
    decreases n
  {
    if n > 0 && s != [] && s[0] != NUL {
      SpelledTwice(s[1..], n - 1);
      assert Spelled(s, n)[1..] == Spelled(s[1..], n - 1);
    }
  }

  /** No two entries spell the same name. */
  ghost predicate NamesDiffer(table: seq<Dentry>)
    requires IsTable(table)
  {
    forall i, j | 0 <= i < j < ENTRIES :: !Names(table[j], table[i].name)
  }

  /** What a listing hands over, an open finds: the name listed at index `i` is that of entry `i`, and of no other
      entry when the names differ. */
  lemma ListedIsFound(table: seq<Dentry>, i: nat, j: nat)
    requires IsTable(table) && i <= LAST_LISTED && j < ENTRIES
    ensures Names(table[i], NameAt(table, i))
    ensures NamesDiffer(table) ==> (Names(table[j], NameAt(table, i)) <==> j == i)
  {
    SpelledTwice(table[i].name, NAME_SIZE);
    if NamesDiffer(table) {
      assert i < j ==> !Names(table[j], table[i].name);
      assert j < i ==> !Names(table[i], table[j].name);
    }
  }

  /** Eighteen calls in a row, wherever they begin, hand over every entry from 0 to 16 and end the listing once. */
  lemma EveryEntryListed(table: seq<Dentry>, k: nat, i: nat) returns (n: nat)
    requires IsTable(table) && i <= LAST_LISTED + 1
    ensures k <= n < k + LAST_LISTED + 2 && Listed(table, n) == NameAt(table, i)
    ensures n % (LAST_LISTED + 2) == i
  {
    var q: nat, at := k / 18, k % 18;
    var turn := if at <= i then q else q + 1;
    n := 18 * turn + i;
    IndexIs(turn, i);
  }

  lemma IndexIs(turn: nat, i: nat)
    requires i < 18
    ensures (18 * turn + i) % (LAST_LISTED + 2) == i
  {
  }

  // ----- ls -----

  /** What ls prints when the shared index stands at `i`: a line for each entry from there on, up to entry 16 or
      the first one without a name. */
  function ListFrom(table: seq<Dentry>, i: nat): seq<Byte>
    requires IsTable(table) && i <= LAST_LISTED + 1
    decreases LAST_LISTED + 1 - i
  {
    if NameAt(table, i) == [] then [] else NameAt(table, i) + [NEWLINE] + ListFrom(table, i + 1)
  }

  ghost predicate AllNamed(table: seq<Dentry>)
    requires IsTable(table)
  {
    forall i | 0 <= i <= LAST_LISTED :: NameAt(table, i) != []
  }

  /** The read call of ls. */
  method ReadName(dir: DirectoryReader, table: seq<Dentry>, buf: array<Byte>) returns (cnt: nat)
    requires dir.Valid() && IsTable(table) && buf.Length == NAME_SIZE + 1
    modifies dir, buf
    ensures dir.Valid() && old(dir.index) <= LAST_LISTED + 1 && dir.index == NextIndex(old(dir.index))
    ensures cnt <= NAME_SIZE && buf[..cnt] == NameAt(table, old(dir.index))
  {
    cnt := dir.ReadDirectory(table, buf);
  }

  /** The newline behind the name, and the bytes the write call of ls puts out. */
  method WriteLine(buf: array<Byte>, cnt: nat) returns (line: seq<Byte>)
    requires cnt < buf.Length
    modifies buf
    ensures line == old(buf[..cnt]) + [NEWLINE]
  {
    buf[cnt] := NEWLINE;
    return buf[..cnt + 1];
  }

  /** The loop of syscalls/ece391ls.c: read and write until a read returns nothing. */
  method Ls(dir: DirectoryReader, table: seq<Dentry>, buf: array<Byte>) returns (out: seq<Byte>)
    requires dir.Valid() && IsTable(table) && buf.Length == NAME_SIZE + 1
    modifies dir, buf
    ensures dir.Valid() && dir.index <= LAST_LISTED + 1
    ensures out == ListFrom(table, old(dir.index))
    ensures AllNamed(table) ==> dir.index == 0
  {
    out := [];
    ghost var at, start := dir.index, dir.index;
    var cnt: nat := ReadName(dir, table, buf);
    while cnt != 0
      invariant dir.Valid() && at <= LAST_LISTED + 1 && cnt <= NAME_SIZE
      invariant buf[..cnt] == NameAt(table, at)
      invariant dir.index == NextIndex(at)
      invariant out + ListFrom(table, at) == ListFrom(table, start)
      decreases LAST_LISTED + 1 - at
    {
      var line := WriteLine(buf, cnt);
      NextLine(table, at, out, line);
      out, at := out + line, at + 1;
      cnt := ReadName(dir, table, buf);
    }
    assert buf[..0] == [];
  }

  lemma NextLine(table: seq<Dentry>, at: nat, out: seq<Byte>, line: seq<Byte>)
    requires IsTable(table) && at <= LAST_LISTED + 1 && NameAt(table, at) != []
    requires line == NameAt(table, at) + [NEWLINE]
    ensures at <= LAST_LISTED && out + ListFrom(table, at) == (out + line) + ListFrom(table, at + 1)
  {
    assert ListFrom(table, at) == line + ListFrom(table, at + 1);
    Associates(out, line, ListFrom(table, at + 1));
  }

  lemma Associates(a: seq<Byte>, b: seq<Byte>, c: seq<Byte>)
    ensures a + (b + c) == (a + b) + c
  {
  }

  lemma {:induction false} LaterIsShorter(table: seq<Dentry>, i: nat, k: nat)
    requires IsTable(table) && AllNamed(table) && i <= k <= LAST_LISTED + 1
    ensures |ListFrom(table, k)| + (k - i) <= |ListFrom(table, i)|
    decreases k - i
  {
    if i < k {
      LaterIsShorter(table, i + 1, k);
    }
  }

  /** ls lists the whole directory exactly when nobody has left the shared index in the middle of it. */
  lemma ListsAllExactlyWhen(table: seq<Dentry>, i: nat)
    requires IsTable(table) && AllNamed(table) && i <= LAST_LISTED + 1
    ensures ListFrom(table, i) == ListFrom(table, 0) <==> i == 0
    ensures ListFrom(table, i) == [] <==> i == LAST_LISTED + 1
  {
    LaterIsShorter(table, 0, i);
  }

  /** The first line of a listing is the first name, and what follows it the rest of the listing. */
  lemma ListingReadsBack(table: seq<Dentry>, i: nat)
    requires IsTable(table) && i <= LAST_LISTED && NameAt(table, i) != [] && NEWLINE !in NameAt(table, i)
    ensures var text := ListFrom(table, i);
            var n := LineLength(text);
            n < |text| && text[..n] == NameAt(table, i) && text[n + 1..] == ListFrom(table, i + 1)
  {
    LineInFront(NameAt(table, i), ListFrom(table, i + 1));
  }
}
