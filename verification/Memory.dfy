/** The word-wise memory routines of student-distrib/lib.c. Addresses are indices into `mem`. */
module Memory {
  import opened Bytes

  /** Memory after the bytes from `at` on are replaced by `data`. */
  function Overwrite(mem: seq<Byte>, at: nat, data: seq<Byte>): seq<Byte>
    requires at + |data| <= |mem|
  {
    mem[..at] + data + mem[at + |data|..]
  }

  /** The first `k` bytes of `data` have been stored at `at` and nothing else has changed. */
  ghost predicate Stored(mem: array<Byte>, was: seq<Byte>, at: nat, data: seq<Byte>, k: nat)
    requires mem.Length == |was| && k <= |data| && at + |data| <= |was|
    reads mem
  {
    && (forall j | at <= j < at + k :: mem[j] == data[j - at])
    && (forall j | 0 <= j < |was| && !(at <= j < at + k) :: mem[j] == was[j])
  }

  /** The plain byte loops the routines stand for. */
  function CopyBytes(mem: seq<Byte>, dest: nat, src: nat, n: nat): (r: seq<Byte>)
    requires dest + n <= |mem| && src + n <= |mem|
    ensures |r| == |mem|
    decreases n
  {
    if n == 0 then mem else CopyBytes(mem[dest := mem[src]], dest + 1, src + 1, n - 1)
  }

  function SetBytes(mem: seq<Byte>, dest: nat, b: Byte, n: nat): (r: seq<Byte>)
    requires dest + n <= |mem|
    ensures |r| == |mem|
    decreases n
  {
    if n == 0 then mem else SetBytes(mem[dest := b], dest + 1, b, n - 1)
  }

  /** Away from a forward overlap the byte loop delivers the original source bytes. */
  lemma {:induction false} CopyBytesIs(mem: seq<Byte>, dest: nat, src: nat, n: nat)
    requires dest + n <= |mem| && src + n <= |mem|
    requires dest <= src || src + n <= dest
    ensures CopyBytes(mem, dest, src, n) == Overwrite(mem, dest, mem[src..src + n])
    decreases n
  {
    if n > 0 {
      var next := mem[dest := mem[src]];
      CopyBytesIs(next, dest + 1, src + 1, n - 1);
      assert next[src + 1..src + n] == mem[src + 1..src + n];
      assert mem[src..src + n] == [mem[src]] + mem[src + 1..src + n];
    }
  }

  lemma {:induction false} SetBytesIs(mem: seq<Byte>, dest: nat, b: Byte, n: nat)
    requires dest + n <= |mem|
    ensures SetBytes(mem, dest, b, n) == Overwrite(mem, dest, seq(n, _ => b))
    decreases n
  {
    if n > 0 {
      SetBytesIs(mem[dest := b], dest + 1, b, n - 1);
      assert seq(n, _ => b) == [b] + seq(n - 1, _ => b);
    }
  }

  lemma StoredIsOverwrite(mem: array<Byte>, was: seq<Byte>, at: nat, data: seq<Byte>)
    requires mem.Length == |was| && at + |data| <= |was| && Stored(mem, was, at, data, |data|)
    ensures mem[..] == Overwrite(was, at, data)
  {
  }

  /** One 32-bit store, little endian. */
  method StoreDword(mem: array<Byte>, at: nat, b0: Byte, b1: Byte, b2: Byte, b3: Byte)
    requires at + 4 <= mem.Length
    modifies mem
    ensures mem[at] == b0 && mem[at + 1] == b1 && mem[at + 2] == b2 && mem[at + 3] == b3
    ensures forall j | 0 <= j < mem.Length && !(at <= j < at + 4) :: mem[j] == old(mem[j])
  {
    mem[at], mem[at + 1], mem[at + 2], mem[at + 3] := b0, b1, b2, b3;
  }

  // ----- memcpy -----

  /** Bytes from `dest` to the next 4-byte boundary. */
  function HeadLength(dest: nat): (h: nat)
    ensures h < 4 && (dest + h) % 4 == 0
  {
    (4 - dest % 4) % 4
  }

  /** One `movsl`: the dword is loaded whole before it is stored. */
  function MoveWord(mem: seq<Byte>, dest: nat, src: nat): (r: seq<Byte>)
    requires dest + 4 <= |mem| && src + 4 <= |mem|
    ensures |r| == |mem|
  {
    mem[dest := mem[src]][dest + 1 := mem[src + 1]][dest + 2 := mem[src + 2]][dest + 3 := mem[src + 3]]
  }

  function CopyWords(mem: seq<Byte>, dest: nat, src: nat, q: nat): (r: seq<Byte>)
    requires dest + 4 * q <= |mem| && src + 4 * q <= |mem|
    ensures |r| == |mem|
    decreases q
  {
    if q == 0 then mem else CopyWords(MoveWord(mem, dest, src), dest + 4, src + 4, q - 1)
  }

  /** Three phases: `h` bytes, `q` dwords, `t` bytes. */
  function Phases(mem: seq<Byte>, dest: nat, src: nat, h: nat, q: nat, t: nat): (r: seq<Byte>)
    requires dest + h + 4 * q + t <= |mem| && src + h + 4 * q + t <= |mem|
    ensures |r| == |mem|
  {
    var words := CopyWords(CopyBytes(mem, dest, src, h), dest + h, src + h, q);
    CopyBytes(words, dest + h + 4 * q, src + h + 4 * q, t)
  }

  /** Bytes up to a boundary of the destination, dwords, the remaining bytes. */
  function MemCpyResult(mem: seq<Byte>, dest: nat, src: nat, n: nat): (r: seq<Byte>)
    requires dest + n <= |mem| && src + n <= |mem|
    ensures |r| == |mem|
  {
    var h := Min(n, HeadLength(dest));
    Phases(mem, dest, src, h, (n - h) / 4, (n - h) % 4)
  }

  /** What is left once the destination is aligned. */
  method ThreePhases(mem: array<Byte>, edi: nat, esi: nat, ecx: nat, edx: nat,
                     ghost was: seq<Byte>, ghost dest: nat, ghost src: nat, ghost h: nat)
    requires mem.Length == |was| && edi == dest + h && esi == src + h
    requires edi + 4 * ecx + edx <= mem.Length && esi + 4 * ecx + edx <= mem.Length
    requires mem[..] == CopyBytes(was, dest, src, h)
    modifies mem
    ensures mem[..] == Phases(was, dest, src, h, ecx, edx)
  {
    var to, from := CopyDwords(mem, edi, esi, ecx);
    CopyForward(mem, to, from, edx);
  }

  method MemCpy(mem: array<Byte>, dest: nat, src: nat, n: nat)
    requires dest + n <= mem.Length && src + n <= mem.Length
    modifies mem
    ensures mem[..] == MemCpyResult(old(mem[..]), dest, src, n)
    ensures dest <= src || src + n <= dest ==>
              mem[..] == Overwrite(old(mem[..]), dest, old(mem[..])[src..src + n])
  {
    ghost var was := mem[..];
    var edi, esi, ecx := CopyToBoundary(mem, dest, src, n);
    ThreePhases(mem, edi, esi, ecx / 4, ecx % 4, was, dest, src, n - ecx);
    if dest <= src || src + n <= dest {
      AwayDelivers(was, dest, src, n);
    }
  }

  lemma HeadStep(edi: nat, ecx: nat)
    requires ecx > 0
    ensures edi % 4 != 0 ==> Min(ecx, HeadLength(edi)) == Min(ecx - 1, HeadLength(edi + 1)) + 1
    ensures edi % 4 == 0 ==> HeadLength(edi) == 0
  {
  }

  /** The loop at memcpy_top. */
  method CopyToBoundary(mem: array<Byte>, dest: nat, src: nat, n: nat) returns (edi: nat, esi: nat, ecx: nat)
    requires dest + n <= mem.Length && src + n <= mem.Length
    modifies mem
    ensures var h := Min(n, HeadLength(dest)); edi == dest + h && esi == src + h && ecx == n - h
    ensures mem[..] == CopyBytes(old(mem[..]), dest, src, Min(n, HeadLength(dest)))
  {
    edi, esi, ecx := dest, src, n;
    ghost var left: nat := Min(n, HeadLength(dest));
    while ecx != 0 && edi % 4 != 0
      invariant edi + ecx == dest + n && esi + ecx == src + n && left == Min(ecx, HeadLength(edi))
      invariant edi + left == dest + Min(n, HeadLength(dest))
      invariant CopyBytes(mem[..], edi, esi, left) == CopyBytes(old(mem[..]), dest, src, Min(n, HeadLength(dest)))
      decreases ecx
    {
      HeadStep(edi, ecx);
      left := left - 1;
      ghost var was := mem[..];
      mem[edi] := mem[esi];
      assert mem[..] == was[edi := was[esi]];
      edi, esi, ecx := edi + 1, esi + 1, ecx - 1;
    }
    if ecx != 0 {
      HeadStep(edi, ecx);
    }
  }

  method MoveDword(mem: array<Byte>, dest: nat, src: nat)
    requires dest + 4 <= mem.Length && src + 4 <= mem.Length
    modifies mem
    ensures mem[..] == MoveWord(old(mem[..]), dest, src)
  {
    StoreDword(mem, dest, mem[src], mem[src + 1], mem[src + 2], mem[src + 3]);
  }

  /** `rep movsl` with the count in ecx. */
  method CopyDwords(mem: array<Byte>, dest: nat, src: nat, count: nat) returns (edi: nat, esi: nat)
    requires dest + 4 * count <= mem.Length && src + 4 * count <= mem.Length
    modifies mem
    ensures edi == dest + 4 * count && esi == src + 4 * count
    ensures mem[..] == CopyWords(old(mem[..]), dest, src, count)
  {
    edi, esi := dest, src;
    var ecx := count;
    while ecx != 0
      invariant edi + 4 * ecx == dest + 4 * count && esi + 4 * ecx == src + 4 * count
      invariant CopyWords(mem[..], edi, esi, ecx) == CopyWords(old(mem[..]), dest, src, count)
      decreases ecx
    {
      MoveDword(mem, edi, esi);
      edi, esi, ecx := edi + 4, esi + 4, ecx - 1;
    }
  }

  /** The loop at memcpy_bottom, and `rep movsb` with the direction flag clear. */
  method CopyForward(mem: array<Byte>, dest: nat, src: nat, n: nat)
    requires dest + n <= mem.Length && src + n <= mem.Length
    modifies mem
    ensures mem[..] == CopyBytes(old(mem[..]), dest, src, n)
  {
    var k := 0;
    while k < n
      invariant 0 <= k <= n
      invariant CopyBytes(mem[..], dest + k, src + k, n - k) == CopyBytes(old(mem[..]), dest, src, n)
    {
      ghost var was := mem[..];
      mem[dest + k] := mem[src + k];
      assert mem[..] == was[dest + k := was[src + k]];
      k := k + 1;
    }
  }

  lemma {:induction false} CopyBytesSplit(mem: seq<Byte>, dest: nat, src: nat, a: nat, b: nat)
    requires dest + a + b <= |mem| && src + a + b <= |mem|
    ensures CopyBytes(CopyBytes(mem, dest, src, a), dest + a, src + a, b) == CopyBytes(mem, dest, src, a + b)
    decreases a
  {
    if a > 0 {
      CopyBytesSplit(mem[dest := mem[src]], dest + 1, src + 1, a - 1, b);
    }
  }

  lemma WordIsBytes(mem: seq<Byte>, dest: nat, src: nat)
    requires dest + 4 <= |mem| && src + 4 <= |mem|
    requires dest <= src || src + 4 <= dest
    ensures MoveWord(mem, dest, src) == CopyBytes(mem, dest, src, 4)
  {
    var one := mem[dest := mem[src]];
    var two := one[dest + 1 := one[src + 1]];
    assert CopyBytes(mem, dest, src, 4) == CopyBytes(one, dest + 1, src + 1, 3);
    assert CopyBytes(one, dest + 1, src + 1, 3) == CopyBytes(two, dest + 2, src + 2, 2);
  }

  /** Away from a forward overlap dwords do what bytes do. */
  lemma {:induction false} WordsAreBytes(mem: seq<Byte>, dest: nat, src: nat, q: nat)
    requires dest + 4 * q <= |mem| && src + 4 * q <= |mem|
    requires dest <= src || src + 4 * q <= dest
    ensures CopyWords(mem, dest, src, q) == CopyBytes(mem, dest, src, 4 * q)
    decreases q
  {
    if q > 0 {
      WordIsBytes(mem, dest, src);
      WordsAreBytes(MoveWord(mem, dest, src), dest + 4, src + 4, q - 1);
      CopyBytesSplit(mem, dest, src, 4, 4 * (q - 1));
    }
  }

  lemma PhasesAreBytes(mem: seq<Byte>, dest: nat, src: nat, n: nat, h: nat, q: nat, t: nat)
    requires n == h + 4 * q + t && dest + n <= |mem| && src + n <= |mem|
    requires dest <= src || src + n <= dest
    ensures Phases(mem, dest, src, h, q, t) == CopyBytes(mem, dest, src, n)
  {
    WordsAreBytes(CopyBytes(mem, dest, src, h), dest + h, src + h, q);
    CopyBytesSplit(mem, dest, src, h, 4 * q);
    CopyBytesSplit(mem, dest, src, h + 4 * q, t);
  }

  lemma MemCpyIsBytes(mem: seq<Byte>, dest: nat, src: nat, n: nat)
    requires dest + n <= |mem| && src + n <= |mem|
    requires dest <= src || src + n <= dest
    ensures MemCpyResult(mem, dest, src, n) == CopyBytes(mem, dest, src, n)
  {
    var h: nat := Min(n, HeadLength(dest));
    PhasesAreBytes(mem, dest, src, n, h, (n - h) / 4, (n - h) % 4);
  }

  /** The copy delivers the original source bytes. */
  ghost predicate Delivers(mem: seq<Byte>, dest: nat, src: nat, n: nat)
    requires dest + n <= |mem| && src + n <= |mem|
  {
    MemCpyResult(mem, dest, src, n) == Overwrite(mem, dest, mem[src..src + n])
  }

  lemma AwayDelivers(mem: seq<Byte>, dest: nat, src: nat, n: nat)
    requires dest + n <= |mem| && src + n <= |mem|
    requires dest <= src || src + n <= dest
    ensures Delivers(mem, dest, src, n)
  {
    MemCpyIsBytes(mem, dest, src, n);
    CopyBytesIs(mem, dest, src, n);
  }

  ghost predicate IsZero(z: seq<Byte>) {
    forall i | 0 <= i < |z| :: z[i] == 0
  }

  lemma {:induction false} BytesOfZero(z: seq<Byte>, dest: nat, src: nat, n: nat)
    requires IsZero(z) && dest + n <= |z| && src + n <= |z|
    ensures CopyBytes(z, dest, src, n) == z
    decreases n
  {
    if n > 0 {
      assert z[dest := z[src]] == z;
      BytesOfZero(z, dest + 1, src + 1, n - 1);
    }
  }

  lemma {:induction false} WordsOfZero(z: seq<Byte>, dest: nat, src: nat, q: nat)
    requires IsZero(z) && dest + 4 * q <= |z| && src + 4 * q <= |z|
    ensures CopyWords(z, dest, src, q) == z
    decreases q
  {
    if q > 0 {
      assert MoveWord(z, dest, src) == z;
      WordsOfZero(z, dest + 4, src + 4, q - 1);
    }
  }

  /** The first store of the three phases. */
  function FirstStore(mem: seq<Byte>, dest: nat, src: nat, h: nat, q: nat): seq<Byte>
    requires dest + h + 4 * q <= |mem| && src + h + 4 * q <= |mem| && dest < |mem| && src < |mem|
  {
    if h == 0 && q > 0 then MoveWord(mem, dest, src) else mem[dest := mem[src]]
  }

  lemma AfterHead(mem: seq<Byte>, z: seq<Byte>, dest: nat, src: nat, h: nat)
    requires IsZero(z) && 0 < h && dest + h <= |mem| && src + h <= |mem| && mem[dest := mem[src]] == z
    ensures CopyBytes(mem, dest, src, h) == z
  {
    BytesOfZero(z, dest + 1, src + 1, h - 1);
  }

  lemma AfterDword(mem: seq<Byte>, z: seq<Byte>, dest: nat, src: nat, q: nat)
    requires IsZero(z) && 0 < q && dest + 4 * q <= |mem| && src + 4 * q <= |mem|
    requires MoveWord(mem, dest, src) == z
    ensures CopyWords(mem, dest, src, q) == z
  {
    WordsOfZero(z, dest + 4, src + 4, q - 1);
  }

  /** Once the first store has cleared the memory it stays clear. */
  lemma StaysClear(mem: seq<Byte>, z: seq<Byte>, dest: nat, src: nat, h: nat, q: nat, t: nat)
    requires IsZero(z) && |z| == |mem| && dest < |mem| && src < |mem| && h + q + t > 0
    requires dest + h + 4 * q + t <= |mem| && src + h + 4 * q + t <= |mem|
    requires FirstStore(mem, dest, src, h, q) == z
    ensures Phases(mem, dest, src, h, q, t) == z
  {
    var head := CopyBytes(mem, dest, src, h);
    var words := CopyWords(head, dest + h, src + h, q);
    if h > 0 {
      AfterHead(mem, z, dest, src, h);
      WordsOfZero(z, dest + h, src + h, q);
      BytesOfZero(z, dest + h + 4 * q, src + h + 4 * q, t);
    } else if q > 0 {
      AfterDword(mem, z, dest, src, q);
      BytesOfZero(z, dest + 4 * q, src + 4 * q, t);
    } else {
      AfterHead(mem, z, dest, src, t);
    }
  }

  /** Where the copy of a forward overlap loses a byte: the first store already covers it. */
  function LostByte(dest: nat, src: nat, n: nat): nat {
    if dest % 4 == 0 && n > 4 && dest < src + 4 then src + 4 else dest
  }

  /** A single byte that is not zero is gone after a forward overlap. */
  lemma OverlapLoses(z: seq<Byte>, dest: nat, src: nat, n: nat)
    requires IsZero(z) && dest + n <= |z| && src < dest < src + n && !(n == 4 && dest % 4 == 0)
    ensures MemCpyResult(z[LostByte(dest, src, n) := 1], dest, src, n) == z
  {
    var mem := z[LostByte(dest, src, n) := 1];
    var h: nat := Min(n, HeadLength(dest));
    var q: nat, t: nat := (n - h) / 4, (n - h) % 4;
    assert FirstStore(mem, dest, src, h, q) == z;
    StaysClear(mem, z, dest, src, h, q, t);
  }

  lemma OverlapFails(z: seq<Byte>, dest: nat, src: nat, n: nat)
    requires IsZero(z) && dest + n <= |z| && src < dest < src + n && !(n == 4 && dest % 4 == 0)
    ensures !Delivers(z[LostByte(dest, src, n) := 1], dest, src, n)
  {
    var at := LostByte(dest, src, n);
    var mem := z[at := 1];
    OverlapLoses(z, dest, src, n);
    assert Overwrite(mem, dest, mem[src..src + n])[dest + (at - src)] == mem[at] == 1;
  }

  lemma OneDword(mem: seq<Byte>, dest: nat, src: nat)
    requires dest + 4 <= |mem| && src + 4 <= |mem| && dest % 4 == 0
    ensures Delivers(mem, dest, src, 4)
  {
    assert MemCpyResult(mem, dest, src, 4) == Phases(mem, dest, src, 0, 1, 0);
    assert MoveWord(mem, dest, src) == Overwrite(mem, dest, mem[src..src + 4]);
  }

  /** `memcpy` delivers the original source bytes, whatever the memory holds, exactly when the destination does
      not begin inside the source, or all is one aligned dword. */
  lemma MemCpyDeliversExactlyWhen(size: nat, dest: nat, src: nat, n: nat)
    requires dest + n <= size && src + n <= size
    ensures (forall mem: seq<Byte> {:trigger Delivers(mem, dest, src, n)} | |mem| == size ::
               Delivers(mem, dest, src, n)) <==>
            dest <= src || src + n <= dest || (n == 4 && dest % 4 == 0)
  {
    if dest <= src || src + n <= dest || (n == 4 && dest % 4 == 0) {
      forall mem: seq<Byte> | |mem| == size ensures Delivers(mem, dest, src, n) {
        if dest <= src || src + n <= dest {
          AwayDelivers(mem, dest, src, n);
        } else {
          OneDword(mem, dest, src);
        }
      }
    } else {
      OverlapFails(seq(size, _ => 0), dest, src, n);
    }
  }

  // ----- memset and memmove -----

  /** `memset`: the low byte of `c`, copied into all four bytes of a dword, is stored in the same three phases. */
  method MemSet(mem: array<Byte>, dest: nat, c: int, n: nat)
    requires dest + n <= mem.Length
    modifies mem
    ensures mem[..] == SetBytes(old(mem[..]), dest, c % 256, n)
    ensures mem[..] == Overwrite(old(mem[..]), dest, seq(n, _ => c % 256))
  {
    ghost var was := mem[..];
    var low: Byte := c % 256;
    ghost var data := seq(n, _ => low);
    var eax := low * 0x100_0000 + low * 0x1_0000 + low * 0x100 + low;
    var al, _, _, _ := BytesOf(low, eax);
    var done := 0;
    while done < n && (dest + done) % 4 != 0
      invariant 0 <= done <= n && Stored(mem, was, dest, data, done)
    {
      mem[dest + done] := al;
      done := done + 1;
    }
    var dwords := (n - done) / 4;
    SetDwords(mem, was, dest, low, eax, n, done, dwords);
    done := done + 4 * dwords;
    while done < n
      invariant 0 <= done <= n && Stored(mem, was, dest, data, done)
    {
      mem[dest + done] := al;
      done := done + 1;
    }
    StoredIsOverwrite(mem, was, dest, data);
    SetBytesIs(was, dest, low, n);
  }

  /** The four bytes of a register that holds the same byte four times. */
  method BytesOf(ghost low: Byte, eax: Word) returns (b0: Byte, b1: Byte, b2: Byte, b3: Byte)
    requires eax == low * 0x100_0000 + low * 0x1_0000 + low * 0x100 + low
    ensures b0 == low && b1 == low && b2 == low && b3 == low
  {
    assert eax == low * 0x1_0101 * 0x100 + low;
    b0 := eax % 0x100;
    var high24 := eax / 0x100;
    assert high24 == low * 0x101 * 0x100 + low;
    b1 := high24 % 0x100;
    var high16 := high24 / 0x100;
    assert high16 == low * 0x100 + low;
    b2, b3 := high16 % 0x100, high16 / 0x100;
  }

  /** `rep stosl`. */
  method SetDwords(mem: array<Byte>, ghost was: seq<Byte>, dest: nat, ghost low: Byte, eax: Word, ghost n: nat,
                   done: nat, count: nat)
    requires eax == low * 0x100_0000 + low * 0x1_0000 + low * 0x100 + low
    requires mem.Length == |was| && dest + n <= |was| && done + 4 * count <= n
    requires Stored(mem, was, dest, seq(n, _ => low), done)
    modifies mem
    ensures Stored(mem, was, dest, seq(n, _ => low), done + 4 * count)
  {
    var b0, b1, b2, b3 := BytesOf(low, eax);
    var ecx := 0;
    while ecx < count
      invariant 0 <= ecx <= count
      invariant Stored(mem, was, dest, seq(n, _ => low), done + 4 * ecx)
    {
      StoreDword(mem, dest + done + 4 * ecx, b0, b1, b2, b3);
      ecx := ecx + 1;
    }
  }

  /** `memmove`: forwards when the source is not below the destination, backwards otherwise. */
  method MemMove(mem: array<Byte>, dest: nat, src: nat, n: nat)
    requires dest + n <= mem.Length && src + n <= mem.Length
    modifies mem
    ensures mem[..] == Overwrite(old(mem[..]), dest, old(mem[..])[src..src + n])
  {
    ghost var was := mem[..];
    if src >= dest {
      CopyForward(mem, dest, src, n);
      CopyBytesIs(was, dest, src, n);
    } else {
      CopyBackwards(mem, dest, src, n);
      StoredIsOverwrite(mem, was, dest, was[src..src + n]);
    }
  }

  /** `rep movsb` with the direction flag set, from the last byte down. */
  method CopyBackwards(mem: array<Byte>, dest: nat, src: nat, n: nat)
    requires src < dest && dest + n <= mem.Length
    modifies mem
    ensures Stored(mem, old(mem[..]), dest, old(mem[..])[src..src + n], n)
  {
    ghost var was := mem[..];
    var ecx := n;
    while ecx != 0
      invariant 0 <= ecx <= n
      invariant forall j | dest + ecx <= j < dest + n :: mem[j] == was[src + (j - dest)]
      invariant forall j | 0 <= j < |was| && !(dest + ecx <= j < dest + n) :: mem[j] == was[j]
      decreases ecx
    {
      ecx := ecx - 1;
      mem[dest + ecx] := mem[src + ecx];
    }
  }
}
