/** The read-only block file system of student-distrib/file_sys.c. */
module FileSystem {
  import opened Bytes

  const BLOCK_SIZE: nat := 4096
  const NODE_TABLE_SIZE: nat := 1023

  /** An inode block: the file's length and the table of its data block numbers. */
  datatype Inode = Inode(length: Word, blocks: seq<nat>)

  /** A mounted image: the inode blocks, then the data blocks. */
  datatype Image = Image(inodes: seq<Inode>, data: seq<seq<Byte>>)

  ghost predicate WellFormedInode(img: Image, node: Inode) {
    && |node.blocks| == NODE_TABLE_SIZE
    && node.length <= NODE_TABLE_SIZE * BLOCK_SIZE
    && forall k | 0 <= k < NODE_TABLE_SIZE && k * BLOCK_SIZE < node.length :: node.blocks[k] < |img.data|
  }

  ghost predicate WellFormed(img: Image) {
    && |img.inodes| < WORD
    && (forall b | 0 <= b < |img.data| :: |img.data[b]| == BLOCK_SIZE)
    && (forall n | 0 <= n < |img.inodes| :: WellFormedInode(img, img.inodes[n]))
  }

  /** The flat file: byte `i` lives in the block that entry `i / 4096` of the table names. */
  ghost function Contents(img: Image, inode: nat): (file: seq<Byte>)
    requires WellFormed(img) && inode < |img.inodes|
    ensures |file| == img.inodes[inode].length
  {
    var node := img.inodes[inode];
    assert WellFormedInode(img, node);
    seq(node.length, i requires 0 <= i < node.length => img.data[node.blocks[i / BLOCK_SIZE]][i % BLOCK_SIZE])
  }

  /** What a read does: refuse the inode (-1), copy `count` bytes, or go on copying bytes that are
      not the file's. The C code cannot tell the last case from the second; the model stops there. */
  datatype Outcome = Refused | Copied(count: nat) | Stray

  /** The number of bytes the copy phases are asked for, after clamping in 32-bit arithmetic. */
  function Clamped(size: Word, offset: Word, length: Word): Word
    requires offset <= size
  {
    if (offset + length) % WORD > size then size - offset else length
  }

  /** The result of `read_data` for every argument. */
  function ReadOutcome(img: Image, inode: Word, offset: Word, length: Word): Outcome {
    if inode > |img.inodes| then Refused
    else if inode == |img.inodes| then Stray  // passes the check: a data block is taken for an inode
    else
      var size := img.inodes[inode].length;
      if offset > size then Copied(0)
      else
        var asked := Clamped(size, offset, length);
        if (offset > 0 && asked == 0) || offset + asked > size then Stray else Copied(asked)
  }

  /** The file bytes of one data block lookup, as the flat file numbers them. */
  lemma BlockHolds(img: Image, inode: nat, k: nat, i: nat)
    requires WellFormed(img) && inode < |img.inodes|
    requires i < BLOCK_SIZE && k * BLOCK_SIZE + i < img.inodes[inode].length
    ensures k < NODE_TABLE_SIZE
    ensures WellFormedInode(img, img.inodes[inode])
    ensures img.inodes[inode].blocks[k] < |img.data|
    ensures |img.data[img.inodes[inode].blocks[k]]| == BLOCK_SIZE
    ensures Contents(img, inode)[k * BLOCK_SIZE + i] == img.data[img.inodes[inode].blocks[k]][i]
  {
    assert WellFormedInode(img, img.inodes[inode]);
    assert (k * BLOCK_SIZE + i) / BLOCK_SIZE == k && (k * BLOCK_SIZE + i) % BLOCK_SIZE == i;
  }

  /** Bytes that a run of the copy loop takes from one block before it or the request ends. */
  function Taken(first: nat, last: nat, left: nat): nat
    requires first <= last
  {
    Min(last - first, left)
  }

  /** The store in the loop body: byte `i` of the block behind table entry `block`. */
  method CopyByte(img: Image, inode: Word, block: nat, i: nat, buf: array<Byte>, to: nat)
    requires WellFormed(img) && inode < |img.inodes| && to < buf.Length
    requires i < BLOCK_SIZE && block * BLOCK_SIZE + i < img.inodes[inode].length
    modifies buf
    ensures buf[..] == old(buf[..])[to := Contents(img, inode)[block * BLOCK_SIZE + i]]
  {
    BlockHolds(img, inode, block, i);
    buf[to] := img.data[img.inodes[inode].blocks[block]][i];
  }

  /** The loop each copy phase runs: bytes `first..last` of table entry `block`, until the request is met. */
  method CopyFromBlock(img: Image, inode: Word, ghost offset: nat, block: nat, first: nat, last: nat,
                       buf: array<Byte>, at: nat, done: nat, left: nat)
    returns (copied: nat, leftToCopy: nat, stray: bool)
    requires WellFormed(img) && inode < |img.inodes|
    requires first <= last <= BLOCK_SIZE && left > 0
    requires at + Min(done + left, img.inodes[inode].length - offset) <= buf.Length
    requires offset + done == block * BLOCK_SIZE + first <= img.inodes[inode].length
    requires buf[at..at + done] == Contents(img, inode)[offset..offset + done]
    modifies buf
    ensures stray == (block * BLOCK_SIZE + first + Taken(first, last, left) > img.inodes[inode].length)
    ensures !stray ==> copied == done + Taken(first, last, left) && leftToCopy == left - Taken(first, last, left)
    ensures !stray ==> offset + copied <= img.inodes[inode].length
    ensures !stray ==> buf[at..at + copied] == Contents(img, inode)[offset..offset + copied]
    ensures !stray ==> forall j | 0 <= j < buf.Length && !(at + done <= j < at + copied) :: buf[j] == old(buf[j])
  {
    var node := img.inodes[inode];
    ghost var file := Contents(img, inode);
    copied, leftToCopy, stray := done, left, false;
    var i := first;
    while i < last && leftToCopy > 0
      invariant first <= i <= last && copied == done + (i - first) && copied + leftToCopy == done + left
      invariant offset + copied == block * BLOCK_SIZE + i <= node.length
      invariant buf[at..at + copied] == file[offset..offset + copied]
      invariant forall j | 0 <= j < buf.Length && !(at + done <= j < at + copied) :: buf[j] == old(buf[j])
    {
      if block * BLOCK_SIZE + i >= node.length {
        stray := true;
        return;
      }
      CopyByte(img, inode, block, i, buf, at + copied);
      assert file[offset..offset + copied + 1] == file[offset..offset + copied] + [file[offset + copied]];
      assert buf[at..at + copied + 1] == buf[at..at + copied] + [buf[at + copied]];
      copied, leftToCopy := copied + 1, leftToCopy - 1;
      i := i + 1;
    }
  }

  /** The second and third phases of `read_data`: whole blocks from table entry `firstBlock`, then a partial one. */
  method CopyWholeBlocks(img: Image, inode: Word, offset: nat, firstBlock: nat,
                         buf: array<Byte>, at: nat, done: nat, left: nat)
    returns (stray: bool)
    requires WellFormed(img) && inode < |img.inodes|
    requires offset + done == firstBlock * BLOCK_SIZE <= img.inodes[inode].length
    requires at + Min(done + left, img.inodes[inode].length - offset) <= buf.Length
    requires buf[at..at + done] == Contents(img, inode)[offset..offset + done]
    modifies buf
    ensures stray == (offset + done + left > img.inodes[inode].length)
    ensures !stray ==> buf[at..at + done + left] == Contents(img, inode)[offset..offset + done + left]
    ensures !stray ==> forall i | 0 <= i < buf.Length && !(at + done <= i < at + done + left) :: buf[i] == old(buf[i])
  {
    var copied: nat, leftToCopy: nat, block := done, left, firstBlock;
    stray := false;
    var blocksToCopy := leftToCopy / BLOCK_SIZE;
    while blocksToCopy > 0
      invariant blocksToCopy == leftToCopy / BLOCK_SIZE
      invariant copied + leftToCopy == done + left && copied >= done
      invariant offset + copied == block * BLOCK_SIZE <= img.inodes[inode].length
      invariant buf[at..at + copied] == Contents(img, inode)[offset..offset + copied]
      invariant forall j | 0 <= j < buf.Length && !(at + done <= j < at + copied) :: buf[j] == old(buf[j])
    {
      copied, leftToCopy, stray := CopyFromBlock(img, inode, offset, block, 0, BLOCK_SIZE, buf, at, copied, leftToCopy);
      if stray {
        return;
      }
      block := block + 1;
      blocksToCopy := leftToCopy / BLOCK_SIZE;
    }
    if leftToCopy > 0 {
      var remainder := leftToCopy % BLOCK_SIZE;
      copied, leftToCopy, stray := CopyFromBlock(img, inode, offset, block, 0, remainder, buf, at, copied, leftToCopy);
    }
  }

  /** The copy phases of `read_data`: the rest of a block entered midway, then whole blocks and a partial one. */
  method CopyPhases(img: Image, inode: Word, offset: nat, buf: array<Byte>, at: nat, asked: nat)
    returns (r: Outcome)
    requires WellFormed(img) && inode < |img.inodes|
    requires offset <= img.inodes[inode].length
    requires at + Min(asked, img.inodes[inode].length - offset) <= buf.Length
    modifies buf
    ensures r == if (offset > 0 && asked == 0) || offset + asked > img.inodes[inode].length
                 then Stray else Copied(asked)
    ensures r.Copied? ==> buf[at..at + asked] == Contents(img, inode)[offset..offset + asked]
    ensures r.Copied? ==> forall i | 0 <= i < buf.Length && !(at <= i < at + asked) :: buf[i] == old(buf[i])
  {
    var copied: nat, leftToCopy: nat, stray := 0, asked, false;
    var block, skip := offset / BLOCK_SIZE, offset % BLOCK_SIZE;
    if offset > 0 {
      if leftToCopy == 0 {
        return Stray;  // a byte is copied before the count is tested, and the count wraps
      }
      copied, leftToCopy, stray := CopyRestOfBlock(img, inode, offset, block, skip, buf, at, asked);
      if stray {
        return Stray;
      }
      if leftToCopy == 0 {
        return Copied(copied);
      }
      block := block + 1;
    }
    stray := CopyWholeBlocks(img, inode, offset, block, buf, at, copied, leftToCopy);
    return if stray then Stray else Copied(asked);
  }

  /** The first phase of `read_data`. */
  method CopyRestOfBlock(img: Image, inode: Word, offset: nat, block: nat, skip: nat, buf: array<Byte>, at: nat,
                         asked: nat)
    returns (copied: nat, leftToCopy: nat, stray: bool)
    requires WellFormed(img) && inode < |img.inodes|
    requires offset == block * BLOCK_SIZE + skip <= img.inodes[inode].length && skip < BLOCK_SIZE && asked > 0
    requires at + Min(asked, img.inodes[inode].length - offset) <= buf.Length
    modifies buf
    ensures stray ==> offset + asked > img.inodes[inode].length
    ensures !stray ==> copied + leftToCopy == asked && offset + copied <= img.inodes[inode].length
    ensures !stray && leftToCopy > 0 ==> offset + copied == (block + 1) * BLOCK_SIZE
    ensures !stray ==> buf[at..at + copied] == Contents(img, inode)[offset..offset + copied]
    ensures !stray ==> forall j | 0 <= j < buf.Length && !(at <= j < at + copied) :: buf[j] == old(buf[j])
  {
    copied, leftToCopy, stray := CopyFromBlock(img, inode, offset, block, skip, BLOCK_SIZE, buf, at, 0, asked);
  }

  /** How many bytes of the file the call copies at most. */
  function Room(img: Image, inode: Word, offset: Word, length: Word): (n: nat)
    ensures n <= length
  {
    if inode < |img.inodes| && offset <= img.inodes[inode].length
    then
      var size := img.inodes[inode].length;
      AskedFits(size, offset, length);
      Min(Clamped(size, offset, length), size - offset)
    else 0
  }

  /** `read_data`. */
  method ReadData(img: Image, inode: Word, offset: Word, buf: array<Byte>, at: nat, length: Word)
    returns (r: Outcome)
    requires WellFormed(img)
    requires at + Room(img, inode, offset, length) <= buf.Length
    modifies buf
    ensures r == ReadOutcome(img, inode, offset, length)
    ensures r.Copied? ==> r.count <= length
    ensures r.Copied? && r.count > 0 ==> inode < |img.inodes| && offset + r.count <= img.inodes[inode].length
    ensures r.Copied? && r.count > 0 ==> buf[at..at + r.count] == Contents(img, inode)[offset..offset + r.count]
    ensures r.Copied? ==> forall i | 0 <= i < buf.Length && !(at <= i < at + r.count) :: buf[i] == old(buf[i])
  {
    if inode > |img.inodes| {
      return Refused;
    }
    if inode == |img.inodes| {
      return Stray;
    }
    var size := img.inodes[inode].length;
    if offset > size {
      return Copied(0);
    }
    var asked: Word := length;
    if (offset + length) % WORD > size {
      asked := size - offset;
    }
    AskedFits(size, offset, length);
    r := CopyPhases(img, inode, offset, buf, at, asked);
  }

  lemma AskedFits(size: Word, offset: Word, length: Word)
    requires offset <= size
    ensures Clamped(size, offset, length) <= length
  {
    if offset + length < WORD {
      assert (offset + length) % WORD == offset + length;
    } else {
      assert (offset + length) % WORD == offset + length - WORD < offset;
    }
  }

  /** A reader's view of a call: it succeeds and hands over exactly the slice of the flat file. */
  ghost predicate IsSlice(img: Image, inode: nat, offset: nat, length: nat, r: Outcome)
    requires WellFormed(img) && inode < |img.inodes|
  {
    r == Copied(|FlatSlice(Contents(img, inode), offset, length)|)
  }

  /** At most `length` bytes of `file` from `offset`; nothing past the end. */
  function FlatSlice(file: seq<Byte>, offset: nat, length: nat): (s: seq<Byte>) {
    if offset >= |file| then [] else file[offset..Min(|file|, offset + length)]
  }

  /** When a read of a valid inode is the flat slice: always past the end; from the start, always; and in
      between exactly when something is asked for, something is left, and offset + length fits 32 bits. */
  lemma ReadIsSliceExactlyWhen(img: Image, inode: Word, offset: Word, length: Word)
    requires WellFormed(img) && inode < |img.inodes|
    ensures IsSlice(img, inode, offset, length, ReadOutcome(img, inode, offset, length)) <==>
            offset > img.inodes[inode].length || offset == 0 ||
            (offset < img.inodes[inode].length && length > 0 && offset + length < WORD)
  {
    assert WellFormedInode(img, img.inodes[inode]);
    var size := img.inodes[inode].length;
    assert size < WORD;
  }

  /** The inode check refuses every number past the table but one: the count itself is let through. */
  lemma InodeCheckIsOffByOne(img: Image, inode: Word, offset: Word, length: Word)
    requires WellFormed(img) && inode >= |img.inodes|
    ensures ReadOutcome(img, inode, offset, length) == Refused <==> inode != |img.inodes|
  {
  }

  /** The count as `read_data` takes it: a negative one is larger than any file. */
  function AsUnsigned(nbytes: int): Word {
    nbytes % WORD
  }

  /** `file_read`: what a read of `nbytes` (a signed 32-bit count) at `position` does. */
  function FileReadOutcome(img: Image, inode: Word, position: Word, nbytes: int): Outcome
    requires inode < |img.inodes|
  {
    if position >= img.inodes[inode].length then Copied(0)
    else ReadOutcome(img, inode, position, AsUnsigned(nbytes))
  }

  /** For a positive signed count `file_read` never strays: it is the flat slice. */
  lemma FileReadIsSlice(img: Image, inode: Word, position: Word, nbytes: int)
    requires WellFormed(img) && inode < |img.inodes|
    requires 0 < nbytes < 0x8000_0000
    ensures IsSlice(img, inode, position, nbytes, FileReadOutcome(img, inode, position, nbytes))
  {
    ReadIsSliceExactlyWhen(img, inode, position, nbytes);
    assert WellFormedInode(img, img.inodes[inode]);
  }

  /** Of a signed count: something is asked for, or nothing before the first byte, or nothing is left, or a
      negative count is still above the file's size once the position is added in 32 bits. */
  predicate CountFits(nbytes: int, position: nat, length: nat) {
    nbytes > 0 || position == 0 || position >= length || (nbytes < 0 && position < -nbytes)
  }

  /** For every signed 32-bit count, positive, zero or negative: `file_read` stays within the file exactly when
      the count fits, and is the flat slice then; a negative count that fits returns all the rest. */
  lemma FileReadCopiesExactlyWhen(img: Image, inode: Word, position: Word, nbytes: int)
    requires WellFormed(img) && inode < |img.inodes|
    requires -0x8000_0000 <= nbytes < 0x8000_0000
    ensures var r := FileReadOutcome(img, inode, position, nbytes);
            && (r.Copied? <==> CountFits(nbytes, position, img.inodes[inode].length))
            && (r.Copied? ==> r.count == |FlatSlice(Contents(img, inode), position, AsUnsigned(nbytes))|)
  {
    assert WellFormedInode(img, img.inodes[inode]);
    var size := img.inodes[inode].length;
    if position < size && nbytes < 0 {
      assert nbytes % WORD == WORD + nbytes;
      if position + nbytes >= 0 {
        assert (position + (WORD + nbytes)) % WORD == position + nbytes;
      }
    }
  }

  /** A count of zero is harmless only at the start and at the end of the file. */
  lemma FileReadOfNothing(img: Image, inode: Word, position: Word)
    requires WellFormed(img) && inode < |img.inodes|
    ensures FileReadOutcome(img, inode, position, 0) == Copied(0) <==>
            position == 0 || position >= img.inodes[inode].length
  {
    ReadIsSliceExactlyWhen(img, inode, position, 0);
  }

  lemma RestSplits(file: seq<Byte>, position: nat, cnt: nat)
    requires position + cnt <= |file|
    ensures file[position..] == file[position..position + cnt] + file[position + cnt..]
  {
  }

  /** An open descriptor of a regular file: the inode is fixed, the position moves. */
  class OpenFile {
    const img: Image
    const inode: Word
    var position: Word

    ghost predicate Valid()
      reads this
    {
      WellFormed(img) && inode < |img.inodes| && position <= img.inodes[inode].length
    }

    /** What has not been read yet. */
    ghost function Rest(): seq<Byte>
      requires Valid()
      reads this
    {
      Contents(img, inode)[position..]
    }

    /** `sys_call_open` sets the position to zero. */
    constructor (img: Image, inode: Word)
      requires WellFormed(img) && inode < |img.inodes|
      ensures Valid() && position == 0 && this.img == img && this.inode == inode
    {
      this.img, this.inode, this.position := img, inode, 0;
    }

    /** `file_read` on this descriptor, into `buf` from index `at`. */
    method Read(buf: array<Byte>, at: nat, nbytes: int) returns (cnt: nat)
      requires Valid() && 0 < nbytes < 0x8000_0000 && at + nbytes <= buf.Length
      modifies this`position, buf
      ensures Valid()
      ensures cnt == Min(nbytes, |old(Rest())|)
      ensures old(Rest()) == buf[at..at + cnt] + Rest()
      ensures position == old(position) + cnt
      ensures forall i | 0 <= i < buf.Length && !(at <= i < at + cnt) :: buf[i] == old(buf[i])
    {
      if position >= img.inodes[inode].length {
        return 0;
      }
      FileReadIsSlice(img, inode, position, nbytes);
      assert WellFormedInode(img, img.inodes[inode]);
      var r := ReadData(img, inode, position, buf, at, nbytes);
      cnt := r.count;
      RestSplits(Contents(img, inode), position, cnt);
      position := position + cnt;
    }
  }
}
