/** The read loop of syscalls/ece391cat.c. */
module Cat {
  import opened Bytes
  import opened FileSystem

  const CAT_BUFFER := 1024

  /** Reads 1024 bytes at a time into one buffer and writes what came back, until a read returns zero. */
  method Cat(img: Image, inode: Word) returns (output: seq<Byte>)
    requires WellFormed(img) && inode < |img.inodes|
    ensures output == Contents(img, inode)
  {
    var fd := new OpenFile(img, inode);
    var buf := new Byte[CAT_BUFFER];
    output := [];
    ghost var file := Contents(img, inode);
    assert file[..0] == [];
    var cnt: nat := fd.Read(buf, 0, CAT_BUFFER);
    while cnt != 0
      invariant fd.Valid() && fd.img == img && fd.inode == inode
      invariant cnt <= CAT_BUFFER == buf.Length
      invariant cnt == 0 ==> fd.Rest() == []
      invariant file == output + buf[..cnt] + fd.Rest()
      decreases |fd.Rest()|, cnt
    {
      output := output + buf[..cnt];
      ghost var rest := fd.Rest();
      assert file == output + rest;
      cnt := fd.Read(buf, 0, CAT_BUFFER);
      assert rest == buf[..cnt] + fd.Rest();
    }
  }
}
