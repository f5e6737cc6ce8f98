/** kern/fs/files.c: file contents. Open-file tables are not modelled; a file is named by its inode. */
module Files {
  import opened Bytes
  import opened Bitmaps
  import opened Free
  import opened Images
  import opened Inodes
  import opened Layout
  import opened Ownership
  import opened Volumes

  /** The file's contents: size_ bytes spread over its data blocks. */
  ghost function FileBytes(g: Image, n: nat): (r: seq<u8>)
    requires n < |g.inodes|
    ensures |r| == g.inodes[n].size
  {
    seq(g.inodes[n].size, k requires 0 <= k => Sec(g, Live(g, n, Data(k / BYTES_SECTOR)))[k % BYTES_SECTOR])
  }

  /** Every block that files_read may ask for exists. */
  ghost predicate Readable(g: Image, n: nat)
    requires n < |g.inodes|
  {
    forall i: nat | i <= g.inodes[n].size / BYTES_SECTOR :: Live(g, n, Data(i)) != 0
  }

  /** A step that keeps all inodes but n keeps the contents of every other readable file. */
  lemma OtherFilesKept(g: Image, h: Image, n: nat, m: nat)
    requires OthersKept(g, h, n) && m < |g.inodes| && m != n && Readable(g, m)
    ensures Readable(h, m) && FileBytes(h, m) == FileBytes(g, m)
  {
    hide Live, Sec;
    var a, b := FileBytes(g, m), FileBytes(h, m);
    forall k | 0 <= k < |a|
      ensures a[k] == b[k]
    {
      var s := Data(k / BYTES_SECTOR);
      assert Live(g, m, s) != 0;
      assert Sec(h, Live(g, m, s)) == Sec(g, Live(g, m, s));
    }
  }

  /**
    The sector files_write puts at logical block i. When the size is a multiple of 512
    one more sector than needed is written, from the memory after the caller's buffer.
   */
  function Chunk(buf: seq<u8>, beyond: Sector, i: nat): Sector
    requires i <= |buf| / BYTES_SECTOR
  {
    if i < |buf| / BYTES_SECTOR then buf[BYTES_SECTOR * i..BYTES_SECTOR * i + BYTES_SECTOR]
    else if |buf| % BYTES_SECTOR != 0 then buf[BYTES_SECTOR * i..] + seq(BYTES_SECTOR - |buf| % BYTES_SECTOR, _ => 0)
    else beyond
  }

  /** The first i sectors of the write are in place. */
  ghost predicate Written(g: Image, h: Image, n: nat, buf: seq<u8>, beyond: Sector, i: nat)
    requires n < |g.inodes|
  {
    && Consistent(h) && OthersKept(g, h, n) && SameLeaks(g, h)
    && i <= |buf| / BYTES_SECTOR + 1
    && forall j: nat | j < i :: Live(h, n, Data(j)) != 0 && Sec(h, Live(h, n, Data(j))) == Chunk(buf, beyond, j)
  }

  lemma WrittenNext(g: Image, h: Image, k: Image, n: nat, buf: seq<u8>, beyond: Sector, i: nat)
    requires n < |g.inodes| && i <= |buf| / BYTES_SECTOR
    requires Written(g, h, n, buf, beyond, i)
    requires BlockWritten(h, k, n, i, Chunk(buf, beyond, i))
    ensures Written(g, k, n, buf, beyond, i + 1)
  {
    hide Live, Sec, Consistent, Chunk, Leaked;
    OthersKeptTrans(g, h, k, n);
  }

  lemma WrittenBlocks(g: Image, h: Image, n: nat, i: nat, x: Sector)
    requires n < |g.inodes| && BlockWritten(g, h, n, i, x)
    ensures forall j: nat | Live(g, n, Data(j)) != 0 :: Live(h, n, Data(j)) != 0
  {
    hide Live, Sec, Consistent, Marked;
  }

  /** All sectors in place and the size set: the file reads back as the buffer. */
  lemma WrittenReads(g: Image, h: Image, n: nat, buf: seq<u8>, beyond: Sector)
    requires n < |g.inodes| && n < |h.inodes| && h.inodes[n].size == |buf|
    requires forall j: nat | j <= |buf| / BYTES_SECTOR ::
               Live(h, n, Data(j)) != 0 && Sec(h, Live(h, n, Data(j))) == Chunk(buf, beyond, j)
    ensures Readable(h, n) && FileBytes(h, n) == buf
  {
    hide Live, Sec;
    forall k | 0 <= k < |buf|
      ensures FileBytes(h, n)[k] == buf[k]
    {
      var j := k / BYTES_SECTOR;
      assert Sec(h, Live(h, n, Data(j)))[k % BYTES_SECTOR] == Chunk(buf, beyond, j)[k - BYTES_SECTOR * j];
    }
  }

  /** One turn of files_write's loop. */
  method WriteBlock(v: Volume, n: nat, i: nat, x: Sector) returns (ok: bool)
    requires v.Valid() && Consistent(v.View())
    requires Allocated(v.View(), n) && i < BLOCK_INDEX_MAX
    modifies v.disk, v.inodes, v.freeMap, v.freeMap.buff
    ensures v.Valid()
    ensures ok ==> BlockWritten(old(v.View()), v.View(), n, i, x)
    ensures Live(old(v.View()), n, Data(i)) != 0 ==>
      ok && v.View().free == old(v.View()).free && v.freeMap.prevFree == old(v.freeMap.prevFree)
    ensures !ok ==> NoRoom(v.View())
    ensures 3 <= old(BlocksAhead(v)) ==> ok
    ensures old(BlocksAhead(v)) <= BlocksAhead(v) + 3
  {
    hide Grown, Live, Bit, Marked, IndexOwned, DecodeInode, InodesSynced, WithBit, ClearFrom;
    ghost var g := v.View();
    OwnedIsIndexOwned(g);
    var lba := IblockGet(v, n, i);
    ghost var hooked := lba == 0;
    if lba == 0 {
      var a := TakeBlock(v);
      if a.None? {
        return false;
      }
      lba := a.value;
      MarkEffect(g, lba, true);
      SameRefsIndexOwned(g, v.View());
      ok := IblockSet(v, n, i, lba);
      if !ok {
        return;
      }
      HookedBlock(g, v.View(), n, i, lba);
    }
    ghost var h := v.View();
    assert Live(h, n, Data(i)) == lba;
    assert Marked(h, lba);
    PokedBlock(h, n, i, x);
    FreeWrite(v, lba, x);
    if hooked {
      BlockWrittenTwice(g, h, v.View(), n, i, h.disk[lba], x);
    }
    ok := true;
  }

  /** files_write on an open file; ok is false for the panic "no more free bits". */
  method FilesWrite(v: Volume, n: nat, buf: seq<u8>, beyond: Sector) returns (ok: bool)
    requires v.Valid() && Consistent(v.View()) && Allocated(v.View(), n)
    requires |buf| < 0x1_0000_0000 && |buf| / BYTES_SECTOR < BLOCK_INDEX_MAX
    modifies v.disk, v.inodes, v.freeMap, v.freeMap.buff
    ensures v.Valid()
    ensures |buf| == 0 ==> ok && v.View() == old(v.View())
    ensures ok ==> Consistent(v.View()) && OthersKept(old(v.View()), v.View(), n)
    ensures ok ==> SameLeaks(old(v.View()), v.View())
    ensures (forall j: nat | j <= |buf| / BYTES_SECTOR :: Live(old(v.View()), n, Data(j)) != 0) ==>
      ok && v.View().free == old(v.View()).free && v.freeMap.prevFree == old(v.freeMap.prevFree)
    ensures ok && |buf| != 0 ==>
      FileBytes(v.View(), n) == buf && Readable(v.View(), n) && FreeSynced(v.View())
    ensures !ok ==> NoRoom(v.View())
    ensures 3 * (|buf| / BYTES_SECTOR + 1) <= old(BlocksAhead(v)) ==> ok
    ensures old(BlocksAhead(v)) <= BlocksAhead(v) + 3 * (|buf| / BYTES_SECTOR + 1)
  {
    hide Live, Bit, Marked, Owned, InodesSynced, OthersKept, BlockWritten, Chunk, Sec, EncodeInode, ClearFrom, Leaked;
    ghost var g := v.View();
    OthersKeptSelf(g, n);
    if |buf| == 0 {
      return true;
    }
    var i := 0;
    while i <= |buf| / BYTES_SECTOR
      invariant 0 <= i <= |buf| / BYTES_SECTOR + 1
      invariant v.Valid() && Written(g, v.View(), n, buf, beyond, i)
      invariant forall j: nat | Live(g, n, Data(j)) != 0 :: Live(v.View(), n, Data(j)) != 0
      invariant old(BlocksAhead(v)) <= BlocksAhead(v) + 3 * i
      invariant (forall j: nat | j < i :: Live(g, n, Data(j)) != 0) ==>
                  v.View().free == g.free && v.freeMap.prevFree == old(v.freeMap.prevFree)
    {
      ghost var h := v.View();
      KeptAllocated(g, h, n);
      ok := WriteBlock(v, n, i, Chunk(buf, beyond, i));
      if !ok {
        return;
      }
      WrittenNext(g, h, v.View(), n, buf, beyond, i);
      WrittenBlocks(h, v.View(), n, i, Chunk(buf, beyond, i));
      i := i + 1;
    }
    ghost var h0 := v.View();
    v.inodes[n] := v.inodes[n].(size := |buf|);
    InodeWrite(v, n);
    ghost var h1 := v.View();
    assert h1 == Flush(SetSize(h0, n, |buf|), n);
    SizedAndFlushed(h0, n, |buf|);
    MetaStepKeeps(h0, h1, n);
    FreeMapUpdate(v);
    ghost var h2 := v.View();
    MapFlushed(h1, h2, n);
    MetaStepKeeps(h1, h2, n);
    OthersKeptTrans(g, h0, h1, n);
    OthersKeptTrans(g, h1, h2, n);
    WrittenReads(g, h2, n, buf, beyond);
    ok := true;
  }

  lemma FileLength(g: Image, n: nat)
    requires n < |g.inodes|
    ensures |FileBytes(g, n)| == g.inodes[n].size
  {
    hide Live, Sec;
  }

  lemma BytesOfBlock(g: Image, n: nat, i: nat, k: nat)
    requires n < |g.inodes| && k < BYTES_SECTOR && BYTES_SECTOR * i + k < g.inodes[n].size
    ensures FileBytes(g, n)[BYTES_SECTOR * i + k] == Sec(g, Live(g, n, Data(i)))[k]
  {
    hide Live, Sec;
  }

  /** memmove(out + at, src, count) */
  method CopyOut(out: array<u8>, at: nat, src: Sector, count: nat)
    requires count <= BYTES_SECTOR && at + count <= out.Length
    modifies out
    ensures forall k | 0 <= k < out.Length :: out[k] == if at <= k < at + count then src[k - at] else old(out[k])
  {
    forall k | 0 <= k < count {
      out[at + k] := src[k];
    }
  }

  /**
    files_read on an open file into a buffer of at least `size` bytes. The first
    min(size, size_) bytes of the buffer receive the file, the rest is untouched.
   */
  method FilesRead(v: Volume, n: nat, out: array<u8>, size: nat)
    requires v.Valid() && Consistent(v.View()) && Allocated(v.View(), n) && Readable(v.View(), n)
    requires size <= out.Length && out !in v.Repr()
    modifies out
    ensures var total := if size < |FileBytes(v.View(), n)| then size else |FileBytes(v.View(), n)|;
            out[..] == FileBytes(v.View(), n)[..total] + old(out[..])[total..]
  {
    hide Consistent, Readable, Live, Sec, FileBytes, Bit, BlocksRead;
    ghost var g := v.View();
    ghost var bytes := FileBytes(g, n);
    var length := v.inodes[n].size;
    FileLength(g, n);
    if length == 0 || size == 0 {
      ReadInAll(old(out[..]), out[..], bytes, 0);
      return;
    }
    var total := if length < size then length else size;
    var cr := BlocksRead(total);
    var i := 0;
    ghost var done := 0;
    while i < cr
      invariant 0 <= i <= cr && v.Valid() && v.View() == g
      invariant done == if i == cr then total else BYTES_SECTOR * i
      invariant 0 <= done <= total
      invariant forall k | 0 <= k < done :: out[k] == bytes[k]
      invariant forall k | done <= k < out.Length :: out[k] == old(out[k])
    {
      var count := if i == cr - 1 then total - i * BYTES_SECTOR else BYTES_SECTOR;
      ReadPart(v, n, out, i, count, bytes);
      i, done := i + 1, done + count;
    }
    ReadInAll(old(out[..]), out[..], bytes, total);
  }

  lemma ReadInAll(was: seq<u8>, now: seq<u8>, bytes: seq<u8>, total: nat)
    requires |now| == |was| && total <= |was| && total <= |bytes|
    requires forall k | 0 <= k < |now| :: now[k] == if k < total then bytes[k] else was[k]
    ensures now == bytes[..total] + was[total..]
  {
  }

  /** One turn of the loop of files_read: the first `count` bytes of block i go to their place in the buffer. */
  method ReadPart(v: Volume, n: nat, out: array<u8>, i: nat, count: nat, ghost bytes: seq<u8>)
    requires v.Valid() && Consistent(v.View()) && Allocated(v.View(), n) && Readable(v.View(), n)
    requires bytes == FileBytes(v.View(), n) && out !in v.Repr()
    requires count <= BYTES_SECTOR && BYTES_SECTOR * i + count <= |bytes| && BYTES_SECTOR * i + count <= out.Length
    modifies out
    ensures forall k | 0 <= k < out.Length ::
              out[k] == if BYTES_SECTOR * i <= k < BYTES_SECTOR * i + count then bytes[k] else old(out[k])
  {
    hide Consistent, Readable, Live, Sec, FileBytes, Bit;
    PartIs(v.View(), n, i, count);
    var lba, temp := FetchBlock(v, n, i);
    hide Volume.Valid, Volume.View, Volume.Repr;
    CopyOut(out, BYTES_SECTOR * i, temp, count);
  }

  lemma PartIs(g: Image, n: nat, i: nat, count: nat)
    requires n < |g.inodes| && Readable(g, n) && count <= BYTES_SECTOR && BYTES_SECTOR * i + count <= |FileBytes(g, n)|
    ensures i < BLOCK_INDEX_MAX && Live(g, n, Data(i)) != 0
    ensures forall k | BYTES_SECTOR * i <= k < BYTES_SECTOR * i + count ::
              FileBytes(g, n)[k] == Sec(g, Live(g, n, Data(i)))[k - BYTES_SECTOR * i]
  {
    hide Readable, Live, Sec, FileBytes;
    FileLength(g, n);
    BlockOf(i, g.inodes[n].size);
    ReadableHas(g, n, i);
    forall k | BYTES_SECTOR * i <= k < BYTES_SECTOR * i + count
      ensures FileBytes(g, n)[k] == Sec(g, Live(g, n, Data(i)))[k - BYTES_SECTOR * i]
    {
      BytesOfBlock(g, n, i, k - BYTES_SECTOR * i);
    }
  }

  lemma BlockOf(i: nat, size: nat)
    requires BYTES_SECTOR * i <= size
    ensures i <= size / BYTES_SECTOR
  {
  }

  /** The loop of files_read runs up to the block of the byte behind the last one. */
  function BlocksRead(total: nat): (cr: nat)
    ensures 0 < cr && BYTES_SECTOR * (cr - 1) <= total < BYTES_SECTOR * cr
  {
    (total + BYTES_SECTOR) / BYTES_SECTOR
  }

  lemma ReadableHas(g: Image, n: nat, i: nat)
    requires n < |g.inodes| && Readable(g, n) && i <= g.inodes[n].size / BYTES_SECTOR
    ensures Live(g, n, Data(i)) != 0 && i < BLOCK_INDEX_MAX
  {
    if BLOCK_INDEX_MAX <= i {
      NoRefPastEnd(g, n, i);
    }
    hide Live;
  }

  /** Reading back what was just written. */
  method WriteThenRead(v: Volume, n: nat, buf: seq<u8>, beyond: Sector, out: array<u8>, size: nat) returns (ok: bool)
    requires v.Valid() && Consistent(v.View()) && Allocated(v.View(), n)
    requires 0 < |buf| < 0x1_0000_0000 && |buf| / BYTES_SECTOR < BLOCK_INDEX_MAX
    requires size <= out.Length && out !in v.Repr()
    modifies v.disk, v.inodes, v.freeMap, v.freeMap.buff, out
    ensures ok ==>
      var total := if size < |buf| then size else |buf|;
      out[..] == buf[..total] + old(out[..])[total..]
    ensures !ok ==> out[..] == old(out[..])
  {
    ok := FilesWrite(v, n, buf, beyond);
    if ok {
      KeptAllocated(old(v.View()), v.View(), n);
      hide Consistent, OthersKept, FileBytes, Live;
      FilesRead(v, n, out, size);
    }
  }
}
