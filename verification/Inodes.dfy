/** kern/fs/inodes.c: the write-through inode table and the direct/indirect block map. */
module Inodes {
  import opened Bytes
  import opened Bitmaps
  import opened Free
  import opened Images
  import opened Layout
  import opened Volumes
  import opened Wrappers

  /** inodes_rw_disk(n, ATA_CMD_IO_WRITE) */
  function Flush(g: Image, n: nat): Image
    requires Shape(g) && n < MAX_INODES
  {
    Poke(g, BASE_INODES + n, EncodeInode(g.inodes[n]))
  }

  /** The sector of inode n holds the inode that is in memory. */
  ghost predicate OnDisk(g: Image, n: nat)
    requires Shape(g) && n < MAX_INODES
  {
    DecodeInode(g.disk[BASE_INODES + n]) == g.inodes[n]
  }

  /** The inode map and every allocated inode on disk are those in memory. */
  ghost predicate InodesSynced(g: Image)
    requires Shape(g)
  {
    && g.disk[BASE_MAP_INODES] == g.used
    && forall n: nat | n < MAX_INODES && Allocated(g, n) :: OnDisk(g, n)
  }

  lemma FlushEffect(g: Image, n: nat)
    requires Shape(g) && IndexOwned(g) && n < MAX_INODES
    ensures Shape(Flush(g, n)) && SameRefs(g, Flush(g, n)) && OnDisk(Flush(g, n), n)
  {
    hide EncodeInode, DecodeInode, Bit, GetWord;
    InodeRoundTrip(g.inodes[n]);
    RegionNoIndex(g, BASE_INODES + n);
    PokeElsewhere(g, BASE_INODES + n, EncodeInode(g.inodes[n]));
  }

  /** The sectors before the data blocks hold no index block. */
  lemma RegionNoIndex(g: Image, lba: nat)
    requires IndexOwned(g) && 0 < lba < LBA_FREE
    ensures NoIndexBlock(g, lba)
  {
    hide Bit, Ref;
    forall n: nat, s: Slot | !s.Data?
      ensures Live(g, n, s) != lba
    {
      if Live(g, n, s) != 0 {
        assert Marked(g, Live(g, n, s));
      }
    }
  }

  ghost predicate IsIndexBlock(g: Image, n: nat, lba: nat) {
    exists s: Slot :: !s.Data? && Live(g, n, s) == lba
  }

  /**
    From g to h nothing happened but that inode n received index blocks, each taken
    from the free blocks of g. Data slots are left to the caller.
   */
  ghost predicate Grown(g: Image, h: Image, n: nat)
    requires Shape(g) && n < MAX_INODES
  {
    && Shape(h) && |h.disk| == |g.disk| && h.used == g.used
    && (forall m: nat, s: Slot | !s.Data? ::
          || Live(h, m, s) == Live(g, m, s)
          || (m == n && Live(g, m, s) == 0 && !Marked(g, Live(h, m, s)) && Marked(h, Live(h, m, s))))
    && (forall l: nat :: Marked(g, l) ==> Marked(h, l))
    && (forall l: nat :: Marked(h, l) && !Marked(g, l) ==> IsIndexBlock(h, n, l))
    && (forall m: nat | m < MAX_INODES && m != n :: h.inodes[m] == g.inodes[m])
    && h.inodes[n].size == g.inodes[n].size
    && (forall l: nat :: Sec(h, l) == Sec(g, l) || l == BASE_INODES + n || (l != 0 && IsIndexBlock(h, n, l)))
    && (OnDisk(g, n) ==> OnDisk(h, n))
  }

  ghost predicate SameData(g: Image, h: Image) {
    forall m: nat, i: nat :: Live(h, m, Data(i)) == Live(g, m, Data(i))
  }

  lemma GrownTrans(g: Image, h: Image, k: Image, n: nat)
    requires Shape(g) && n < MAX_INODES
    requires Grown(g, h, n) && Grown(h, k, n)
    ensures Grown(g, k, n)
  {
    hide Live, Marked, OnDisk, Sec;
    forall l: nat | IsIndexBlock(h, n, l) && l != 0
      ensures IsIndexBlock(k, n, l)
    {
      var s: Slot :| !s.Data? && Live(h, n, s) == l;
      assert Live(k, n, s) == l;
    }
    MarksAreData(h);
  }

  /** The flat block map of the source: slot i of n now holds lba, every other logical block stays. */
  ghost predicate MapUpdated(g: Image, h: Image, n: nat, i: nat, lba: u32) {
    forall m: nat, j: nat :: Live(h, m, Data(j)) == if m == n && j == i then lba else Live(g, m, Data(j))
  }

  /** Index blocks that come from unmarked blocks keep the index blocks apart. */
  lemma GrowthOwned(g: Image, h: Image, n: nat, s: Slot, a: u32)
    requires Shape(g) && IndexOwned(g) && n < MAX_INODES && !s.Data?
    requires LBA_FREE <= a && !Marked(g, a) && Marked(h, a)
    requires Updates(g, h, n, s, a)
    requires forall l: nat :: Marked(g, l) ==> Marked(h, l)
    ensures IndexOwned(h)
  {
    hide Live, Marked;
  }

  function AddSingle(g: Image, n: nat, a: u32): Image
    requires Shape(g) && n < MAX_INODES && InPool(g, a)
  {
    Flush(Poke(SetField(Mark(g, a, true), n, SINGLE_INDEX, a), a, ZeroSector()), n)
  }

  lemma UnmarkedNoIndex(g: Image, a: nat)
    requires IndexOwned(g) && 0 < a && !Marked(g, a)
    ensures NoIndexBlock(g, a)
  {
    hide Live, Marked;
  }

  lemma SingleGrows(g: Image, n: nat, a: u32)
    requires Shape(g) && IndexOwned(g) && Allocated(g, n) && Live(g, n, Single) == 0
    requires InPool(g, a) && !Marked(g, a)
    ensures var h := AddSingle(g, n, a);
            Grown(g, h, n) && SameData(g, h) && IndexOwned(h) && Live(h, n, Single) == a && Marked(h, a)
  {
    hide Live, Marked, EncodeInode, DecodeInode, WithBit;
    var g1 := Mark(g, a, true);
    MarkEffect(g, a, true);
    UnmarkedNoIndex(g, a);
    assert Allocated(g1, n) && IndexOwned(g1) && NoIndexBlock(g1, a);
    var g2 := Poke(SetField(g1, n, SINGLE_INDEX, a), a, ZeroSector());
    NewSingle(g1, n, a);
    SameMarks(g1, g2);
    GrowthOwned(g, g2, n, Single, a);
    FlushEffect(g2, n);
    var h := AddSingle(g, n, a);
    assert h == Flush(g2, n);
    SameMarks(g1, h);
    assert IsIndexBlock(h, n, a);
  }

  function AddDouble(g: Image, n: nat, a: u32): Image
    requires Shape(g) && n < MAX_INODES && InPool(g, a)
  {
    Flush(Poke(SetField(Mark(g, a, true), n, DOUBLE_INDEX, a), a, ZeroSector()), n)
  }

  lemma DoubleGrows(g: Image, n: nat, a: u32)
    requires Shape(g) && IndexOwned(g) && Allocated(g, n) && Live(g, n, Double) == 0
    requires InPool(g, a) && !Marked(g, a)
    ensures var h := AddDouble(g, n, a);
            Grown(g, h, n) && SameData(g, h) && IndexOwned(h) && Live(h, n, Double) == a && Marked(h, a)
  {
    hide Live, Marked, EncodeInode, DecodeInode, WithBit;
    var g1 := Mark(g, a, true);
    MarkEffect(g, a, true);
    UnmarkedNoIndex(g, a);
    assert Allocated(g1, n) && IndexOwned(g1) && NoIndexBlock(g1, a);
    var g2 := Poke(SetField(g1, n, DOUBLE_INDEX, a), a, ZeroSector());
    NewDouble(g1, n, a);
    SameMarks(g1, g2);
    GrowthOwned(g, g2, n, Double, a);
    FlushEffect(g2, n);
    var h := AddDouble(g, n, a);
    assert h == Flush(g2, n);
    SameMarks(g1, h);
    assert IsIndexBlock(h, n, a);
  }

  function AddMid(g: Image, n: nat, q: nat, a: u32): Image
    requires Shape(g) && InPool(g, a) && q < LBAS_PER_SECTOR
    requires Live(g, n, Double) < |g.disk|
  {
    var b := Live(g, n, Double);
    Poke(Poke(Mark(g, a, true), b, PutWord(g.disk[b], q, a)), a, ZeroSector())
  }

  lemma MidGrows(g: Image, n: nat, q: nat, a: u32)
    requires Shape(g) && IndexOwned(g) && Allocated(g, n) && q < LBAS_PER_SECTOR
    requires Live(g, n, Double) != 0 && Live(g, n, Mid(q)) == 0
    requires InPool(g, a) && !Marked(g, a)
    ensures Live(g, n, Double) < |g.disk|
    ensures var h := AddMid(g, n, q, a);
            Grown(g, h, n) && SameData(g, h) && IndexOwned(h) && Live(h, n, Mid(q)) == a && Marked(h, a)
  {
    hide Live, Marked, DecodeInode, WithBit, PutWord;
    var b := Live(g, n, Double);
    assert Marked(g, b);
    MarkedInPool(g, b);
    var g1 := Mark(g, a, true);
    MarkEffect(g, a, true);
    UnmarkedNoIndex(g, a);
    assert Allocated(g1, n) && IndexOwned(g1) && NoIndexBlock(g1, a);
    var h := AddMid(g, n, q, a);
    NewMid(g1, n, q, a);
    SameMarks(g1, h);
    GrowthOwned(g, h, n, Mid(q), a);
    assert IsIndexBlock(h, n, a);
    assert Live(h, n, Double) == b;
    assert IsIndexBlock(h, n, b);
  }

  /** Writing the leaf entry at last. */
  lemma LeafPut(g: Image, n: nat, i: nat, w: u32)
    requires Shape(g) && IndexOwned(g) && Allocated(g, n)
    requires MAX_DIRECT <= i < BLOCK_INDEX_MAX && Live(g, n, IndexOver(i)) != 0
    ensures Live(g, n, IndexOver(i)) < |g.disk|
    ensures var b := Live(g, n, IndexOver(i));
            var h := Poke(g, b, PutWord(g.disk[b], Offset(i), w));
            Grown(g, h, n) && MapUpdated(g, h, n, i, w) && IndexOwned(h)
  {
    hide Live, Marked, DecodeInode, PutWord, Under;
    var s := IndexOver(i);
    var b := Live(g, n, s);
    PutLeaf(g, n, s, Offset(i), w);
    UnderIndex(s, Offset(i), i);
    var h := Poke(g, b, PutWord(g.disk[b], Offset(i), w));
    SameMarks(g, h);
    assert Live(h, n, s) == b;
    assert IsIndexBlock(h, n, b);
    assert Marked(g, b);
    MarkedInPool(g, b);
  }

  lemma DirectPut(g: Image, n: nat, i: nat, w: u32)
    requires Shape(g) && IndexOwned(g) && Allocated(g, n) && i < MAX_DIRECT
    ensures var h := Flush(SetField(g, n, i, w), n);
            Grown(g, h, n) && MapUpdated(g, h, n, i, w) && IndexOwned(h)
  {
    hide Live, Marked, EncodeInode, DecodeInode;
    var g1 := SetField(g, n, i, w);
    PutDirect(g, n, i, w);
    SameMarks(g, g1);
    FlushEffect(g1, n);
    var h := Flush(g1, n);
    SameMarks(g1, h);
  }

  /** iblock_set's whole effect. */
  ghost predicate Assigned(g: Image, h: Image, n: nat, i: nat, lba: u32)
    requires Shape(g) && n < MAX_INODES
  {
    Grown(g, h, n) && MapUpdated(g, h, n, i, lba) && IndexOwned(h)
  }

  lemma GrownThenPut(g: Image, h: Image, k: Image, n: nat, i: nat, w: u32)
    requires Shape(g) && n < MAX_INODES
    requires Grown(g, h, n) && SameData(g, h)
    requires Assigned(h, k, n, i, w)
    ensures Assigned(g, k, n, i, w)
  {
    GrownTrans(g, h, k, n);
    hide Live, Grown;
  }

  /** inodes_rw_disk, ATA_CMD_IO_WRITE */
  method InodeWrite(v: Volume, n: nat)
    requires v.Valid() && n < MAX_INODES
    modifies v.disk
    ensures v.Valid() && v.View() == Flush(old(v.View()), n)
  {
    v.WriteSector(BASE_INODES + n, EncodeInode(v.inodes[n]));
  }

  /** inode->iblocks_[k] = w */
  method FieldSet(v: Volume, n: nat, k: nat, w: u32)
    requires v.Valid() && n < MAX_INODES && k < MAX_INODE_BLOCKS
    modifies v.inodes
    ensures v.Valid() && v.View() == SetField(old(v.View()), n, k, w)
  {
    v.inodes[n] := v.inodes[n].(blocks := v.inodes[n].blocks[k := w]);
  }

  /**
    free_allocate and free_map_setup in a row. None is the panic, or a block past the disk's end:
    no sector there can be read or written.
   */
  method AllocateAndMark(v: Volume) returns (r: Option<u32>)
    requires v.Valid()
    modifies v.freeMap, v.freeMap.buff
    ensures v.Valid()
    ensures r.None? <==> Refused(old(v.View()), old(v.freeMap.prevFree))
    ensures r.None? ==> NoRoom(v.View()) && v.View() == old(v.View())
    ensures r.Some? ==>
      && InPool(v.View(), r.value)
      && FirstClear(old(v.View()).free, MAP_FREE_BITS, old(v.freeMap.prevFree), r.value - LBA_FREE)
      && v.freeMap.prevFree == (r.value - LBA_FREE + 1) % MAP_FREE_BITS
      && !Marked(old(v.View()), r.value)
      && v.View() == Mark(old(v.View()), r.value, true)
  {
    hide RunsPast, PoolFull, NoRoom, Bit;
    ghost var cursor := v.freeMap.prevFree;
    r := FreeAllocate(v);
    if r.Some? && r.value < v.disk.Length {
      FreeMapSetup(v, r.value, true);
    } else {
      r := None;
      RefusedNoRoom(v.View(), cursor);
    }
  }

  /** The same, counting the free blocks that are left ahead of the cursor. */
  method TakeBlock(v: Volume) returns (r: Option<u32>)
    requires v.Valid()
    modifies v.freeMap, v.freeMap.buff
    ensures v.Valid()
    ensures r.None? <==> Refused(old(v.View()), old(v.freeMap.prevFree))
    ensures r.None? ==> NoRoom(v.View()) && v.View() == old(v.View())
    ensures r.Some? ==>
      && InPool(v.View(), r.value)
      && FirstClear(old(v.View()).free, MAP_FREE_BITS, old(v.freeMap.prevFree), r.value - LBA_FREE)
      && v.freeMap.prevFree == (r.value - LBA_FREE + 1) % MAP_FREE_BITS
      && !Marked(old(v.View()), r.value)
      && v.View() == Mark(old(v.View()), r.value, true)
    ensures 0 < old(BlocksAhead(v)) ==> r.Some?
    ensures old(BlocksAhead(v)) <= BlocksAhead(v) + 1
  {
    hide Refused, NoRoom, Marked, WithBit, Bit, ClearFrom, DiskBits, FirstClear;
    ghost var g, cursor := v.View(), v.freeMap.prevFree;
    if 0 < BlocksAhead(v) {
      AheadNotRefused(g, cursor);
    }
    r := AllocateAndMark(v);
    if r.Some? {
      AheadMarked(g, cursor, r.value);
    }
  }

  /** Logical block i cannot be set before its index block is allocated. */
  predicate NeedsIndex(g: Image, n: nat, i: nat) {
    MAX_DIRECT <= i && Live(g, n, IndexOver(i)) == 0
  }

  /** What a loaded index block must satisfy: with its buffer written back, n's index has grown to hold it. */
  ghost predicate Loaded(g: Image, h: Image, n: nat, s: Slot, level: u32, buf: Sector)
    requires Shape(g) && n < MAX_INODES
  {
    && level < |h.disk|
    && Grown(g, Poke(h, level, buf), n) && SameData(g, Poke(h, level, buf)) && IndexOwned(Poke(h, level, buf))
    && level != 0 && Live(Poke(h, level, buf), n, s) == level
  }

  lemma LoadedAlready(g: Image, n: nat, s: Slot)
    requires Shape(g) && IndexOwned(g) && n < MAX_INODES && !s.Data? && Live(g, n, s) != 0
    ensures Live(g, n, s) < |g.disk|
    ensures Loaded(g, g, n, s, Live(g, n, s), g.disk[Live(g, n, s)])
  {
    hide Live, Marked, OnDisk;
    var b := Live(g, n, s);
    assert Marked(g, b);
    MarkedInPool(g, b);
    assert Poke(g, b, g.disk[b]) == g;
  }

  /** The single-indirect block of n and its contents; a missing one is allocated and starts as zeros. */
  method LoadSingle(v: Volume, n: nat) returns (ok: bool, level: u32, buf: Sector)
    requires v.Valid() && IndexOwned(v.View()) && Allocated(v.View(), n)
    modifies v.disk, v.inodes, v.freeMap, v.freeMap.buff
    ensures v.Valid()
    ensures ok ==> Loaded(old(v.View()), v.View(), n, Single, level, buf)
    ensures Live(old(v.View()), n, Single) != 0 ==> v.View().free == old(v.View()).free
    ensures !ok ==> NoRoom(v.View())
    ensures 1 <= old(BlocksAhead(v)) ==> ok
    ensures old(BlocksAhead(v)) <= BlocksAhead(v) + 1
  {
    hide Grown, SameData, IndexOwned, EncodeInode, Bit, WithBit, Marked, ClearFrom;
    ghost var g := v.View();
    level := v.inodes[n].blocks[SINGLE_INDEX];
    assert level == Live(g, n, Single);
    ok := true;
    if level == 0 {
      var a := TakeBlock(v);
      if a.None? {
        return false, 0, ZeroSector();
      }
      level := a.value;
      FieldSet(v, n, SINGLE_INDEX, level);
      InodeWrite(v, n);
      buf := ZeroSector();
      SingleGrows(g, n, level);
      assert Poke(v.View(), level, buf).disk == AddSingle(g, n, level).disk;
      assert Poke(v.View(), level, buf) == AddSingle(g, n, level);
    } else {
      LoadedAlready(g, n, Single);
      buf := v.ReadSector(level);
    }
  }

  /** The double-indirect block of n and its contents; a missing one is allocated and starts as zeros. */
  method LoadDouble(v: Volume, n: nat) returns (ok: bool, level: u32, buf: Sector)
    requires v.Valid() && IndexOwned(v.View()) && Allocated(v.View(), n)
    modifies v.disk, v.inodes, v.freeMap, v.freeMap.buff
    ensures v.Valid()
    ensures ok ==> Loaded(old(v.View()), v.View(), n, Double, level, buf)
    ensures Live(old(v.View()), n, Double) != 0 ==>
      ok && v.View() == old(v.View()) && level == Live(v.View(), n, Double) && buf == v.View().disk[level]
    ensures ok ==> buf == ZeroSector() || v.View().disk[level] == buf
    ensures !ok ==> NoRoom(v.View())
    ensures 1 <= old(BlocksAhead(v)) ==> ok
    ensures old(BlocksAhead(v)) <= BlocksAhead(v) + 1
  {
    hide Grown, SameData, IndexOwned, EncodeInode, Bit, WithBit, Marked, ClearFrom;
    ghost var g := v.View();
    level := v.inodes[n].blocks[DOUBLE_INDEX];
    assert level == Live(g, n, Double);
    ok := true;
    if level == 0 {
      var a := TakeBlock(v);
      if a.None? {
        return false, 0, ZeroSector();
      }
      level := a.value;
      FieldSet(v, n, DOUBLE_INDEX, level);
      InodeWrite(v, n);
      buf := ZeroSector();
      DoubleGrows(g, n, level);
      assert Poke(v.View(), level, buf).disk == AddDouble(g, n, level).disk;
      assert Poke(v.View(), level, buf) == AddDouble(g, n, level);
    } else {
      LoadedAlready(g, n, Double);
      buf := v.ReadSector(level);
    }
  }

  /** The block at entry q of the double-indirect block (level2, buf2); a missing one is allocated. */
  method LoadMid(v: Volume, ghost g: Image, n: nat, q: nat, level2: u32, buf2: Sector)
    returns (ok: bool, level: u32, buf: Sector)
    requires v.Valid() && n < MAX_INODES && q < LBAS_PER_SECTOR
    requires Shape(g) && Loaded(g, v.View(), n, Double, level2, buf2) && Allocated(g, n)
    requires buf2 == ZeroSector() || v.View().disk[level2] == buf2
    modifies v.disk, v.inodes, v.freeMap, v.freeMap.buff
    ensures v.Valid()
    ensures ok ==> Loaded(g, v.View(), n, Mid(q), level, buf)
    ensures GetWord(buf2, q) != 0 ==> v.View().free == old(v.View()).free
    ensures !ok ==> NoRoom(v.View())
    ensures 1 <= old(BlocksAhead(v)) ==> ok
    ensures old(BlocksAhead(v)) <= BlocksAhead(v) + 1
  {
    hide Grown, SameData, IndexOwned, Bit, WithBit, Marked, PutWord, GetWord, ClearFrom;
    ghost var g0 := v.View();
    ghost var h := Poke(g0, level2, buf2);
    GrownAllocated(g, h, n);
    level := GetWord(buf2, q);
    assert level == Live(h, n, Mid(q));
    ok := true;
    if level == 0 {
      var a := TakeBlock(v);
      if a.None? {
        return false, 0, ZeroSector();
      }
      level := a.value;
      v.WriteSector(level2, PutWord(buf2, q, level));
      buf := ZeroSector();
      SameMarks(g0, h);
      MidGrows(h, n, q, level);
      assert Poke(v.View(), level, buf).disk == AddMid(h, n, q, level).disk;
      assert Poke(v.View(), level, buf) == AddMid(h, n, q, level);
      LoadedTrans(g, h, v.View(), n, Mid(q), level, buf);
    } else {
      ZeroWord(q);
      assert h == g0;
      LoadedAlready(h, n, Mid(q));
      buf := v.ReadSector(level);
      LoadedTrans(g, h, v.View(), n, Mid(q), level, buf);
    }
  }

  lemma MidIsWord(g: Image, n: nat, q: nat)
    requires Allocated(g, n) && Live(g, n, Double) != 0 && q < LBAS_PER_SECTOR
    ensures Live(g, n, Mid(q)) == GetWord(Sec(g, Live(g, n, Double)), q)
  {
    hide GetWord, Sec, Bit;
  }

  lemma GrownAllocated(g: Image, h: Image, n: nat)
    requires Shape(g) && Allocated(g, n) && Grown(g, h, n)
    ensures Shape(h) && Allocated(h, n)
  {
    hide Live, Sec, Marked, OnDisk, Bit;
  }

  lemma MidNeedsDouble(g: Image, n: nat, i: nat)
    requires LEVEL1_BORDER <= i
    ensures Live(g, n, IndexOver(i)) != 0 ==> Live(g, n, Double) != 0
  {
  }

  lemma LoadedTrans(g: Image, h: Image, k: Image, n: nat, s: Slot, level: u32, buf: Sector)
    requires Shape(g) && Shape(h) && n < MAX_INODES
    requires Grown(g, h, n) && SameData(g, h) && Loaded(h, k, n, s, level, buf)
    ensures Loaded(g, k, n, s, level, buf)
  {
    GrownTrans(g, h, Poke(k, level, buf), n);
    hide Live, Grown;
  }

  /** The index block that lists logical block i, and its contents, allocating what is missing on the way. */
  method LoadParent(v: Volume, n: nat, i: nat) returns (ok: bool, level: u32, buf: Sector)
    requires v.Valid() && IndexOwned(v.View()) && Allocated(v.View(), n)
    requires MAX_DIRECT <= i < BLOCK_INDEX_MAX
    modifies v.disk, v.inodes, v.freeMap, v.freeMap.buff
    ensures v.Valid()
    ensures ok ==> Loaded(old(v.View()), v.View(), n, IndexOver(i), level, buf)
    ensures !NeedsIndex(old(v.View()), n, i) ==> v.View().free == old(v.View()).free
    ensures !ok ==> NoRoom(v.View())
    ensures 2 <= old(BlocksAhead(v)) ==> ok
    ensures old(BlocksAhead(v)) <= BlocksAhead(v) + 2
  {
    hide Live, IndexOwned, Bit, Marked, GetWord, Grown, SameData, NoRoom, ClearFrom;
    ghost var g := v.View();
    if i < LEVEL1_BORDER {
      ok, level, buf := LoadSingle(v, n);
    } else {
      var level2, buf2;
      MidNeedsDouble(g, n, i);
      ok, level2, buf2 := LoadDouble(v, n);
      if !ok {
        return false, 0, ZeroSector();
      }
      if Live(g, n, Double) != 0 {
        MidIsWord(g, n, (i - LEVEL1_BORDER) / LBAS_PER_SECTOR);
      }
      ok, level, buf := LoadMid(v, g, n, (i - LEVEL1_BORDER) / LBAS_PER_SECTOR, level2, buf2);
    }
  }

  /**
    iblock_set(n, i, lba), that is iblock_handle without a read pointer.
    ok is false for the panic "no more free bits" on the way.
   */
  method IblockSet(v: Volume, n: nat, i: nat, lba: u32) returns (ok: bool)
    requires v.Valid() && IndexOwned(v.View())
    requires Allocated(v.View(), n) && i < BLOCK_INDEX_MAX && LBA_FREE <= lba
    modifies v.disk, v.inodes, v.freeMap, v.freeMap.buff
    ensures v.Valid()
    ensures ok ==> Assigned(old(v.View()), v.View(), n, i, lba)
    ensures !NeedsIndex(old(v.View()), n, i) ==> v.View().free == old(v.View()).free
    ensures !ok ==> NoRoom(v.View())
    ensures 2 <= old(BlocksAhead(v)) ==> ok
    ensures old(BlocksAhead(v)) <= BlocksAhead(v) + 2
  {
    hide Grown, SameData, IndexOwned, MapUpdated, Live, Bit, Marked, PutWord, EncodeInode, NoRoom, ClearFrom;
    ghost var g := v.View();
    if i < MAX_DIRECT {
      FieldSet(v, n, i, lba);
      InodeWrite(v, n);
      DirectPut(g, n, i, lba);
      return true;
    }
    var level, buf;
    ok, level, buf := LoadParent(v, n, i);
    if !ok {
      return;
    }
    ghost var h := Poke(v.View(), level, buf);
    v.WriteSector(level, PutWord(buf, Offset(i), lba));
    GrownAllocated(g, h, n);
    LeafPut(h, n, i, lba);
    assert v.View() == Poke(h, level, PutWord(h.disk[level], Offset(i), lba));
    GrownThenPut(g, h, v.View(), n, i, lba);
  }

  /** iblock_get(n, i), that is iblock_handle with a read pointer: 0 when there is no block. Nothing changes. */
  method IblockGet(v: Volume, n: nat, i: nat) returns (lba: u32)
    requires v.Valid() && IndexOwned(v.View())
    requires Allocated(v.View(), n) && i < BLOCK_INDEX_MAX
    ensures lba == Live(v.View(), n, Data(i))
  {
    hide Bit, GetWord;
    ghost var g := v.View();
    if i < MAX_DIRECT {
      return v.inodes[n].blocks[i];
    }
    var buf: Sector;
    if i < LEVEL1_BORDER {
      var level1 := v.inodes[n].blocks[SINGLE_INDEX];
      if level1 == 0 {
        buf := ZeroSector();
        ZeroWord(i - MAX_DIRECT);
      } else {
        LoadedAlready(g, n, Single);
        buf := v.ReadSector(level1);
      }
      lba := GetWord(buf, i - MAX_DIRECT);
    } else {
      var level2 := v.inodes[n].blocks[DOUBLE_INDEX];
      if level2 == 0 {
        buf := ZeroSector();
      } else {
        LoadedAlready(g, n, Double);
        buf := v.ReadSector(level2);
      }
      var q, r := (i - LEVEL1_BORDER) / LBAS_PER_SECTOR, (i - LEVEL1_BORDER) % LBAS_PER_SECTOR;
      ZeroWord(q);
      var level1 := GetWord(buf, q);
      assert level1 == Live(g, n, Mid(q));
      if level1 == 0 {
        buf := ZeroSector();
        ZeroWord(r);
      } else {
        LoadedAlready(g, n, Mid(q));
        buf := v.ReadSector(level1);
      }
      lba := GetWord(buf, r);
    }
  }

  /** When the index block was missing, iblock_set took one from the pool. */
  lemma AssignedTakes(g: Image, h: Image, n: nat, i: nat, lba: u32)
    requires Shape(g) && n < MAX_INODES && Assigned(g, h, n, i, lba)
    requires lba != 0 && NeedsIndex(g, n, i) && Allocated(g, n)
    ensures h.free != g.free
  {
    hide OnDisk, Bit, GetWord;
    assert Live(h, n, Data(i)) == lba;
    assert Live(h, n, IndexOver(i)) != 0;
  }
}
