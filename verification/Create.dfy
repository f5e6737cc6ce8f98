/** kern/fs/dir.c, diritem_create: a new inode with its first block. */
module Create {
  import opened Bytes
  import opened Bitmaps
  import opened CStrings
  import opened Dirs
  import opened Free
  import opened Images
  import opened Inodes
  import opened Layout
  import opened Ownership
  import opened Volumes
  import opened Wrappers

  /** What inode_set leaves in the table. */
  function FreshInode(size: u32, a: u32): Inode {
    Inode(size, [a, 0, 0, 0, 0, 0, 0, 0])
  }

  /** Inode n comes into being with first block a; its record and the inode map are on disk. */
  ghost predicate Born(g: Image, h: Image, n: nat, a: u32, size: u32)
    requires Shape(g)
  {
    && n < MAX_INODES && !Allocated(g, n)
    && InPool(g, a) && !Marked(g, a)
    && Shape(h) && |h.disk| == |g.disk|
    && h.used == WithBit(g.used, n, true)
    && h.free == Mark(g, a, true).free
    && h.inodes == g.inodes[n := FreshInode(size, a)]
    && h.disk[BASE_MAP_INODES] == h.used
    && h.disk[BASE_INODES + n] == EncodeInode(h.inodes[n])
    && (forall l: nat | BASE_INODES <= l < BASE_MAP_FREE && l != BASE_INODES + n :: h.disk[l] == g.disk[l])
    && (forall l: nat | LBA_FREE <= l && l != a :: Sec(h, l) == Sec(g, l))
  }

  lemma FreshRefs(h: Image, n: nat, a: u32, size: u32, s: Slot)
    requires Shape(h) && n < MAX_INODES && h.inodes[n] == FreshInode(size, a) && Allocated(h, n)
    ensures Live(h, n, s) == if s == Data(0) then a else 0
  {
    hide Bit, GetWord;
    assert forall u: Slot :: IndexRef(h, n, u) == 0;
    match s
    case Data(i) =>
      if i < MAX_DIRECT {
        assert Field(h, n, i) == if i == 0 then a else 0;
      }
    case _ =>
  }

  lemma BornRefs(g: Image, h: Image, n: nat, a: u32, size: u32)
    requires Consistent(g) && Born(g, h, n, a, size)
    ensures forall m: nat :: Allocated(h, m) == (m == n || Allocated(g, m))
    ensures forall m: nat, s: Slot | m != n :: Live(h, m, s) == Live(g, m, s)
    ensures forall s: Slot :: Live(h, n, s) == if s == Data(0) then a else 0
    ensures forall l: nat :: Marked(h, l) == (l == a || Marked(g, l))
  {
    hide Bit, WithBit, GetWord, EncodeInode, InodesSynced;
    WithBitEffect(g.used, n, true);
    MarkEffect(g, a, true);
    assert forall l: nat :: Marked(h, l) == Marked(Mark(g, a, true), l);
    forall s: Slot
      ensures Live(h, n, s) == if s == Data(0) then a else 0
    {
      FreshRefs(h, n, a, size, s);
    }
    forall m: nat, s: Slot | m != n
      ensures Live(h, m, s) == Live(g, m, s)
    {
      if Allocated(g, m) {
        forall u: Slot | IndexRef(g, m, u) != 0
          ensures Sec(h, IndexRef(g, m, u)) == Sec(g, IndexRef(g, m, u))
        {
          assert Live(g, m, u) == IndexRef(g, m, u);
          assert Marked(g, Live(g, m, u));
        }
        RefFrame(g, h, m, s);
      }
    }
  }

  lemma BornKeeps(g: Image, h: Image, n: nat, a: u32, size: u32)
    requires Consistent(g) && Born(g, h, n, a, size)
    ensures Consistent(h) && OthersKept(g, h, n) && Allocated(h, n) && SameLeaks(g, h)
    ensures forall s: Slot :: Live(h, n, s) == if s == Data(0) then a else 0
  {
    hide Bit, WithBit, EncodeInode, DecodeInode, Live, Marked, Sec;
    BornRefs(g, h, n, a, size);
    assert Owned(h);
    BornLeaksNothing(g, h, n, a);
    InodeRoundTrip(h.inodes[n]);
    forall m: nat | m < MAX_INODES && Allocated(h, m)
      ensures OnDisk(h, m)
    {
      if m != n {
        assert Allocated(g, m) && OnDisk(g, m);
      }
    }
    forall m: nat, s: Slot | m != n && Live(g, m, s) != 0
      ensures Sec(h, Live(g, m, s)) == Sec(g, Live(g, m, s))
    {
      assert Marked(g, Live(g, m, s));
      MarkedInPool(g, Live(g, m, s));
    }
  }

  lemma BornLeaksNothing(g: Image, h: Image, n: nat, a: u32)
    requires !Allocated(g, n) && !Marked(g, a) && a != 0
    requires forall m: nat, s: Slot | m != n :: Live(h, m, s) == Live(g, m, s)
    requires forall s: Slot :: Live(h, n, s) == if s == Data(0) then a else 0
    requires forall l: nat :: Marked(h, l) == (l == a || Marked(g, l))
    ensures SameLeaks(g, h)
  {
    assert forall s: Slot :: Live(g, n, s) == 0;
    MarksAreData(g);
    hide Live, Marked, Allocated;
    assert Live(h, n, Data(0)) == a;
    GrowthLeaksNothing(g, h);
  }

  /** The name field that diritem_set fills from a C string. */
  function NameOf(s: seq<u8>): Name
    requires |s| < DIRITEM_NAME_LEN
  {
    s + seq(DIRITEM_NAME_LEN - |s|, _ => 0)
  }

  lemma NameOfIs(s: seq<u8>)
    requires |s| < DIRITEM_NAME_LEN && 0 !in s
    ensures CStr(NameOf(s)) == s
  {
    CStrOf(s, NameOf(s));
  }

  const DOT: seq<u8> := [46]
  const DOTDOT: seq<u8> := [46, 46]

  /** dirblock_get_new: the block of an empty directory. */
  function NewDirBlock(self: u32, parent: u32): Sector {
    PutItem(PutItem(ZeroSector(), 0, DirItem(TYPE_DIR, self, NameOf(DOT))),
            1, DirItem(TYPE_DIR, parent, NameOf(DOTDOT)))
  }

  lemma NewDirEntries(h: Image, n: nat, parent: u32)
    requires n < |h.inodes| && n < MAX_INODES && h.inodes[n].size == 2
    requires Live(h, n, Data(0)) != 0 && Sec(h, Live(h, n, Data(0))) == NewDirBlock(n, parent)
    requires forall i: nat | 0 < i :: Live(h, n, Data(i)) == 0
    ensures DirOk(h, n) && Blank(h, n)
    ensures Entries(h, n) == [DirItem(TYPE_DIR, n, NameOf(DOT)), DirItem(TYPE_DIR, parent, NameOf(DOTDOT))]
  {
    hide Live, Sec, GetItem, PutItem;
    assert DirOk(h, n);
    EntriesAre(h, n);
    var first := DirItem(TYPE_DIR, n, NameOf(DOT));
    var second := DirItem(TYPE_DIR, parent, NameOf(DOTDOT));
    var s1 := PutItem(ZeroSector(), 0, first);
    PutGetItem(ZeroSector(), 0, first, 0);
    PutGetItem(s1, 1, second, 0);
    PutGetItem(s1, 1, second, 1);
    assert Entries(h, n)[0] == EntryAt(h, n, 0);
    assert Entries(h, n)[1] == EntryAt(h, n, 1);
    forall e: nat | 2 <= e && Live(h, n, Data(e / PER_BLOCK)) != 0
      ensures EntryAt(h, n, e).kind == TYPE_INVALID
    {
      PutGetItem(ZeroSector(), 0, first, e);
      PutGetItem(s1, 1, second, e);
      ZeroItem(e);
    }
  }

  /** inode_allocate and inode_map_setup in a row; None is the panic "no more free bits". */
  method TakeInode(v: Volume) returns (r: Option<nat>)
    requires v.Valid()
    modifies v.usedMap, v.usedMap.buff
    ensures v.Valid()
    ensures r.None? <==> forall n: nat | n < MAX_INODES :: Allocated(old(v.View()), n)
    ensures r.None? ==> v.View() == old(v.View())
    ensures r.Some? ==>
      && r.value < MAX_INODES && !Allocated(old(v.View()), r.value)
      && FirstClear(old(v.View()).used, MAX_INODES, old(v.usedMap.prevFree), r.value)
      && v.View() == old(v.View()).(used := WithBit(old(v.View()).used, r.value, true))
  {
    hide Bit, WithBit;
    ghost var g := v.View();
    assert forall n: nat | n < MAX_INODES :: Allocated(g, n) == Bit(g.used, n);
    r := v.usedMap.ScanEmpty();
    if r.Some? {
      v.usedMap.Set(r.value);
    }
  }

  /** inode_set */
  method InodeSet(v: Volume, n: nat, size: u32, a: u32)
    requires v.Valid() && n < MAX_INODES
    modifies v.inodes
    ensures v.Valid()
    ensures v.View() == old(v.View()).(inodes := old(v.View()).inodes[n := FreshInode(size, a)])
  {
    v.inodes[n] := FreshInode(size, a);
  }

  /** inode_map_update */
  method InodeMapUpdate(v: Volume)
    requires v.Valid()
    modifies v.disk
    ensures v.Valid() && v.View() == Poke(old(v.View()), BASE_MAP_INODES, old(v.View()).used)
  {
    v.WriteSector(BASE_MAP_INODES, v.usedMap.buff[..]);
  }

  /** diritem_create's outcome for the item it returns. */
  ghost predicate Created(g: Image, h: Image, di: DirItem, kind: u32, name: seq<u8>, parent: u32)
    requires Shape(g)
  {
    var n := di.inode;
    && |name| < DIRITEM_NAME_LEN && n < MAX_INODES
    && di == DirItem(kind, n, NameOf(name))
    && !Allocated(g, n) && Allocated(h, n)
    && Consistent(h) && OthersKept(g, h, n)
    && Live(h, n, Data(0)) != 0 && SameLeaks(g, h)
    && (kind == TYPE_FILE ==> h.inodes[n].size == 0)
    && (kind == TYPE_DIR ==>
          && h.inodes[n].size == 2 && DirOk(h, n) && Blank(h, n)
          && Entries(h, n) == [DirItem(TYPE_DIR, n, NameOf(DOT)), DirItem(TYPE_DIR, parent, NameOf(DOTDOT))])
  }

  /** diritem_create's type-dependent middle: a directory's first block is written and the free map flushed. */
  method InitBlock(v: Volume, kind: u32, n: nat, a: u32, parent: u32)
    requires v.Valid() && n < MAX_INODES && Marked(v.View(), a)
    modifies v.disk
    ensures v.Valid() && v.View() == old(v.View()).(disk := v.View().disk)
    ensures forall l: nat | l < BASE_MAP_FREE || (LBA_FREE <= l && l != a) :: Sec(v.View(), l) == Sec(old(v.View()), l)
    ensures kind == TYPE_DIR ==> FreeSynced(v.View()) && Sec(v.View(), a) == NewDirBlock(n, parent)
    ensures kind != TYPE_DIR ==> v.View() == old(v.View())
  {
    hide Bit, NewDirBlock;
    if kind == TYPE_DIR {
      FreeWrite(v, a, NewDirBlock(n, parent));
      FreeMapUpdate(v);
    }
  }

  /** The image before the inode record and the inode map are flushed. */
  ghost predicate Prepared(g: Image, g5: Image, n: nat, a: u32, size: u32)
    requires Shape(g)
  {
    && n < MAX_INODES && !Allocated(g, n)
    && InPool(g, a) && !Marked(g, a)
    && Shape(g5) && |g5.disk| == |g.disk|
    && g5.used == WithBit(g.used, n, true) && g5.free == Mark(g, a, true).free
    && g5.inodes == g.inodes[n := FreshInode(size, a)]
    && forall l: nat | l < BASE_MAP_FREE || (LBA_FREE <= l && l != a) :: Sec(g5, l) == Sec(g, l)
  }

  /** inodes_rw_disk and inode_map_update at the end. */
  function Flushed(g5: Image, n: nat): Image
    requires Shape(g5) && n < MAX_INODES
  {
    Poke(Flush(g5, n), BASE_MAP_INODES, g5.used)
  }

  lemma FlushedIsBorn(g: Image, g5: Image, n: nat, a: u32, size: u32)
    requires Shape(g) && Prepared(g, g5, n, a, size)
    ensures Born(g, Flushed(g5, n), n, a, size)
  {
    hide Bit, WithBit, EncodeInode;
    var h := Flushed(g5, n);
    forall l: nat | BASE_INODES <= l < BASE_MAP_FREE && l != BASE_INODES + n
      ensures h.disk[l] == g.disk[l]
    {
      assert Sec(g5, l) == Sec(g, l);
    }
    forall l: nat | LBA_FREE <= l && l != a
      ensures Sec(h, l) == Sec(g, l)
    {
      assert Sec(g5, l) == Sec(g, l);
    }
  }

  /** The block of a new file is not in the map on disk. */
  lemma NewFileNotCovered(g: Image, h: Image, n: nat)
    requires Shape(g) && Shape(h) && |h.disk| == |g.disk| && MapBehind(g) && SameMapOnDisk(g, h)
    requires Live(h, n, Data(0)) != 0 && !Marked(g, Live(h, n, Data(0)))
    ensures !Covered(h)
  {
    NotDiskMarked(g, h, Live(h, n, Data(0)));
    hide Live, DiskMarked, Marked;
  }

  /** The first block of the new inode. */
  lemma FirstBlock(g: Image, g5: Image, n: nat, a: u32, size: u32)
    requires Shape(g) && Prepared(g, g5, n, a, size)
    ensures Live(Flushed(g5, n), n, Data(0)) == a
    ensures SameMapOnDisk(g5, Flushed(g5, n))
  {
    WithBitEffect(g.used, n, true);
    hide Bit, EncodeInode, WithBit;
  }

  lemma FlushedMap(g: Image, g5: Image, n: nat, a: u32, size: u32)
    requires Shape(g) && Prepared(g, g5, n, a, size)
    ensures FreeSynced(g5) ==> FreeSynced(Flushed(g5, n))
    ensures forall l: nat | Marked(g, l) :: Marked(Flushed(g5, n), l)
  {
    hide Bit, WithBit, EncodeInode;
    MarkEffect(g, a, true);
    forall l: nat | Marked(g, l)
      ensures Marked(Flushed(g5, n), l)
    {
      assert Marked(Mark(g, a, true), l);
    }
  }

  /**
    diritem_create. A directory leaves the free map on disk current; a plain file never does,
    because its branch marks a block without flushing the map.
   */
  method DiritemCreate(v: Volume, kind: u32, name: seq<u8>, parent: u32) returns (ok: bool, di: DirItem)
    requires v.Valid() && Consistent(v.View())
    requires kind == TYPE_FILE || kind == TYPE_DIR
    requires |name| < DIRITEM_NAME_LEN
    modifies v.disk, v.inodes, v.freeMap, v.freeMap.buff, v.usedMap, v.usedMap.buff
    ensures v.Valid()
    ensures ok ==> Created(old(v.View()), v.View(), di, kind, name, parent)
    ensures ok ==> FirstClear(old(v.View()).used, MAX_INODES, old(v.usedMap.prevFree), di.inode)
    ensures ok && kind == TYPE_DIR ==> FreeSynced(v.View())
    ensures ok && kind == TYPE_FILE && MapBehind(old(v.View())) ==> !FreeSynced(v.View()) && !Covered(v.View())
    ensures ok && MapBehind(old(v.View())) ==> MapBehind(v.View())
    ensures ok && kind == TYPE_FILE ==> SameMapOnDisk(old(v.View()), v.View())
    ensures ok ==> !Marked(old(v.View()), Live(v.View(), di.inode, Data(0)))
    ensures ok ==>
      var b := Live(v.View(), di.inode, Data(0));
      && InPool(old(v.View()), b)
      && FirstClear(old(v.View()).free, MAP_FREE_BITS, old(v.freeMap.prevFree), b - LBA_FREE)
      && v.freeMap.prevFree == (b - LBA_FREE + 1) % MAP_FREE_BITS
      && v.View().free == WithBit(old(v.View()).free, b - LBA_FREE, true)
    ensures !ok ==>
      || Refused(old(v.View()), old(v.freeMap.prevFree))
      || forall n: nat | n < MAX_INODES :: Allocated(old(v.View()), n)
    ensures old(BlocksAhead(v)) <= BlocksAhead(v) + 1
    ensures !ok ==> old(BlocksAhead(v)) == 0 || forall n: nat | n < MAX_INODES :: Allocated(old(v.View()), n)
  {
    hide Bit, WithBit, EncodeInode, Live, NewDirBlock, Consistent, Entries, DirOk, Blank, CStr, FreeSynced, MapBehind,
         Covered, FirstClear, Sec, ClearFrom, DiskBits;
    ghost var g := v.View();
    ConsistentShape(g);
    di := DirItem(kind, 0, NameOf(name));
    var t := TakeInode(v);
    if t.None? {
      return false, di;
    }
    var n := t.value;
    di := DirItem(kind, n, NameOf(name));
    var r := TakeBlock(v);
    if r.None? {
      return false, di;
    }
    var a := r.value;
    var size := if kind == TYPE_FILE then 0 else 2;
    InodeSet(v, n, size, a);
    MarkEffect(g, a, true);
    assert Marked(v.View(), a) == Marked(Mark(g, a, true), a);
    SameSectors(g, v.View());
    InitBlock(v, kind, n, a, parent);
    ghost var g5 := v.View();
    assert Prepared(g, g5, n, a, size);
    InodeWrite(v, n);
    InodeMapUpdate(v);
    assert v.View() == Flushed(g5, n);
    FlushedMap(g, g5, n, a, size);
    FirstBlock(g, g5, n, a, size);
    CreateDone(g, g5, di, kind, name, parent, a, size);
    CreatedBehind(g, v.View(), di, kind, name, parent);
    ok := true;
  }

  /** The free map after a creation, if the one on disk was behind before. */
  lemma CreatedBehind(g: Image, h: Image, di: DirItem, kind: u32, name: seq<u8>, parent: u32)
    requires Shape(g) && Created(g, h, di, kind, name, parent) && |h.disk| == |g.disk|
    requires forall l: nat | Marked(g, l) :: Marked(h, l)
    requires if kind == TYPE_DIR then FreeSynced(h) else SameMapOnDisk(g, h)
    requires !Marked(g, Live(h, di.inode, Data(0)))
    ensures MapBehind(g) ==> MapBehind(h)
    ensures MapBehind(g) && kind != TYPE_DIR ==> !FreeSynced(h) && !Covered(h)
  {
    hide Live, Marked, Entries, DirOk, Blank, FreeSynced, Covered, MapBehind, InodesSynced;
    if kind == TYPE_DIR {
      SyncedBehind(h);
    } else if MapBehind(g) {
      BehindKept(g, h);
      NewFileNotCovered(g, h, di.inode);
      if FreeSynced(h) {
        SyncedCovers(h);
      }
    }
  }

  lemma CreateDone(g: Image, g5: Image, di: DirItem, kind: u32, name: seq<u8>, parent: u32, a: u32, size: u32)
    requires Consistent(g) && |name| < DIRITEM_NAME_LEN && di == DirItem(kind, di.inode, NameOf(name))
    requires Prepared(g, g5, di.inode, a, size)
    requires if kind == TYPE_DIR then size == 2 && Sec(g5, a) == NewDirBlock(di.inode, parent)
             else kind == TYPE_FILE && size == 0
    ensures Created(g, Flushed(g5, di.inode), di, kind, name, parent)
  {
    hide Bit, WithBit, EncodeInode, Live, NewDirBlock, Consistent, Entries, DirOk, Blank, CStr;
    var n := di.inode;
    var h := Flushed(g5, n);
    ConsistentShape(g);
    FlushedIsBorn(g, g5, n, a, size);
    BornKeeps(g, h, n, a, size);
    if kind == TYPE_DIR {
      assert Sec(h, a) == Sec(g5, a);
      NewDirEntries(h, n, parent);
    }
  }
}
