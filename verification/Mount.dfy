/** kern/fs/inodes.c, setup_inode, and kern/module/fs.c: bringing the file system up on a new or an old disk. */
module Mount {
  import opened Bytes
  import opened Bitmaps
  import opened CStrings
  import opened Create
  import opened Dirs
  import opened Files
  import opened Free
  import opened Images
  import opened Inodes
  import opened Layout
  import opened Ownership
  import opened Paths
  import opened Tree
  import opened Volumes

  /** __fs_inodes as setup_inode(false) fills it. */
  function LoadedInode(disk: seq<Sector>, used: seq<u8>, n: nat): Inode
    requires REQUIRED_SECTORS <= |disk| && n < MAX_INODES
  {
    if Bit(used, n) then DecodeInode(disk[BASE_INODES + n]) else EMPTY_INODE
  }

  /** setup_inode */
  method SetupInode(v: Volume, isNew: bool)
    requires v.Valid()
    modifies v.usedMap, v.usedMap.buff, v.inodes, v.disk
    ensures v.Valid() && v.View().free == old(v.View()).free && v.usedMap.prevFree == 0
    ensures v.View().disk[BASE_MAP_INODES] == v.View().used
    ensures isNew ==> forall n: nat :: !Allocated(v.View(), n)
    ensures forall l: nat | l < |v.View().disk| && (!isNew || l != BASE_MAP_INODES) ::
              v.View().disk[l] == old(v.View()).disk[l]
    ensures !isNew ==> forall n: nat | n < MAX_INODES ::
              v.View().inodes[n] == LoadedInode(v.View().disk, v.View().used, n)
  {
    hide Bit, DecodeInode;
    v.usedMap.Reset();
    forall n | 0 <= n < MAX_INODES {
      v.inodes[n] := EMPTY_INODE;
    }
    if isNew {
      v.WriteSectors(BASE_MAP_INODES, 1, v.usedMap.buff);
      assert v.disk[BASE_MAP_INODES + 0] == v.usedMap.buff[BYTES_SECTOR * 0..BYTES_SECTOR * 0 + BYTES_SECTOR];
      NoBits(v.usedMap.buff[..]);
    } else {
      v.ReadSectors(BASE_MAP_INODES, 1, v.usedMap.buff);
      assert v.disk[BASE_MAP_INODES + 0] == v.usedMap.buff[BYTES_SECTOR * 0..BYTES_SECTOR * 0 + BYTES_SECTOR];
      LoadInodes(v);
    }
    assert v.usedMap.buff[..] == v.usedMap.buff[0..BYTES_SECTOR];
  }

  lemma NoBits(bytes: seq<u8>)
    requires forall k | 0 <= k < |bytes| :: bytes[k] == 0
    ensures forall k: nat :: !Bit(bytes, k)
  {
    forall k: nat
      ensures !Bit(bytes, k)
    {
      if k / 8 < |bytes| {
        assert ToBits(bytes[k / 8]) == 0;
      }
    }
  }

  /** The loop of setup_inode(false). */
  method LoadInodes(v: Volume)
    requires v.Valid() && forall n | 0 <= n < MAX_INODES :: v.inodes[n] == EMPTY_INODE
    modifies v.inodes
    ensures forall n: nat | n < MAX_INODES :: v.inodes[n] == LoadedInode(v.disk[..], v.usedMap.buff[..], n)
  {
    hide Bit, DecodeInode;
    var i := 0;
    while i < MAX_INODES
      invariant 0 <= i <= MAX_INODES
      invariant forall n: nat | n < i :: v.inodes[n] == LoadedInode(v.disk[..], v.usedMap.buff[..], n)
      invariant forall n | i <= n < MAX_INODES :: v.inodes[n] == EMPTY_INODE
    {
      var on := v.usedMap.Test(i);
      if on {
        var sect := v.ReadSector(BASE_INODES + i);
        v.inodes[i] := DecodeInode(sect);
      }
      i := i + 1;
    }
  }

  /** Same disk, same inode map, same allocated inodes: nothing in use can tell the difference. */
  ghost predicate SameSystem(g: Image, h: Image) {
    && h.disk == g.disk && h.used == g.used && |h.inodes| == |g.inodes|
    && forall n: nat | Allocated(g, n) && n < |g.inodes| :: h.inodes[n] == g.inodes[n]
  }

  /** Every block keeps its place, every inode its copy on disk, and every file its bytes. */
  lemma SameSystemKeeps(g: Image, h: Image)
    requires Consistent(g) && Shape(h) && SameSystem(g, h)
    ensures SameRefs(g, h) && InodesSynced(h)
    ensures forall n: nat | n < |g.inodes| && Allocated(g, n) && Readable(g, n) ::
              Readable(h, n) && FileBytes(h, n) == FileBytes(g, n)
  {
    hide Bit, GetWord, DecodeInode;
    forall m: nat, t: Slot
      ensures Live(h, m, t) == Live(g, m, t)
    {
      if Allocated(g, m) {
        RefFrame(g, h, m, t);
      }
    }
    hide Live;
    forall n: nat | n < MAX_INODES && Allocated(h, n)
      ensures OnDisk(h, n)
    {
      assert Allocated(g, n) && OnDisk(g, n);
    }
    assert forall l: nat :: Sec(h, l) == Sec(g, l);
    hide Sec;
    forall n: nat | n < |g.inodes| && Allocated(g, n) && Readable(g, n)
      ensures Readable(h, n) && FileBytes(h, n) == FileBytes(g, n)
    {
    }
  }

  /** With the map read from disk, ownership holds exactly when that map showed every block in use. */
  lemma OwnedIffCovered(g: Image, h: Image)
    requires Owned(g) && Shape(g) && Shape(h) && h.disk == g.disk && SameRefs(g, h) && FreeSynced(h)
    ensures Owned(h) <==> Covered(g)
  {
    SyncedMarks(h);
    assert SameMapOnDisk(g, h);
    CoveredFrame(g, h);
    hide Live, Marked, DiskMarked, FreeSynced;
  }

  /** What the map on disk showed without need is lost after mounting, and nothing else. */
  lemma LeaksAfter(g: Image, h: Image)
    requires Shape(g) && Shape(h) && h.disk == g.disk && SameRefs(g, h) && FreeSynced(h)
    ensures forall l: nat :: Leaked(h, l) <==> DiskMarked(g, l) && !InUse(g, l)
  {
    SyncedMarks(h);
    SameSectors(g, h);
    assert forall l: nat :: DiskMarked(h, l) == DiskMarked(g, l) by {
      hide Bit;
    }
    hide Live, Marked, DiskMarked, FreeSynced;
    forall l: nat
      ensures InUse(h, l) <==> InUse(g, l)
    {
      SameUse(g, h, l);
    }
  }

  /**
    Mounting again: every block is back in its place and every file reads as before; the result
    is consistent exactly when the map on disk showed every block in use. If that map was
    current, the map in memory is the old one, too.
   */
  method Remount(v: Volume)
    requires v.Valid() && Consistent(v.View())
    modifies v.usedMap, v.usedMap.buff, v.freeMap, v.freeMap.buff, v.inodes, v.disk
    ensures v.Valid() && FreeSynced(v.View())
    ensures SameSystem(old(v.View()), v.View()) && SameRefs(old(v.View()), v.View())
    ensures Owned(v.View()) <==> Covered(old(v.View()))
    ensures forall l: nat :: Leaked(v.View(), l) <==> DiskMarked(old(v.View()), l) && !InUse(old(v.View()), l)
    ensures Consistent(v.View()) <==> Covered(old(v.View()))
    ensures FreeSynced(old(v.View())) ==> Covered(old(v.View())) && v.View().free == old(v.View()).free
    ensures FreeSynced(old(v.View())) ==> old(BlocksAhead(v)) <= BlocksAhead(v)
    ensures forall n: nat | n < MAX_INODES && Allocated(old(v.View()), n) && Readable(old(v.View()), n) ::
              Readable(v.View(), n) && FileBytes(v.View(), n) == FileBytes(old(v.View()), n)
  {
    hide Bit, Live, Sec, DecodeInode, Owned, FreeSynced, FileBytes, Readable, SameRefs, Covered;
    ghost var g := v.View();
    SetupInode(v, false);
    ghost var h1 := v.View();
    assert h1.disk == g.disk && h1.used == g.used;
    forall n: nat | Allocated(g, n) && n < MAX_INODES
      ensures h1.inodes[n] == g.inodes[n]
    {
      assert OnDisk(g, n);
    }
    SetupFreeMap(v, false);
    ghost var h := v.View();
    assert SameSystem(g, h);
    SameSystemKeeps(g, h);
    OwnedIffCovered(g, h);
    LeaksAfter(g, h);
    if FreeSynced(g) {
      SyncedCovers(g);
      FreeSyncedUnique(g, h);
      ClearMore(v.freeMap.buff[..], old(v.freeMap.prevFree), DiskBits(v.disk.Length));
    }
  }

  /**
    files_create and then a reboot, before anything else writes the free map: ownership holds
    exactly when the creation left the map on disk current, or nothing was created and it showed
    every block in use before. Otherwise a block in use comes back unmarked, and the pool can
    hand it out again.
   */
  method CreateThenRemount(v: Volume, ghost dirs: set<nat>, path: seq<u8>) returns (ok: bool, r: int)
    requires v.Valid() && Consistent(v.View()) && TreeOk(v.View(), dirs) && MapBehind(v.View())
    requires 1 <= |path| < DIRITEM_NAME_LEN && path[0] == SLASH && 0 !in path && Plain(Components(path))
    requires ParentIsDir(v.View(), path)
    modifies v.disk, v.inodes, v.freeMap, v.freeMap.buff, v.usedMap, v.usedMap.buff
    ensures v.Valid()
    ensures r == if Resolve(old(v.View()), Root(), Components(path)).Some? then -1 else 0
    ensures ok ==>
      (Owned(v.View()) <==> if r == -1 then Covered(old(v.View())) else MapStaysCurrent(old(v.View()), path))
    ensures !ok ==>
      || Refused(old(v.View()), old(v.freeMap.prevFree))
      || (NoRoom(v.View()) && ParentFull(old(v.View()), path))
      || forall n: nat | n < MAX_INODES :: Allocated(old(v.View()), n)
    ensures !ok ==> old(BlocksAhead(v)) < 4 || forall n: nat | n < MAX_INODES :: Allocated(old(v.View()), n)
  {
    hide Consistent, TreeOk, FreeSynced, MapBehind, Resolve, FileCreated, Entries, NoRoom, Comps, Owned, Covered,
         MapStaysCurrent, SameSystem, SameRefs, Readable, FileBytes, Bit;
    ghost var g := v.View();
    ok, r := FilesCreate(v, dirs, path);
    if ok {
      assert Consistent(v.View()) by {
        if r == 0 {
          ghost var it :| FileCreated(g, v.View(), dirs, path, it);
          CreatedConsistent(g, v.View(), dirs, path, it);
        }
      }
      Remount(v);
    }
  }

  lemma CreatedConsistent(g: Image, h: Image, dirs: set<nat>, path: seq<u8>, it: DirItem)
    requires FileCreated(g, h, dirs, path, it)
    ensures Consistent(h)
  {
    hide Consistent, TreeOk, Resolve, Comps;
  }

  /**
    kinit_fs on a new disk: both maps written empty, then the root directory created with
    parent -1. The result is consistent, its tree is the root alone, and both maps are on disk.
   */
  method Format(v: Volume) returns (ok: bool)
    requires v.Valid()
    modifies v.usedMap, v.usedMap.buff, v.freeMap, v.freeMap.buff, v.inodes, v.disk
    ensures v.Valid() && ok
    ensures Consistent(v.View()) && FreeSynced(v.View()) && NoLeaks(v.View())
    ensures TreeOk(v.View(), {0}) && forall n: nat :: Allocated(v.View(), n) ==> n == 0
    ensures 0 < |v.View().inodes| && |Entries(v.View(), 0)| == 2
    ensures !Refused(v.View(), v.freeMap.prevFree) && DiskBits(v.disk.Length) <= BlocksAhead(v) + 1
    ensures forall cs | cs != [] && Plain(cs) :: Resolve(v.View(), Root(), cs).None?
  {
    hide Bit, Live, FreeSynced, Refused, ClearFrom, CStr, Entries, NameOf, DirOk, Blank, FirstClear, TreeOk,
         Consistent, Owned, Created, NoLeaks;
    SetupInode(v, true);
    ghost var g0 := v.View();
    SetupFreeMap(v, true);
    ghost var g := v.View();
    assert g.disk[BASE_MAP_INODES] == g.used by {
      assert Sec(g, BASE_MAP_INODES) == Sec(g0, BASE_MAP_INODES);
    }
    assert forall n: nat :: Allocated(g, n) == Allocated(g0, n);
    EmptyConsistent(g);
    NotRefused(g);
    assert !Allocated(g, 0);
    assert v.usedMap.prevFree == 0 && v.freeMap.prevFree == 0;
    ClearAll(g.free, 0, DiskBits(v.disk.Length));
    var di;
    ok, di := DiritemCreate(v, TYPE_DIR, [SLASH], 0xffff_ffff);
    FirstInode(g, di.inode);
    RootTree(g, v.View(), di);
    OnlyRoot(g, v.View(), di);
    NoneLeaked(g, v.View(), di);
    OneTaken(g, v.View(), Live(v.View(), di.inode, Data(0)));
  }

  /** After the first block of an empty map is taken, the second follows. */
  lemma OneTaken(g: Image, h: Image, b: nat)
    requires Shape(g) && Shape(h) && |h.disk| == |g.disk| && (forall k: nat :: !Bit(g.free, k)) && InPool(g, b)
    requires FirstClear(g.free, MAP_FREE_BITS, 0, b - LBA_FREE) && h.free == WithBit(g.free, b - LBA_FREE, true)
    ensures !Refused(h, (b - LBA_FREE + 1) % MAP_FREE_BITS)
  {
    hide Bit, WithBit;
    assert !Bit(g.free, 0);
    assert Distance(0, 0, MAP_FREE_BITS) == 0;
    assert b == LBA_FREE;
    WithBitEffect(g.free, 0, true);
    assert !Bit(h.free, 1);
  }

  lemma NotRefused(g: Image)
    requires Shape(g) && forall k: nat :: !Bit(g.free, k)
    ensures !Refused(g, 0)
  {
    hide Bit;
    assert !Bit(g.free, 0);
  }

  lemma NoneLeaked(g: Image, h: Image, di: DirItem)
    requires Shape(g) && Created(g, h, di, TYPE_DIR, [SLASH], 0xffff_ffff)
    requires forall k: nat :: !Bit(g.free, k)
    ensures NoLeaks(h)
  {
    hide Bit, InUse, Live, Consistent, Entries, DirOk, Blank, NameOf;
    assert forall l: nat :: !Leaked(g, l);
    hide Leaked;
  }

  lemma FirstInode(g: Image, n: nat)
    requires FirstClear(g.used, MAX_INODES, 0, n) && forall m: nat :: !Allocated(g, m)
    ensures n == 0
  {
    assert !Allocated(g, 0);
    hide Bit;
    assert Distance(0, 0, MAX_INODES) == 0;
  }

  lemma OnlyRoot(g: Image, h: Image, di: DirItem)
    requires Shape(g) && Created(g, h, di, TYPE_DIR, [SLASH], 0xffff_ffff) && di.inode == 0
    requires forall n: nat :: !Allocated(g, n)
    ensures forall n: nat :: Allocated(h, n) ==> n == 0
  {
    KeptAllocated(g, h, di.inode);
    hide Allocated;
  }

  lemma EmptyConsistent(g: Image)
    requires Shape(g) && forall n: nat :: !Allocated(g, n)
    requires g.disk[BASE_MAP_INODES] == g.used
    ensures Consistent(g)
  {
    hide Bit, Ref;
  }

  /** The tree of a fresh disk. */
  lemma RootTree(g: Image, h: Image, di: DirItem)
    requires Shape(g) && Created(g, h, di, TYPE_DIR, [SLASH], 0xffff_ffff) && di.inode == 0
    ensures Consistent(h) && TreeOk(h, {0}) && 0 < |h.inodes| && |Entries(h, 0)| == 2
    ensures forall cs | cs != [] && Plain(cs) :: Resolve(h, Root(), cs).None?
  {
    hide Bit, Live, CStr, Entries, DirOk, Blank, NameOf;
    NameOfIs(DOT);
    NameOfIs(DOTDOT);
    assert DirShape(h, {0}, 0);
    forall cs | cs != [] && Plain(cs)
      ensures Resolve(h, Root(), cs).None?
    {
      NothingBelow(h, Root(), cs);
    }
  }
}
