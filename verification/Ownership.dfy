/** What the steps of kern/fs keep: block ownership, the write-through copies on disk, and other inodes' blocks. */
module Ownership {
  import opened Bytes
  import opened Bitmaps
  import opened Free
  import opened Images
  import opened Inodes
  import opened Layout
  import opened Volumes

  /** Everything about inodes other than n is as before: their records, their blocks, their blocks' contents. */
  ghost predicate OthersKept(g: Image, h: Image, n: nat) {
    && |h.disk| == |g.disk| && |h.inodes| == |g.inodes|
    && (forall m: nat | Allocated(g, m) || m != n :: Allocated(h, m) == Allocated(g, m))
    && (forall m: nat | m < |g.inodes| && m != n :: h.inodes[m] == g.inodes[m])
    && (forall m: nat, s: Slot | m != n :: Live(h, m, s) == Live(g, m, s))
    && (forall m: nat, s: Slot | m != n && Live(g, m, s) != 0 && s.Data? ::
          Sec(h, Live(g, m, s)) == Sec(g, Live(g, m, s)))
  }

  lemma OthersKeptSelf(g: Image, n: nat)
    ensures OthersKept(g, g, n)
  {
    hide Live, Sec, Allocated;
  }

  lemma KeptLive(g: Image, h: Image, n: nat, m: nat, s: Slot)
    requires OthersKept(g, h, n) && m != n
    ensures Live(h, m, s) == Live(g, m, s)
  {
    hide Live, Sec, Allocated;
  }

  lemma KeptAllocated(g: Image, h: Image, n: nat)
    requires OthersKept(g, h, n)
    ensures |h.inodes| == |g.inodes| && forall m: nat | Allocated(g, m) || m != n :: Allocated(h, m) == Allocated(g, m)
  {
    hide Live, Sec, Allocated;
  }

  lemma OthersKeptTrans(g: Image, h: Image, k: Image, n: nat)
    requires OthersKept(g, h, n) && OthersKept(h, k, n)
    ensures OthersKept(g, k, n)
  {
    hide Live, Sec;
  }

  lemma OwnedIsIndexOwned(g: Image)
    requires Owned(g)
    ensures IndexOwned(g)
  {
    hide Live, Marked;
  }

  /** The running invariant between calls. */
  ghost predicate Consistent(g: Image) {
    Shape(g) && Owned(g) && InodesSynced(g)
  }

  lemma ConsistentShape(g: Image)
    requires Consistent(g)
    ensures Shape(g)
  {
    hide Owned, InodesSynced;
  }

  lemma SameRefsIndexOwned(g: Image, h: Image)
    requires IndexOwned(g) && SameRefs(g, h)
    requires forall l: nat :: Marked(g, l) ==> Marked(h, l)
    ensures IndexOwned(h)
  {
    hide Live, Marked;
  }

  /** Nothing at or above the first data block changed, nor any inode's block numbers. */
  lemma DataFrame(g: Image, h: Image)
    requires Shape(g) && Shape(h) && IndexOwned(g) && h.used == g.used
    requires forall m: nat, k: nat :: Field(h, m, k) == Field(g, m, k)
    requires forall l: nat | LBA_FREE <= l :: Sec(h, l) == Sec(g, l)
    ensures SameRefs(g, h)
  {
    hide Bit;
    forall m: nat, t: Slot
      ensures Live(h, m, t) == Live(g, m, t)
    {
      if Allocated(g, m) {
        forall s: Slot | IndexRef(g, m, s) != 0
          ensures Sec(h, IndexRef(g, m, s)) == Sec(g, IndexRef(g, m, s))
        {
          assert Live(g, m, s) == IndexRef(g, m, s);
          assert Marked(g, Live(g, m, s));
        }
        RefFrame(g, h, m, t);
      }
    }
  }

  lemma SameRefsOwned(g: Image, h: Image)
    requires Owned(g) && SameRefs(g, h)
    requires forall l: nat :: Marked(g, l) ==> Marked(h, l)
    ensures Owned(h)
  {
    hide Live, Marked;
  }

  /** Pointing a logical block at a fresh marked block keeps ownership, index blocks included. */
  lemma AssignedOwned(g: Image, h: Image, n: nat, i: nat, lba: u32)
    requires Shape(g) && n < MAX_INODES && Owned(g) && Assigned(g, h, n, i, lba)
    requires lba != 0 && Marked(g, lba) && Unused(g, lba)
    ensures Owned(h)
  {
    hide Live, Marked, OnDisk, Sec;
    forall m: nat, s: Slot | Live(h, m, s) != 0
      ensures Marked(h, Live(h, m, s))
    {
      if s.Data? {
        assert Live(h, m, Data(s.i)) == if m == n && s.i == i then lba else Live(g, m, Data(s.i));
      }
    }
    forall m: nat, s: Slot, p: nat, t: Slot | Live(h, m, s) != 0 && Live(h, m, s) == Live(h, p, t)
      ensures m == p && s == t
    {
      if s.Data? {
        assert Live(h, m, Data(s.i)) == if m == n && s.i == i then lba else Live(g, m, Data(s.i));
      }
      if t.Data? {
        assert Live(h, p, Data(t.i)) == if p == n && t.i == i then lba else Live(g, p, Data(t.i));
      }
    }
  }

  /** iblock_set writes its inode through and touches no other inode's sector. */
  lemma AssignedSynced(g: Image, h: Image, n: nat, i: nat, lba: u32)
    requires Shape(g) && n < MAX_INODES && InodesSynced(g) && Allocated(g, n)
    requires Assigned(g, h, n, i, lba)
    ensures InodesSynced(h)
  {
    hide Live, Marked, DecodeInode;
    forall l: nat | 0 < l < LBA_FREE && l != BASE_INODES + n
      ensures h.disk[l] == g.disk[l]
    {
      RegionNoIndex(h, l);
      assert Sec(h, l) == Sec(g, l);
    }
    forall m: nat | m < MAX_INODES && Allocated(h, m)
      ensures OnDisk(h, m)
    {
      assert Allocated(g, m) && OnDisk(g, m);
    }
  }

  /** Neither the inode table nor its copy on disk changed. */
  lemma SyncedFrame(g: Image, h: Image)
    requires Shape(g) && Shape(h) && InodesSynced(g)
    requires h.inodes == g.inodes && h.used == g.used
    requires forall l: nat | BASE_MAP_INODES <= l < BASE_MAP_FREE :: h.disk[l] == g.disk[l]
    ensures InodesSynced(h)
  {
    hide Bit, DecodeInode;
    forall m: nat | m < MAX_INODES && Allocated(h, m)
      ensures OnDisk(h, m)
    {
      assert Allocated(g, m) && OnDisk(g, m);
    }
  }

  /** iblock_set overwrites no data block. */
  lemma AssignedContents(g: Image, h: Image, n: nat, i: nat, lba: u32, m: nat, j: nat)
    requires Shape(g) && n < MAX_INODES && Assigned(g, h, n, i, lba) && Owned(h)
    requires Live(h, m, Data(j)) != 0
    ensures Sec(h, Live(h, m, Data(j))) == Sec(g, Live(h, m, Data(j)))
  {
    hide Live, Marked, OnDisk, Sec;
    var b := Live(h, m, Data(j));
    assert Marked(h, b);
    MarksAreData(h);
  }

  /** The data block of n at index i now exists and reads x; all other data blocks in the system are as before. */
  ghost predicate BlockWritten(g: Image, h: Image, n: nat, i: nat, x: Sector)
    requires n < |g.inodes|
  {
    && Consistent(h) && OthersKept(g, h, n) && h.inodes[n].size == g.inodes[n].size
    && Live(h, n, Data(i)) != 0 && Sec(h, Live(h, n, Data(i))) == x
    && (forall j: nat | j != i :: Live(h, n, Data(j)) == Live(g, n, Data(j)))
    && (forall j: nat | j != i && Live(g, n, Data(j)) != 0 ::
          Sec(h, Live(g, n, Data(j))) == Sec(g, Live(g, n, Data(j))))
    && (forall l: nat :: Marked(g, l) ==> Marked(h, l))
    && SameLeaks(g, h)
  }

  /** A logical block that was missing was taken from the pool and hooked in, with contents still arbitrary. */
  lemma HookedBlock(g: Image, h: Image, n: nat, i: nat, lba: u32)
    requires Consistent(g) && Allocated(g, n) && Live(g, n, Data(i)) == 0
    requires InPool(g, lba) && !Marked(g, lba)
    requires Assigned(Mark(g, lba, true), h, n, i, lba)
    ensures lba < |h.disk| && BlockWritten(g, h, n, i, h.disk[lba])
    ensures Live(h, n, Data(i)) == lba
  {
    hide Live, Marked, DecodeInode, WithBit, IndexOwned;
    var g1 := Mark(g, lba, true);
    MarkEffect(g, lba, true);
    assert Unused(g1, lba);
    SameRefsOwned(g, g1);
    SyncedFrame(g, g1);
    AssignedOwned(g1, h, n, i, lba);
    AssignedSynced(g1, h, n, i, lba);
    forall m: nat, j: nat | Live(h, m, Data(j)) != 0
      ensures Sec(h, Live(h, m, Data(j))) == Sec(g, Live(h, m, Data(j)))
    {
      AssignedContents(g1, h, n, i, lba, m, j);
    }
    forall m: nat, s: Slot | m != n
      ensures Live(h, m, s) == Live(g, m, s)
    {
      if s.Data? {
        assert Live(h, m, Data(s.i)) == Live(g1, m, Data(s.i));
      }
    }
    HookedLeaksNothing(g, h, n, i, lba);
  }

  /** What a step on inode n marks newly is in a slot of n. */
  lemma NewMarksHere(g: Image, h: Image, n: nat)
    requires Owned(g) && OthersKept(g, h, n) && SameLeaks(g, h)
    ensures forall l: nat | Marked(h, l) && !Marked(g, l) :: exists s: Slot :: Live(h, n, s) == l
  {
    hide Live, Marked;
    forall l: nat | Marked(h, l) && !Marked(g, l)
      ensures exists s: Slot :: Live(h, n, s) == l
    {
      assert !Leaked(g, l) && !Leaked(h, l);
      var m: nat, s: Slot :| Live(h, m, s) == l;
      MarksAreData(h);
      assert m != n ==> Live(g, m, s) == l;
    }
  }

  /** The block hooked in and the index blocks taken for it are all that is marked newly, and all are in use. */
  lemma HookedLeaksNothing(g: Image, h: Image, n: nat, i: nat, lba: u32)
    requires Shape(g) && n < MAX_INODES && Live(g, n, Data(i)) == 0
    requires InPool(g, lba) && !Marked(g, lba)
    requires Assigned(Mark(g, lba, true), h, n, i, lba)
    ensures SameLeaks(g, h)
  {
    hide Live, Marked, OnDisk, WithBit, IndexOwned, Sec;
    MarkEffect(g, lba, true);
    var g1 := Mark(g, lba, true);
    assert Live(h, n, Data(i)) == lba;
    forall l: nat | Marked(h, l) && !Marked(g, l)
      ensures InUse(h, l)
    {
      if l != lba {
        assert IsIndexBlock(h, n, l);
      }
    }
    forall m: nat, s: Slot | Live(g, m, s) != 0 || Live(h, m, s) != Live(g, m, s)
      ensures Live(g, m, s) != 0 ==> Live(h, m, s) == Live(g, m, s)
      ensures Live(h, m, s) != Live(g, m, s) ==> !Marked(g, Live(h, m, s))
    {
      assert Live(g1, m, s) == Live(g, m, s);
      if s.Data? {
        assert Live(h, m, Data(s.i)) == if m == n && s.i == i then lba else Live(g1, m, Data(s.i));
      }
    }
    GrowthLeaksNothing(g, h);
  }

  /** Overwriting a data block that is in use. */
  lemma PokedBlock(g: Image, n: nat, i: nat, x: Sector)
    requires n < MAX_INODES && Consistent(g) && Live(g, n, Data(i)) != 0
    ensures Live(g, n, Data(i)) < |g.disk|
    ensures BlockWritten(g, Poke(g, Live(g, n, Data(i)), x), n, i, x)
    ensures SameRefs(g, Poke(g, Live(g, n, Data(i)), x))
  {
    hide Live, Marked, DecodeInode;
    var b := Live(g, n, Data(i));
    assert Marked(g, b);
    MarkedInPool(g, b);
    var h := Poke(g, b, x);
    PokeElsewhere(g, b, x);
    SameMarks(g, h);
    SameRefsOwned(g, h);
    SyncedFrame(g, h);
    SameMarksLeakNothing(g, h);
  }

  lemma BlockWrittenTwice(g: Image, h: Image, k: Image, n: nat, i: nat, x: Sector, y: Sector)
    requires n < |g.inodes| && BlockWritten(g, h, n, i, x) && BlockWritten(h, k, n, i, y)
    ensures BlockWritten(g, k, n, i, y)
  {
    hide Live, Marked, Sec, Consistent, Leaked;
    OthersKeptTrans(g, h, k, n);
  }

  function SetSize(g: Image, n: nat, size: u32): Image
    requires n < |g.inodes|
  {
    g.(inodes := g.inodes[n := g.inodes[n].(size := size)])
  }

  /** Rewriting inode n's record without touching block numbers, data blocks or the free map. */
  ghost predicate MetaStep(g: Image, h: Image, n: nat) {
    && Shape(h) && h.used == g.used && h.free == g.free
    && |h.disk| == |g.disk| && |h.inodes| == |g.inodes|
    && (forall m: nat | m < |g.inodes| && m != n :: h.inodes[m] == g.inodes[m])
    && (forall m: nat, k: nat :: Field(h, m, k) == Field(g, m, k))
    && (forall l: nat | LBA_FREE <= l :: Sec(h, l) == Sec(g, l))
  }

  lemma MetaStepKeeps(g: Image, h: Image, n: nat)
    requires Shape(g) && Owned(g) && MetaStep(g, h, n)
    ensures SameRefs(g, h) && Owned(h) && OthersKept(g, h, n) && SameLeaks(g, h)
    ensures forall l: nat :: Marked(h, l) == Marked(g, l)
    ensures forall m: nat, s: Slot | Live(g, m, s) != 0 :: Sec(h, Live(g, m, s)) == Sec(g, Live(g, m, s))
  {
    hide Live, Marked, Sec;
    DataFrame(g, h);
    SameMarks(g, h);
    SameRefsOwned(g, h);
    SameMarksLeakNothing(g, h);
    forall m: nat, s: Slot | Live(g, m, s) != 0
      ensures Sec(h, Live(g, m, s)) == Sec(g, Live(g, m, s))
    {
      assert Marked(g, Live(g, m, s));
      MarkedInPool(g, Live(g, m, s));
    }
  }

  /** Setting size_ and writing the inode through. */
  lemma SizedAndFlushed(g: Image, n: nat, size: u32)
    requires n < MAX_INODES && Consistent(g)
    ensures var h := Flush(SetSize(g, n, size), n);
            Consistent(h) && MetaStep(g, h, n) && h.inodes[n].size == size
  {
    hide EncodeInode, DecodeInode, Bit;
    var h := Flush(SetSize(g, n, size), n);
    InodeRoundTrip(h.inodes[n]);
    MetaStepKeeps(g, h, n);
    forall m: nat | m < MAX_INODES && Allocated(h, m)
      ensures OnDisk(h, m)
    {
      assert Allocated(g, m) && OnDisk(g, m);
    }
  }

  /** free_map_update. */
  lemma MapFlushed(g: Image, h: Image, n: nat)
    requires Consistent(g) && n < MAX_INODES
    requires Shape(h) && |h.disk| == |g.disk| && h == g.(disk := h.disk)
    requires forall l: nat :: l < BASE_MAP_FREE || LBA_FREE <= l ==> Sec(h, l) == Sec(g, l)
    ensures Consistent(h) && MetaStep(g, h, n)
  {
    hide DecodeInode, Bit;
    MetaStepKeeps(g, h, n);
    forall l: nat | BASE_MAP_INODES <= l < BASE_MAP_FREE
      ensures h.disk[l] == g.disk[l]
    {
      assert Sec(h, l) == Sec(g, l);
    }
    SyncedFrame(g, h);
  }

  /** iblock_get followed by free_rw_disk of the block it names; lba is 0 when the block is missing. */
  method FetchBlock(v: Volume, n: nat, i: nat) returns (lba: u32, x: Sector)
    requires v.Valid() && Consistent(v.View())
    requires Allocated(v.View(), n) && i < BLOCK_INDEX_MAX
    ensures lba == Live(v.View(), n, Data(i))
    ensures lba != 0 ==> Marked(v.View(), lba) && x == Sec(v.View(), lba)
  {
    hide Live, Bit, Marked, InodesSynced, Sec, IndexOwned;
    OwnedIsIndexOwned(v.View());
    lba := IblockGet(v, n, i);
    x := ZeroSector();
    if lba != 0 {
      x := FreeRead(v, lba);
    }
  }
}
