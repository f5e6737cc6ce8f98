/** kern/fs/free.c: the free map and the data blocks it guards. */
module Free {
  import opened Bytes
  import opened Bitmaps
  import opened Images
  import opened Layout
  import opened Volumes
  import opened Wrappers

  /** free_map_setup's effect on the in-memory map. */
  function Mark(g: Image, lba: nat, on: bool): Image
    requires Shape(g) && InPool(g, lba)
  {
    g.(free := WithBit(g.free, lba - LBA_FREE, on))
  }

  lemma MarkEffect(g: Image, lba: nat, on: bool)
    requires Shape(g) && InPool(g, lba)
    ensures Shape(Mark(g, lba, on)) && SameRefs(g, Mark(g, lba, on))
    ensures forall l: nat :: Marked(Mark(g, lba, on), l) == if l == lba then on else Marked(g, l)
  {
    hide Bit, WithBit;
    WithBitEffect(g.free, lba - LBA_FREE, on);
    MarkSameRefs(g, WithBit(g.free, lba - LBA_FREE, on));
  }

  /** Every bit of the free map is set. */
  ghost predicate PoolFull(g: Image) {
    AllSet(g.free, MAP_FREE_BITS)
  }

  /** Bit k of the map is clear, and the disk has no sector for it. */
  ghost predicate Phantom(g: Image, k: nat) {
    k < MAP_FREE_BITS && |g.disk| <= LBA_FREE + k && !Bit(g.free, k)
  }

  /** No data block of the disk can be counted on: the map is full, or offers sectors past the disk's end. */
  ghost predicate NoRoom(g: Image) {
    PoolFull(g) || exists k: nat :: Phantom(g, k)
  }

  /**
    Next fit from the cursor runs into the bits past n: none is clear before n (from the cursor
    on, and once around if the cursor is already past n), and one is clear behind it.
   */
  ghost predicate RunsPast(bits: seq<u8>, cursor: nat, n: nat) {
    if cursor < n then
      && (forall k | cursor <= k < n :: Bit(bits, k))
      && exists k :: n <= k < MAP_FREE_BITS && !Bit(bits, k)
    else
      || (exists k :: cursor <= k < MAP_FREE_BITS && !Bit(bits, k))
      || ((forall k | 0 <= k < n :: Bit(bits, k)) && exists k :: n <= k < cursor && !Bit(bits, k))
  }

  lemma PastEndIff(bits: seq<u8>, cursor: nat, n: nat, r: nat)
    requires cursor < MAP_FREE_BITS && FirstClear(bits, MAP_FREE_BITS, cursor, r)
    ensures n <= r <==> RunsPast(bits, cursor, n)
  {
    hide Bit;
    if n <= r {
      if cursor < n {
        forall k | cursor <= k < n
          ensures Bit(bits, k)
        {
          assert Distance(cursor, k, MAP_FREE_BITS) < Distance(cursor, r, MAP_FREE_BITS);
        }
      } else if r < cursor {
        forall k | 0 <= k < n
          ensures Bit(bits, k)
        {
          assert Distance(cursor, k, MAP_FREE_BITS) < Distance(cursor, r, MAP_FREE_BITS);
        }
      }
    }
  }

  /** What keeps the next block from being handed out: a full map, or a search that runs past the disk's end. */
  ghost predicate Refused(g: Image, cursor: nat)
    requires LBA_FREE <= |g.disk|
  {
    PoolFull(g) || RunsPast(g.free, cursor, |g.disk| - LBA_FREE)
  }

  /** How many of bits k, ..., n - 1 are clear. */
  ghost function ClearFrom(bits: seq<u8>, k: nat, n: nat): nat
    decreases n - k
  {
    if n <= k then 0 else (if Bit(bits, k) then 0 else 1) + ClearFrom(bits, k + 1, n)
  }

  /** The free blocks of the disk between the cursor and the disk's end: that many requests cannot fail. */
  ghost function BlocksAhead(v: Volume): nat
    reads v.freeMap, v.freeMap.buff
  {
    ClearFrom(v.freeMap.buff[..], v.freeMap.prevFree, DiskBits(v.disk.Length))
  }

  /** How many bits of the map name sectors of the disk. */
  function DiskBits(sectors: nat): nat {
    if sectors < LBA_FREE then 0 else if MAPPED_SECTORS < sectors then MAP_FREE_BITS else sectors - LBA_FREE
  }

  lemma {:induction false} ClearBit(bits: seq<u8>, k: nat, n: nat) returns (r: nat)
    requires 0 < ClearFrom(bits, k, n)
    ensures k <= r < n && !Bit(bits, r)
    decreases n - k
  {
    r := k;
    if Bit(bits, k) {
      r := ClearBit(bits, k + 1, n);
    }
  }

  lemma {:induction false} ClearAll(bits: seq<u8>, k: nat, n: nat)
    requires k <= n && forall j: nat :: !Bit(bits, j)
    ensures ClearFrom(bits, k, n) == n - k
    decreases n - k
  {
    hide Bit;
    if k < n {
      ClearAll(bits, k + 1, n);
    }
  }

  /** Bits from k to r set, r clear: one clear bit, and those behind it. */
  lemma {:induction false} ClearNext(bits: seq<u8>, k: nat, r: nat, n: nat)
    requires k <= r && forall j | k <= j < r :: Bit(bits, j)
    ensures ClearFrom(bits, k, n) == if r < n then (if Bit(bits, r) then 0 else 1) + ClearFrom(bits, r + 1, n) else 0
    decreases r - k
  {
    hide Bit;
    if k < r {
      ClearNext(bits, k + 1, r, n);
    }
  }

  /** From the start on there are at least as many as from any other place on. */
  lemma {:induction false} ClearMore(bits: seq<u8>, k: nat, n: nat)
    ensures ClearFrom(bits, k, n) <= ClearFrom(bits, 0, n)
    decreases k
  {
    if 0 < k {
      ClearMore(bits, k - 1, n);
    }
  }

  lemma {:induction false} ClearSame(a: seq<u8>, b: seq<u8>, k: nat, n: nat)
    requires forall j: nat | k <= j :: Bit(a, j) == Bit(b, j)
    ensures ClearFrom(a, k, n) == ClearFrom(b, k, n)
    decreases n - k
  {
    hide Bit;
    if k < n {
      ClearSame(a, b, k + 1, n);
    }
  }

  /** With a clear bit c at or behind the cursor, next fit goes no further than c. */
  lemma NextClear(bits: seq<u8>, cursor: nat, r: nat, c: nat)
    requires cursor <= c < MAP_FREE_BITS && FirstClear(bits, MAP_FREE_BITS, cursor, r) && !Bit(bits, c)
    ensures cursor <= r <= c && forall j | cursor <= j < r :: Bit(bits, j)
  {
    hide Bit;
    assert Distance(cursor, r, MAP_FREE_BITS) <= Distance(cursor, c, MAP_FREE_BITS);
  }

  /** Next fit with a free block ahead: it stays on the disk, and uses up one of those ahead. */
  lemma AheadTaken(bits: seq<u8>, cursor: nat, n: nat, r: nat)
    requires |bits| == MAP_FREE_BYTES && cursor < MAP_FREE_BITS && n <= MAP_FREE_BITS
    requires FirstClear(bits, MAP_FREE_BITS, cursor, r)
    ensures 0 < ClearFrom(bits, cursor, n) ==> r < n
    ensures ClearFrom(bits, cursor, n) <= ClearFrom(WithBit(bits, r, true), (r + 1) % MAP_FREE_BITS, n) + 1
  {
    hide Bit, WithBit, ClearFrom;
    if 0 < ClearFrom(bits, cursor, n) {
      var c := ClearBit(bits, cursor, n);
      NextClear(bits, cursor, r, c);
      hide FirstClear;
      ClearNext(bits, cursor, r, n);
      ClearBehind(bits, r, n);
    }
  }

  lemma ClearBehind(bits: seq<u8>, r: nat, n: nat)
    requires r < MAP_FREE_BITS && n <= MAP_FREE_BITS && |bits| == MAP_FREE_BYTES
    ensures ClearFrom(bits, r + 1, n) <= ClearFrom(WithBit(bits, r, true), (r + 1) % MAP_FREE_BITS, n)
  {
    if n <= r + 1 {
      assert ClearFrom(bits, r + 1, n) == 0;
    } else {
      WithBitEffect(bits, r, true);
      hide Bit, WithBit, ClearFrom;
      ClearSame(bits, WithBit(bits, r, true), r + 1, n);
      NoWrap(r + 1);
    }
  }

  lemma NoWrap(k: nat)
    requires k < MAP_FREE_BITS
    ensures k % MAP_FREE_BITS == k
  {
  }

  lemma AheadMarked(g: Image, cursor: nat, lba: nat)
    requires Shape(g) && cursor < MAP_FREE_BITS && InPool(g, lba)
    requires FirstClear(g.free, MAP_FREE_BITS, cursor, lba - LBA_FREE)
    ensures var n := DiskBits(|g.disk|);
            ClearFrom(g.free, cursor, n)
            <= ClearFrom(Mark(g, lba, true).free, (lba - LBA_FREE + 1) % MAP_FREE_BITS, n) + 1
  {
    hide ClearFrom, FirstClear, WithBit, Bit;
    AheadTaken(g.free, cursor, DiskBits(|g.disk|), lba - LBA_FREE);
  }

  /** With a free block ahead the request is not refused. */
  lemma AheadNotRefused(g: Image, cursor: nat)
    requires Shape(g) && cursor < MAP_FREE_BITS && 0 < ClearFrom(g.free, cursor, DiskBits(|g.disk|))
    ensures !Refused(g, cursor)
  {
    var c := ClearBit(g.free, cursor, DiskBits(|g.disk|));
    hide Bit;
    assert RunsPast(g.free, cursor, |g.disk| - LBA_FREE) ==> cursor < |g.disk| - LBA_FREE;
  }

  lemma RefusedNoRoom(g: Image, cursor: nat)
    requires Shape(g) && Refused(g, cursor)
    ensures NoRoom(g)
  {
    hide Bit;
    var n := |g.disk| - LBA_FREE;
    if !PoolFull(g) {
      if k :| n <= k < MAP_FREE_BITS && !Bit(g.free, k) {
        assert Phantom(g, k);
      }
    }
  }

  /** The free map on disk is the one in memory. */
  ghost predicate FreeSynced(g: Image)
    requires Shape(g)
  {
    forall q: nat | q < MAP_FREE_SECTORS ::
      g.disk[BASE_MAP_FREE + q] == g.free[BYTES_SECTOR * q..BYTES_SECTOR * q + BYTES_SECTOR]
  }

  /** The free map's region of the disk is the same. */
  ghost predicate SameMapOnDisk(g: Image, h: Image)
    requires Shape(g) && Shape(h)
  {
    forall l: nat | BASE_MAP_FREE <= l < LBA_FREE :: h.disk[l] == g.disk[l]
  }

  /** That region determines a synced free map. */
  lemma FreeSyncedUnique(g: Image, h: Image)
    requires Shape(g) && Shape(h) && FreeSynced(g) && FreeSynced(h)
    requires SameMapOnDisk(g, h)
    ensures g.free == h.free
  {
    forall k | 0 <= k < MAP_FREE_BYTES
      ensures g.free[k] == h.free[k]
    {
      var q := k / BYTES_SECTOR;
      assert g.disk[BASE_MAP_FREE + q] == g.free[BYTES_SECTOR * q..BYTES_SECTOR * q + BYTES_SECTOR];
      assert h.disk[BASE_MAP_FREE + q] == h.free[BYTES_SECTOR * q..BYTES_SECTOR * q + BYTES_SECTOR];
      assert g.disk[BASE_MAP_FREE + q][k - BYTES_SECTOR * q] == g.free[k];
    }
  }

  /** Data block l is marked in the map that is on disk. */
  predicate DiskMarked(g: Image, l: nat) {
    && InPool(g, l)
    && Bit(Sec(g, BASE_MAP_FREE + (l - LBA_FREE) / BITS_PER_SECTOR), (l - LBA_FREE) % BITS_PER_SECTOR)
  }

  /** The map on disk shows every block in use. */
  ghost predicate Covered(g: Image) {
    forall n: nat, s: Slot :: Live(g, n, s) != 0 ==> DiskMarked(g, Live(g, n, s))
  }

  lemma SyncedMarks(g: Image)
    requires Shape(g) && FreeSynced(g)
    ensures forall l: nat :: DiskMarked(g, l) <==> Marked(g, l)
  {
    hide Bit;
    forall l: nat | Marked(g, l)
      ensures InPool(g, l)
    {
      MarkedInPool(g, l);
    }
    forall l: nat | InPool(g, l)
      ensures DiskMarked(g, l) <==> Marked(g, l)
    {
      var k := l - LBA_FREE;
      var q, j := k / BITS_PER_SECTOR, k % BITS_PER_SECTOR;
      BitOfSector(g.free, k);
      assert g.disk[BASE_MAP_FREE + q] == g.free[BYTES_SECTOR * q..BYTES_SECTOR * q + BYTES_SECTOR];
    }
  }

  /** Bit k of the whole map is bit k mod 4096 of its sector. */
  lemma BitOfSector(bits: seq<u8>, k: nat)
    requires |bits| == MAP_FREE_BYTES && k < MAP_FREE_BITS
    ensures var q := k / BITS_PER_SECTOR;
            BYTES_SECTOR * q + BYTES_SECTOR <= |bits|
            && (Bit(bits[BYTES_SECTOR * q..BYTES_SECTOR * q + BYTES_SECTOR], k % BITS_PER_SECTOR) <==> Bit(bits, k))
  {
    hide HasBit, ToBits;
    var q, j := k / BITS_PER_SECTOR, k % BITS_PER_SECTOR;
    assert k == BITS_PER_SECTOR * q + j;
    assert k / 8 == BYTES_SECTOR * q + j / 8 && k % 8 == j % 8;
    assert bits[BYTES_SECTOR * q..BYTES_SECTOR * q + BYTES_SECTOR][j / 8] == bits[k / 8];
  }

  /**
    The map on disk marks no block that is unmarked in memory: it is what was flushed last, and
    blocks are only taken since.
   */
  ghost predicate MapBehind(g: Image) {
    forall l: nat | DiskMarked(g, l) :: Marked(g, l)
  }

  lemma SyncedBehind(g: Image)
    requires Shape(g) && FreeSynced(g)
    ensures MapBehind(g)
  {
    SyncedMarks(g);
    hide Marked, DiskMarked, FreeSynced;
  }

  /** Taking blocks in memory keeps it so. */
  lemma BehindKept(g: Image, h: Image)
    requires Shape(g) && Shape(h) && |g.disk| == |h.disk| && SameMapOnDisk(g, h) && MapBehind(g)
    requires forall l: nat | Marked(g, l) :: Marked(h, l)
    ensures MapBehind(h)
  {
    hide Marked, DiskMarked;
    forall l: nat | DiskMarked(h, l)
      ensures Marked(h, l)
    {
      if !DiskMarked(g, l) {
        NotDiskMarked(g, h, l);
      }
    }
  }

  /** The same places and the same map on disk: the same blocks are shown. */
  lemma CoveredFrame(g: Image, h: Image)
    requires Shape(g) && Shape(h) && |g.disk| == |h.disk| && SameRefs(g, h) && SameMapOnDisk(g, h)
    ensures Covered(g) <==> Covered(h)
  {
    hide Live, Bit;
    assert forall l: nat | InPool(g, l) ::
        var q := BASE_MAP_FREE + (l - LBA_FREE) / BITS_PER_SECTOR;
        BASE_MAP_FREE <= q < LBA_FREE && Sec(h, q) == Sec(g, q);
  }

  lemma NotDiskMarked(g: Image, h: Image, a: nat)
    requires Shape(g) && Shape(h) && |g.disk| == |h.disk| && SameMapOnDisk(g, h) && !DiskMarked(g, a)
    ensures !DiskMarked(h, a)
  {
    hide Bit;
    if InPool(g, a) {
      var q := BASE_MAP_FREE + (a - LBA_FREE) / BITS_PER_SECTOR;
      assert BASE_MAP_FREE <= q < LBA_FREE && Sec(h, q) == Sec(g, q);
    }
  }

  /** A map that is current shows them all. */
  lemma SyncedCovers(g: Image)
    requires Shape(g) && FreeSynced(g) && Owned(g)
    ensures Covered(g)
  {
    SyncedMarks(g);
    hide Live, Marked, DiskMarked, FreeSynced;
  }

  /**
    free_allocate. None is the panic "no more free bits". The last clause says exactly when the
    block handed out lies past the end of the disk.
   */
  method FreeAllocate(v: Volume) returns (r: Option<u32>)
    requires v.Valid()
    modifies v.freeMap`prevFree
    ensures v.Valid() && v.View() == old(v.View())
    ensures r.None? <==> PoolFull(v.View())
    ensures r.Some? ==>
      && LBA_FREE <= r.value < MAPPED_SECTORS
      && !Marked(v.View(), r.value)
      && FirstClear(v.View().free, MAP_FREE_BITS, old(v.freeMap.prevFree), r.value - LBA_FREE)
      && v.freeMap.prevFree == (r.value - LBA_FREE + 1) % MAP_FREE_BITS
      && (v.disk.Length <= r.value <==>
          RunsPast(v.View().free, old(v.freeMap.prevFree), v.disk.Length - LBA_FREE))
  {
    hide Bit, RunsPast;
    var bit := v.freeMap.ScanEmpty();
    ghost var g := v.View();
    if bit.None? {
      return None;
    }
    PastEndIff(g.free, old(v.freeMap.prevFree), v.disk.Length - LBA_FREE, bit.value);
    r := Some(LBA_FREE + bit.value);
  }

  /** free_map_setup: memory only. */
  method FreeMapSetup(v: Volume, lba: u32, on: bool)
    requires v.Valid() && InPool(v.View(), lba)
    modifies v.freeMap.buff
    ensures v.Valid() && v.View() == Mark(old(v.View()), lba, on)
  {
    if on {
      v.freeMap.Set(lba - LBA_FREE);
    } else {
      v.freeMap.Clear(lba - LBA_FREE);
    }
  }

  /** free_map_update: the map goes to disk and nothing else changes. */
  method FreeMapUpdate(v: Volume)
    requires v.Valid()
    modifies v.disk
    ensures v.Valid() && v.View() == old(v.View()).(disk := v.View().disk)
    ensures FreeSynced(v.View())
    ensures forall l: nat :: l < BASE_MAP_FREE || LBA_FREE <= l ==> Sec(v.View(), l) == Sec(old(v.View()), l)
  {
    v.WriteSectors(BASE_MAP_FREE, MAP_FREE_SECTORS, v.freeMap.buff);
  }

  /** setup_free_map: a new disk receives an empty map, an old one supplies its own. */
  method SetupFreeMap(v: Volume, isNew: bool)
    requires v.Valid()
    modifies v.freeMap, v.freeMap.buff, v.disk
    ensures v.Valid() && FreeSynced(v.View())
    ensures v.View().inodes == old(v.View()).inodes && v.View().used == old(v.View()).used
    ensures !isNew ==> v.View().disk == old(v.View()).disk
    ensures isNew ==> forall k: nat :: !Bit(v.View().free, k)
    ensures v.freeMap.prevFree == 0
    ensures forall l: nat :: l < BASE_MAP_FREE || LBA_FREE <= l ==> Sec(v.View(), l) == Sec(old(v.View()), l)
  {
    v.freeMap.Reset();
    if isNew {
      v.WriteSectors(BASE_MAP_FREE, MAP_FREE_SECTORS, v.freeMap.buff);
      ZeroMapEmpty(v.View());
    } else {
      v.ReadSectors(BASE_MAP_FREE, MAP_FREE_SECTORS, v.freeMap.buff);
    }
  }

  lemma ZeroMapEmpty(g: Image)
    requires forall k | 0 <= k < |g.free| :: g.free[k] == 0
    ensures forall k: nat :: !Bit(g.free, k)
  {
    forall k: nat
      ensures !Bit(g.free, k)
    {
      if k / 8 < |g.free| {
        assert ToBits(g.free[k / 8]) == 0;
      }
    }
  }

  /** free_rw_disk, ATA_CMD_IO_READ; an unmarked block is a panic, so callers must rule it out. */
  method FreeRead(v: Volume, lba: u32) returns (x: Sector)
    requires v.Valid() && Marked(v.View(), lba)
    ensures x == Sec(v.View(), lba)
  {
    x := v.ReadSector(lba);
  }

  /** free_rw_disk, ATA_CMD_IO_WRITE */
  method FreeWrite(v: Volume, lba: u32, x: Sector)
    requires v.Valid() && Marked(v.View(), lba)
    modifies v.disk
    ensures lba < |v.View().disk|
    ensures v.Valid() && v.View() == Poke(old(v.View()), lba, x)
  {
    v.WriteSector(lba, x);
  }
}
