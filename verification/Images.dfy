/**
  A snapshot of the file system's whole state, the blocks each inode reaches in it,
  and what single changes to the snapshot do to them.
 */
module Images {
  import opened Bytes
  import opened Bitmaps
  import opened Layout

  type Blocks = b: seq<u32> | |b| == 8 witness [0, 0, 0, 0, 0, 0, 0, 0]

  /** inode_t: six direct slots, one single-indirect slot, one double-indirect slot. */
  datatype Inode = Inode(size: u32, blocks: Blocks)

  const SINGLE_INDEX: nat := 6
  const DOUBLE_INDEX: nat := 7
  const LEVEL1_BORDER: nat := 134

  /** memmove of consecutive words into a sector, from word k on. */
  function PutWords(s: Sector, k: nat, ws: seq<u32>): Sector
    requires k + |ws| <= LBAS_PER_SECTOR
    decreases |ws|
  {
    if ws == [] then s else PutWords(PutWord(s, k, ws[0]), k + 1, ws[1..])
  }

  lemma {:induction false} PutWordsAt(s: Sector, k: nat, ws: seq<u32>, j: nat)
    requires k + |ws| <= LBAS_PER_SECTOR && j < LBAS_PER_SECTOR
    ensures GetWord(PutWords(s, k, ws), j) == if k <= j < k + |ws| then ws[j - k] else GetWord(s, j)
    decreases |ws|
  {
    hide GetWord, Bit, PutWord;
    if ws != [] {
      PutWordsAt(PutWord(s, k, ws[0]), k + 1, ws[1..], j);
      PutGetWord(s, k, ws[0], j);
    }
  }

  /** The sector inodes_rw_disk writes for an inode. */
  function EncodeInode(i: Inode): Sector {
    PutWords(ZeroSector(), 0, [i.size] + i.blocks)
  }

  /** The inode inodes_rw_disk reads back. */
  function DecodeInode(s: Sector): Inode {
    Inode(GetWord(s, 0), seq(8, k requires 0 <= k < 8 => GetWord(s, k + 1)))
  }

  lemma InodeRoundTrip(i: Inode)
    ensures DecodeInode(EncodeInode(i)) == i
  {
    hide GetWord, Bit;
    PutWordsAt(ZeroSector(), 0, [i.size] + i.blocks, 0);
    forall k | 0 <= k < 8
      ensures DecodeInode(EncodeInode(i)).blocks[k] == i.blocks[k]
    {
      PutWordsAt(ZeroSector(), 0, [i.size] + i.blocks, k + 1);
    }
  }

  /** Where the bytes of an inode are in its sector: size_ first, then the eight block numbers, low bytes first. */
  lemma InodeFormat(i: Inode, k: nat)
    requires k < BYTES_SECTOR
    ensures var w := if k < 4 then i.size else if k < 36 then i.blocks[k / 4 - 1] else 0;
            EncodeInode(i)[k] == w / [1, 0x100, 0x1_0000, 0x100_0000][k % 4] % 0x100
  {
    hide GetWord, Bit, PutWord;
    PutWordsAt(ZeroSector(), 0, [i.size] + i.blocks, k / 4);
    ByteOfWord(EncodeInode(i), k);
    ByteOfWord(ZeroSector(), k);
  }

  const EMPTY_INODE := Inode(0, [0, 0, 0, 0, 0, 0, 0, 0])

  /**
    disk: every sector; inodes: __fs_inodes; free: the in-memory free map;
    used: the in-memory inode map.
   */
  datatype Image = Image(disk: seq<Sector>, inodes: seq<Inode>, free: seq<u8>, used: seq<u8>)

  predicate Shape(g: Image) {
    && REQUIRED_SECTORS <= |g.disk|
    && |g.inodes| == MAX_INODES
    && |g.free| == MAP_FREE_BYTES
    && |g.used| == BYTES_SECTOR
  }

  predicate Allocated(g: Image, n: nat) {
    n < MAX_INODES && Bit(g.used, n)
  }

  /** A data block that the disk has and the free map has a bit for. */
  predicate InPool(g: Image, lba: nat) {
    LBA_FREE <= lba < MAPPED_SECTORS && lba < |g.disk|
  }

  /** A data block of the disk whose bit is set. */
  predicate Marked(g: Image, lba: nat) {
    LBA_FREE <= lba < |g.disk| && Bit(g.free, lba - LBA_FREE)
  }

  lemma MarkedInPool(g: Image, lba: nat)
    requires Shape(g) && Marked(g, lba)
    ensures InPool(g, lba)
  {
  }

  /**
    The places an inode keeps a block number in: logical block i, the single-indirect
    block, the double-indirect block, and entry q of the double-indirect block.
   */
  datatype Slot = Data(i: nat) | Single | Double | Mid(q: nat)

  function Sec(g: Image, lba: nat): Sector {
    if lba < |g.disk| then g.disk[lba] else ZeroSector()
  }

  function Field(g: Image, n: nat, k: nat): u32 {
    if n < |g.inodes| && k < MAX_INODE_BLOCKS then g.inodes[n].blocks[k] else 0
  }

  /** Entry k of the index block at lba; a missing index block reads as zeros. */
  function Entry(g: Image, lba: nat, k: nat): u32 {
    if lba == 0 || LBAS_PER_SECTOR <= k then 0 else GetWord(Sec(g, lba), k)
  }

  /** The index block that lists logical block i, for i past the direct slots. */
  function IndexOver(i: nat): Slot {
    if i < LEVEL1_BORDER then Single else Mid((i - LEVEL1_BORDER) / LBAS_PER_SECTOR)
  }

  /** The position of logical block i in that index block. */
  function Offset(i: nat): nat
    requires MAX_DIRECT <= i
  {
    if i < LEVEL1_BORDER then i - MAX_DIRECT else (i - LEVEL1_BORDER) % LBAS_PER_SECTOR
  }

  /** The logical block listed at position k of index block s. */
  function Under(s: Slot, k: nat): Slot
    requires s.Single? || s.Mid?
  {
    if s.Single? then Data(MAX_DIRECT + k) else Data(LEVEL1_BORDER + LBAS_PER_SECTOR * s.q + k)
  }

  lemma UnderIndex(s: Slot, k: nat, i: nat)
    requires s.Single? || s.Mid?
    requires k < LBAS_PER_SECTOR && MAX_DIRECT <= i
    ensures Under(s, k) == Data(i) <==> IndexOver(i) == s && Offset(i) == k
  {
  }

  lemma UnderData(s: Slot, k: nat)
    requires s.Single? || s.Mid?
    ensures Under(s, k).Data? && MAX_DIRECT <= Under(s, k).i
  {
  }

  /** The block number of an index block of inode n; 0 when there is none. */
  function IndexRef(g: Image, n: nat, s: Slot): u32 {
    match s
    case Single => Field(g, n, SINGLE_INDEX)
    case Double => Field(g, n, DOUBLE_INDEX)
    case Mid(q) => Entry(g, Field(g, n, DOUBLE_INDEX), q)
    case Data(_) => 0
  }

  /** The block number in slot s of inode n; 0 when there is none. */
  function Ref(g: Image, n: nat, s: Slot): u32 {
    match s
    case Data(i) =>
      if i < MAX_DIRECT then Field(g, n, i)
      else Entry(g, IndexRef(g, n, IndexOver(i)), Offset(i))
    case _ => IndexRef(g, n, s)
  }

  /** Ref restricted to allocated inodes: the blocks in use. */
  function Live(g: Image, n: nat, s: Slot): u32 {
    if Allocated(g, n) then Ref(g, n, s) else 0
  }

  /** Index blocks in use are marked, and no two slots share one. */
  ghost predicate IndexOwned(g: Image) {
    && (forall n: nat, s: Slot :: !s.Data? && Live(g, n, s) != 0 ==> Marked(g, Live(g, n, s)))
    && (forall n: nat, s: Slot, m: nat, t: Slot ::
          !s.Data? && !t.Data? && Live(g, n, s) != 0 && Live(g, n, s) == Live(g, m, t) ==> n == m && s == t)
  }

  /** Every block in use is marked and sits in exactly one slot of exactly one inode. */
  ghost predicate Owned(g: Image) {
    && (forall n: nat, s: Slot :: Live(g, n, s) != 0 ==> Marked(g, Live(g, n, s)))
    && (forall n: nat, s: Slot, m: nat, t: Slot ::
          Live(g, n, s) != 0 && Live(g, n, s) == Live(g, m, t) ==> n == m && s == t)
  }

  /** Some inode has the block in some slot. */
  ghost predicate InUse(g: Image, l: nat) {
    exists n: nat, s: Slot :: Live(g, n, s) == l
  }

  /** The block is marked although nothing reaches it: lost to the pool. */
  ghost predicate Leaked(g: Image, l: nat) {
    Marked(g, l) && !InUse(g, l)
  }

  /** No block was lost from g to h, and none came back. */
  ghost predicate SameLeaks(g: Image, h: Image) {
    forall l: nat :: Leaked(h, l) <==> Leaked(g, l)
  }

  /** Every marked block is reached by an allocated inode. */
  ghost predicate NoLeaks(g: Image) {
    forall l: nat :: !Leaked(g, l)
  }

  /** Blocks keep their places and new places hold blocks that were free: all that is marked newly is in use. */
  lemma GrowthLeaksNothing(g: Image, h: Image)
    requires forall l: nat | Marked(g, l) :: Marked(h, l)
    requires forall l: nat | Marked(h, l) && !Marked(g, l) :: InUse(h, l)
    requires forall n: nat, s: Slot | Live(g, n, s) != 0 :: Live(h, n, s) == Live(g, n, s)
    requires forall n: nat, s: Slot | Live(h, n, s) != Live(g, n, s) :: !Marked(g, Live(h, n, s))
    ensures SameLeaks(g, h)
  {
    MarksAreData(g);
    MarksAreData(h);
    hide Live, Marked;
    forall l: nat
      ensures Leaked(h, l) <==> Leaked(g, l)
    {
      if Marked(g, l) && InUse(g, l) {
        var n: nat, s: Slot :| Live(g, n, s) == l;
        assert Live(h, n, s) == l;
      }
      if Marked(g, l) && InUse(h, l) {
        var n: nat, s: Slot :| Live(h, n, s) == l;
        assert Live(g, n, s) == l;
      }
    }
  }

  lemma SameMarksLeakNothing(g: Image, h: Image)
    requires SameRefs(g, h) && forall l: nat :: Marked(h, l) == Marked(g, l)
    ensures SameLeaks(g, h)
  {
    hide Live, Marked;
    forall l: nat
      ensures InUse(h, l) <==> InUse(g, l)
    {
      SameUse(g, h, l);
    }
  }

  lemma SameUse(g: Image, h: Image, l: nat)
    requires SameRefs(g, h)
    ensures InUse(h, l) <==> InUse(g, l)
  {
    hide Live;
    if InUse(g, l) {
      var n: nat, s: Slot :| Live(g, n, s) == l;
      assert Live(h, n, s) == l;
    }
    if InUse(h, l) {
      var n: nat, s: Slot :| Live(h, n, s) == l;
      assert Live(g, n, s) == l;
    }
  }

  ghost predicate NoIndexBlock(g: Image, lba: nat) {
    forall n: nat, s: Slot :: !s.Data? ==> Live(g, n, s) != lba
  }

  /** No slot of any allocated inode holds lba. */
  ghost predicate Unused(g: Image, lba: nat) {
    forall n: nat, s: Slot :: Live(g, n, s) != lba
  }

  /** h reaches what g reaches, except that slot s of inode n now holds w. */
  ghost predicate Updates(g: Image, h: Image, n: nat, s: Slot, w: u32) {
    forall m: nat, t: Slot :: Live(h, m, t) == if m == n && t == s then w else Live(g, m, t)
  }

  ghost predicate SameRefs(g: Image, h: Image) {
    forall m: nat, t: Slot :: Live(h, m, t) == Live(g, m, t)
  }

  function Poke(g: Image, lba: nat, x: Sector): Image
    requires lba < |g.disk|
  {
    g.(disk := g.disk[lba := x])
  }

  function SetField(g: Image, n: nat, k: nat, w: u32): Image
    requires n < |g.inodes| && k < MAX_INODE_BLOCKS
  {
    g.(inodes := g.inodes[n := g.inodes[n].(blocks := g.inodes[n].blocks[k := w])])
  }

  lemma NoRefPastEnd(g: Image, n: nat, i: nat)
    requires BLOCK_INDEX_MAX <= i
    ensures Live(g, n, Data(i)) == 0
  {
  }

  /** Inode m and its index blocks did not change, so neither did its slots. */
  lemma RefFrame(g: Image, h: Image, m: nat, t: Slot)
    requires forall k: nat :: Field(h, m, k) == Field(g, m, k)
    requires forall s: Slot :: IndexRef(g, m, s) != 0 ==> Sec(h, IndexRef(g, m, s)) == Sec(g, IndexRef(g, m, s))
    ensures Ref(h, m, t) == Ref(g, m, t)
  {
    hide GetWord, Bit;
    assert IndexRef(g, m, Double) == Field(g, m, DOUBLE_INDEX);
    assert forall s: Slot :: IndexRef(h, m, s) == IndexRef(g, m, s);
  }

  lemma SameMarks(g: Image, h: Image)
    requires h.free == g.free && |h.disk| == |g.disk|
    ensures forall l: nat :: Marked(h, l) == Marked(g, l)
  {
  }

  lemma SameSectors(g: Image, h: Image)
    requires h.disk == g.disk
    ensures forall l: nat :: Sec(h, l) == Sec(g, l)
  {
  }

  lemma SectorAt(g: Image, l: nat)
    requires l < |g.disk|
    ensures Sec(g, l) == g.disk[l]
  {
  }

  lemma OwnedMarked(g: Image, n: nat, s: Slot)
    requires Owned(g) && Live(g, n, s) != 0
    ensures Marked(g, Live(g, n, s))
  {
    hide Live, Marked;
  }

  lemma MarksAreData(g: Image)
    ensures forall l: nat :: Marked(g, l) ==> LBA_FREE <= l
  {
  }

  /** A sector that is no index block may change freely. */
  lemma PokeElsewhere(g: Image, lba: nat, x: Sector)
    requires 0 < lba < |g.disk| && NoIndexBlock(g, lba)
    ensures SameRefs(g, Poke(g, lba, x))
  {
    var h := Poke(g, lba, x);
    forall m: nat, t: Slot
      ensures Live(h, m, t) == Live(g, m, t)
    {
      if Allocated(g, m) {
        forall s: Slot | IndexRef(g, m, s) != 0
          ensures IndexRef(g, m, s) != lba
        {
          assert Live(g, m, s) == IndexRef(g, m, s);
        }
        RefFrame(g, h, m, t);
      }
    }
  }

  lemma PutDirect(g: Image, n: nat, k: nat, w: u32)
    requires Shape(g) && Allocated(g, n) && k < MAX_DIRECT
    ensures Updates(g, SetField(g, n, k, w), n, Data(k), w)
  {
    hide GetWord, Bit;
  }

  /** Writing entry k of an index block that lists data blocks. */
  lemma PutLeaf(g: Image, n: nat, s: Slot, k: nat, w: u32)
    requires Shape(g) && IndexOwned(g)
    requires s.Single? || s.Mid?
    requires k < LBAS_PER_SECTOR && Live(g, n, s) != 0
    ensures Live(g, n, s) < |g.disk|
    ensures var b := Live(g, n, s);
            Updates(g, Poke(g, b, PutWord(g.disk[b], k, w)), n, Under(s, k), w)
  {
    hide GetWord, Bit, PutWord, Under;
    var b := Live(g, n, s);
    MarkedInPool(g, b);
    var h := Poke(g, b, PutWord(g.disk[b], k, w));
    forall m: nat, t: Slot
      ensures Live(h, m, t) == if m == n && t == Under(s, k) then w else Live(g, m, t)
    {
      if Allocated(g, m) {
        forall u: Slot | IndexRef(g, m, u) == b
          ensures m == n && u == s
        {
          assert Live(g, m, u) == b;
        }
        if m != n {
          RefFrame(g, h, m, t);
        } else {
          assert IndexRef(g, m, Double) == Field(g, m, DOUBLE_INDEX);
          assert forall u: Slot :: IndexRef(h, m, u) == IndexRef(g, m, u);
          if t.Data? && MAX_DIRECT <= t.i {
            UnderIndex(s, k, t.i);
            if IndexOver(t.i) == s {
              PutGetWord(g.disk[b], k, w, Offset(t.i));
            }
          } else {
            UnderData(s, k);
          }
        }
      }
    }
  }

  /** A fresh zeroed block becomes the single-indirect block of n. */
  lemma NewSingle(g: Image, n: nat, a: u32)
    requires Shape(g) && IndexOwned(g) && Allocated(g, n)
    requires Live(g, n, Single) == 0
    requires LBA_FREE <= a < |g.disk| && NoIndexBlock(g, a)
    ensures Updates(g, Poke(SetField(g, n, SINGLE_INDEX, a), a, ZeroSector()), n, Single, a)
  {
    hide GetWord, Bit;
    var h := Poke(SetField(g, n, SINGLE_INDEX, a), a, ZeroSector());
    forall m: nat, t: Slot
      ensures Live(h, m, t) == if m == n && t == Single then a else Live(g, m, t)
    {
      if Allocated(g, m) {
        assert forall u: Slot :: Live(g, m, u) == Ref(g, m, u);
        assert forall u: Slot :: !u.Data? ==> Ref(g, m, u) == IndexRef(g, m, u);
        if m != n {
          RefFrame(g, h, m, t);
        } else {
          assert IndexRef(g, m, Double) == Field(g, m, DOUBLE_INDEX);
          assert forall u: Slot :: u != Single ==> IndexRef(h, m, u) == IndexRef(g, m, u);
          if t.Data? && MAX_DIRECT <= t.i < LEVEL1_BORDER {
            ZeroWord(Offset(t.i));
          }
        }
      }
    }
  }

  /** A fresh zeroed block becomes the double-indirect block of n. */
  lemma NewDouble(g: Image, n: nat, a: u32)
    requires Shape(g) && IndexOwned(g) && Allocated(g, n)
    requires Live(g, n, Double) == 0
    requires LBA_FREE <= a < |g.disk| && NoIndexBlock(g, a)
    ensures Updates(g, Poke(SetField(g, n, DOUBLE_INDEX, a), a, ZeroSector()), n, Double, a)
  {
    hide GetWord, Bit;
    var h := Poke(SetField(g, n, DOUBLE_INDEX, a), a, ZeroSector());
    forall m: nat, t: Slot
      ensures Live(h, m, t) == if m == n && t == Double then a else Live(g, m, t)
    {
      if Allocated(g, m) {
        assert forall u: Slot :: Live(g, m, u) == Ref(g, m, u);
        assert forall u: Slot :: !u.Data? ==> Ref(g, m, u) == IndexRef(g, m, u);
        if m != n {
          RefFrame(g, h, m, t);
        } else {
          forall q: nat
            ensures IndexRef(h, m, Mid(q)) == 0 && IndexRef(g, m, Mid(q)) == 0
          {
            if q < LBAS_PER_SECTOR {
              ZeroWord(q);
            }
          }
        }
      }
    }
  }

  /** What hanging a zeroed block at entry q of n's double-indirect block does to the index blocks of inode m. */
  lemma NewMidIndex(g: Image, n: nat, q: nat, a: u32, m: nat, u: Slot)
    requires Shape(g) && IndexOwned(g) && q < LBAS_PER_SECTOR
    requires Live(g, n, Double) != 0 && Allocated(g, m)
    requires LBA_FREE <= a < |g.disk| && NoIndexBlock(g, a)
    ensures Live(g, n, Double) < |g.disk|
    ensures var b := Live(g, n, Double);
            var h := Poke(Poke(g, b, PutWord(g.disk[b], q, a)), a, ZeroSector());
            IndexRef(h, m, u) == if m == n && u == Mid(q) then a else IndexRef(g, m, u)
  {
    hide GetWord, PutWord, Bit;
    var b := Live(g, n, Double);
    MarkedInPool(g, b);
    if u.Mid? && u.q < LBAS_PER_SECTOR {
      assert Live(g, m, Double) == IndexRef(g, m, Double) == Field(g, m, DOUBLE_INDEX);
      if m == n {
        PutGetWord(g.disk[b], q, a, u.q);
      }
    }
  }

  /** A fresh zeroed block becomes entry q of n's double-indirect block. */
  lemma NewMid(g: Image, n: nat, q: nat, a: u32)
    requires Shape(g) && IndexOwned(g) && Allocated(g, n) && q < LBAS_PER_SECTOR
    requires Live(g, n, Double) != 0 && Live(g, n, Mid(q)) == 0
    requires LBA_FREE <= a < |g.disk| && NoIndexBlock(g, a)
    ensures Live(g, n, Double) < |g.disk|
    ensures var b := Live(g, n, Double);
            Updates(g, Poke(Poke(g, b, PutWord(g.disk[b], q, a)), a, ZeroSector()), n, Mid(q), a)
  {
    hide GetWord, PutWord, Bit, IndexRef;
    var b := Live(g, n, Double);
    MarkedInPool(g, b);
    var h := Poke(Poke(g, b, PutWord(g.disk[b], q, a)), a, ZeroSector());
    forall m: nat, t: Slot
      ensures Live(h, m, t) == if m == n && t == Mid(q) then a else Live(g, m, t)
    {
      if Allocated(g, m) {
        var u := if t.Data? then IndexOver(t.i) else t;
        NewMidIndex(g, n, q, a, m, u);
        assert IndexRef(g, m, u) == Live(g, m, u);
        if t.Data? && MAX_DIRECT <= t.i {
          ZeroWord(Offset(t.i));
        }
      }
    }
  }

  /** bzero of an index entry leaves no reference behind: marking bits moves no block. */
  lemma MarkSameRefs(g: Image, free: seq<u8>)
    ensures SameRefs(g, g.(free := free))
  {
    var h := g.(free := free);
    forall m: nat, t: Slot
      ensures Live(h, m, t) == Live(g, m, t)
    {
      RefFrame(g, h, m, t);
    }
  }
}
