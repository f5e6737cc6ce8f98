/** kern/fs/super_block.c: computing the layout and keeping it in sector 1. */
module SuperBlocks {
  import opened Bitmaps
  import opened Bytes
  import opened Free
  import opened Images
  import opened Layout
  import opened Volumes
  import opened Wrappers

  /** The nine words of super_block_t. */
  function Words(sb: SuperBlock): (r: seq<u32>)
    ensures |r| == 9
  {
    [sb.magic, sb.partition, sb.superBlock, sb.mapInode, sb.inodes, sb.mapFree, sb.free, sb.mapFreeSectors,
     sb.blockIndexMax]
  }

  /** memmove of the structure into a sector; the rest of the sector keeps its bytes. */
  function Encode(sect: Sector, sb: SuperBlock): Sector {
    PutWords(sect, 0, Words(sb))
  }

  function Decode(s: Sector): SuperBlock {
    SuperBlock(GetWord(s, 0), GetWord(s, 1), GetWord(s, 2), GetWord(s, 3), GetWord(s, 4),
               GetWord(s, 5), GetWord(s, 6), GetWord(s, 7), GetWord(s, 8))
  }

  lemma SuperBlockRoundTrip(sect: Sector, sb: SuperBlock)
    ensures Decode(Encode(sect, sb)) == sb
  {
    hide GetWord;
    forall k: nat | k < 9
      ensures GetWord(Encode(sect, sb), k) == Words(sb)[k]
    {
      PutWordsAt(sect, 0, Words(sb), k);
    }
  }

  /** Where the bytes of the super block are in its sector; what follows them stays as it was. */
  lemma SuperBlockFormat(sect: Sector, sb: SuperBlock, k: nat)
    requires k < BYTES_SECTOR
    ensures var fields := [sb.magic, sb.partition, sb.superBlock, sb.mapInode, sb.inodes, sb.mapFree, sb.free,
                           sb.mapFreeSectors, sb.blockIndexMax];
            Encode(sect, sb)[k] ==
              if k < 36 then fields[k / 4] / [1, 0x100, 0x1_0000, 0x100_0000][k % 4] % 0x100 else sect[k]
  {
    hide GetWord;
    PutWordsAt(sect, 0, Words(sb), k / 4);
    ByteOfWord(Encode(sect, sb), k);
    ByteOfWord(sect, k);
  }

  /** The layout of every disk this kernel formats. */
  function Standard(): SuperBlock {
    SuperBlock(FS_HOO_MAGIC, BASE_PARTITION, BASE_SUPERBLOCK, BASE_MAP_INODES, BASE_INODES, BASE_MAP_FREE, LBA_FREE,
               MAP_FREE_SECTORS, BLOCK_INDEX_MAX)
  }

  /** init_layout: the two computed fields; None is the panic "no enough space for file system". */
  method InitLayout(devSec: nat) returns (r: Option<(nat, nat)>)
    ensures r.None? <==> devSec < REQUIRED_SECTORS
    ensures r.Some? ==> r.value == (MAP_FREE_SECTORS, BLOCK_INDEX_MAX)
  {
    var freeSec := MAX_INODES * (MAX_DIRECT + LBAS_PER_SECTOR + LBAS_PER_SECTOR * LBAS_PER_SECTOR);
    var freeBitmapSec := freeSec / BITS_PER_BYTE / BYTES_SECTOR + 1;
    var secIndirect2 := BASE_MAP_FREE + freeBitmapSec + freeSec;
    if devSec < secIndirect2 {
      return None;
    }
    var cnt, cube := MAX_INODE_BLOCKS - MAX_DIRECT - 1, 0;
    while cnt > 0
      invariant 0 <= cnt <= 1
      invariant cube == (1 - cnt) * (LBAS_PER_SECTOR * LBAS_PER_SECTOR)
    {
      cube := cube + LBAS_PER_SECTOR * LBAS_PER_SECTOR;
      cnt := cnt - 1;
    }
    r := Some((freeBitmapSec, MAX_DIRECT + LBAS_PER_SECTOR + cube));
  }

  /** setup_super_block: a disk without the magic number gets the standard layout, any other keeps its own. */
  method SetupSuperBlock(v: Volume, devSec: nat) returns (isNew: bool, sb: Option<SuperBlock>)
    requires v.Valid()
    modifies v.disk
    ensures v.Valid() && v.View() == old(v.View()).(disk := v.View().disk)
    ensures isNew <==> Decode(old(v.View()).disk[BASE_SUPERBLOCK]).magic != FS_HOO_MAGIC
    ensures forall l: nat | l < |v.View().disk| && l != BASE_SUPERBLOCK :: v.View().disk[l] == old(v.View()).disk[l]
    ensures sb.None? <==> isNew && devSec < REQUIRED_SECTORS
    ensures sb.Some? ==> sb.value == Decode(v.View().disk[BASE_SUPERBLOCK])
    ensures sb.Some? && isNew ==> sb.value == Standard()
    ensures !isNew ==> v.View() == old(v.View())
  {
    hide GetWord;
    var sect := v.ReadSector(BASE_SUPERBLOCK);
    var current := Decode(sect);
    isNew := current.magic != FS_HOO_MAGIC;
    sb := Some(current);
    if isNew {
      var layout := InitLayout(devSec);
      if layout.None? {
        return true, None;
      }
      var (mapFreeSectors, blockIndexMax) := layout.value;
      var mapFree := BASE_MAP_FREE;
      var laidOut := SuperBlock(FS_HOO_MAGIC, BASE_PARTITION, BASE_SUPERBLOCK, BASE_MAP_INODES, BASE_INODES, mapFree,
                              mapFree + mapFreeSectors, mapFreeSectors, blockIndexMax);
      SuperBlockRoundTrip(sect, laidOut);
      v.WriteSector(BASE_SUPERBLOCK, Encode(sect, laidOut));
      sb := Some(laidOut);
    }
  }

  /** Booting twice: the second boot finds an old disk and the same layout. */
  method BootTwice(v: Volume, devSec: nat) returns (first: Option<SuperBlock>, second: Option<SuperBlock>, isNew: bool)
    requires v.Valid() && REQUIRED_SECTORS <= devSec
    modifies v.disk
    ensures v.Valid() && first.Some? && second == first && !isNew
  {
    hide GetWord;
    var firstNew;
    firstNew, first := SetupSuperBlock(v, devSec);
    isNew, second := SetupSuperBlock(v, devSec);
  }

  /**
    The free map has more bits than the data blocks init_layout makes room for. Among the disks it
    accepts, free_allocate never hands out a sector past the end, whatever the map and the cursor
    are, exactly when the disk has MAPPED_SECTORS sectors.
   */
  lemma MapCoversDisk(devSec: nat)
    requires REQUIRED_SECTORS <= devSec
    ensures (forall bits: seq<u8>, cursor: nat, r: nat |
               |bits| == MAP_FREE_BYTES && cursor < MAP_FREE_BITS && FirstClear(bits, MAP_FREE_BITS, cursor, r) ::
               LBA_FREE + r < devSec)
            <==> MAPPED_SECTORS <= devSec
  {
    hide Bit;
    if devSec < MAPPED_SECTORS {
      var bits, cursor, r := PastTheEnd(devSec);
      assert FirstClear(bits, MAP_FREE_BITS, cursor, r) && devSec <= LBA_FREE + r;
    }
  }

  /** On a smaller disk: an empty map and a cursor that has come to the end. */
  lemma PastTheEnd(devSec: nat) returns (bits: seq<u8>, cursor: nat, r: nat)
    requires REQUIRED_SECTORS <= devSec < MAPPED_SECTORS
    ensures |bits| == MAP_FREE_BYTES && cursor < MAP_FREE_BITS
    ensures FirstClear(bits, MAP_FREE_BITS, cursor, r) && devSec <= LBA_FREE + r
  {
    bits, cursor, r := seq(MAP_FREE_BYTES, _ => 0), devSec - LBA_FREE, devSec - LBA_FREE;
    ZeroBit(bits, r);
    hide Bit;
  }

  lemma ZeroBit(bits: seq<u8>, k: nat)
    requires k / 8 < |bits| && bits[k / 8] == 0
    ensures !Bit(bits, k)
  {
    assert ToBits(bits[k / 8]) == 0;
  }

  /**
    A disk that is accepted and then filled: once all its data blocks are marked, the next
    request panics only when the map has no clear bit left either; otherwise it is handed a
    sector past the end.
   */
  lemma FullDisk(g: Image, cursor: nat, r: nat)
    requires Shape(g) && cursor < MAP_FREE_BITS
    requires forall lba: nat | InPool(g, lba) :: Marked(g, lba)
    ensures Refused(g, cursor)
    ensures RunsPast(g.free, cursor, |g.disk| - LBA_FREE) <==> !PoolFull(g)
    ensures FirstClear(g.free, MAP_FREE_BITS, cursor, r) ==> |g.disk| <= LBA_FREE + r
  {
    hide Bit;
    var n := |g.disk| - LBA_FREE;
    forall k | 0 <= k < n && k < MAP_FREE_BITS
      ensures Bit(g.free, k)
    {
      assert Marked(g, LBA_FREE + k);
    }
  }

  /**
    A disk that is accepted and a map of it with every block taken: wherever the cursor is, the next
    block is past the end.
   */
  lemma AcceptedButTooSmall() returns (devSec: nat, bits: seq<u8>)
    ensures REQUIRED_SECTORS <= devSec && |bits| == MAP_FREE_BYTES && !AllSet(bits, MAP_FREE_BITS)
    ensures forall k | 0 <= k < devSec - LBA_FREE :: Bit(bits, k)
    ensures forall cursor: nat, r: nat | cursor < MAP_FREE_BITS && FirstClear(bits, MAP_FREE_BITS, cursor, r) ::
              devSec <= LBA_FREE + r && RunsPast(bits, cursor, devSec - LBA_FREE)
  {
    devSec := REQUIRED_SECTORS;
    var n := devSec - LBA_FREE;
    bits := seq(MAP_FREE_BYTES, k => if k < n / 8 then 255 else 0);
    forall k | 0 <= k < n
      ensures Bit(bits, k)
    {
      FullByte(bits, k);
    }
    ZeroBit(bits, n);
    hide Bit;
    forall cursor: nat, r: nat | cursor < MAP_FREE_BITS && FirstClear(bits, MAP_FREE_BITS, cursor, r)
      ensures devSec <= LBA_FREE + r && RunsPast(bits, cursor, n)
    {
      PastEndIff(bits, cursor, n, r);
    }
  }

  lemma FullByte(bits: seq<u8>, k: nat)
    requires k / 8 < |bits| && bits[k / 8] == 255
    ensures Bit(bits, k)
  {
    assert ToBits(bits[k / 8]) == 255;
    assert 255 | Mask(k % 8) == 255;
    MaskSets(255, k % 8, k % 8);
  }
}
