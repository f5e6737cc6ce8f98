/** The file system's mutable state: the disk, the inode table and the two bitmaps. */
module Volumes {
  import opened Bytes
  import opened Bitmaps
  import opened Images
  import opened Layout

  class Volume {
    const disk: array<Sector>
    /** __fs_inodes */
    const inodes: array<Inode>
    /** __bmfs and its buffer */
    const usedMap: Bitmap
    /** __bmfs_free and its buffer */
    const freeMap: Bitmap

    ghost function Repr(): set<object> {
      {disk, inodes, usedMap, usedMap.buff, freeMap, freeMap.buff}
    }

    ghost predicate Valid()
      reads Repr()
    {
      && usedMap != freeMap && usedMap.buff != freeMap.buff
      && disk as object != usedMap.buff && disk as object != freeMap.buff && disk as object != inodes
      && inodes as object != usedMap.buff && inodes as object != freeMap.buff
      && REQUIRED_SECTORS <= disk.Length < 0x1_0000_0000
      && inodes.Length == MAX_INODES
      && usedMap.Valid() && usedMap.len == MAX_INODES && usedMap.buff.Length == BYTES_SECTOR
      && freeMap.Valid() && freeMap.len == MAP_FREE_BITS && freeMap.buff.Length == MAP_FREE_BYTES
    }

    ghost function View(): (g: Image)
      reads Repr()
      requires Valid()
      ensures Shape(g)
    {
      Image(disk[..], inodes[..], freeMap.buff[..], usedMap.buff[..])
    }

    /** A machine that has just booted on a disk: empty bitmaps and inode table. */
    constructor (contents: seq<Sector>)
      requires REQUIRED_SECTORS <= |contents| < 0x1_0000_0000
      ensures Valid() && fresh(Repr())
      ensures View().disk == contents
    {
      disk := new Sector[|contents|](i requires 0 <= i < |contents| => contents[i]);
      inodes := new Inode[MAX_INODES](_ => EMPTY_INODE);
      usedMap := new Bitmap(MAX_INODES, BYTES_SECTOR);
      freeMap := new Bitmap(MAP_FREE_BITS, MAP_FREE_BYTES);
    }

    /** ata_driver_rw of one sector, ATA_CMD_IO_WRITE */
    method WriteSector(lba: nat, x: Sector)
      requires Valid() && lba < disk.Length
      modifies disk
      ensures View() == Poke(old(View()), lba, x)
    {
      disk[lba] := x;
    }

    /** ata_driver_rw of one sector, ATA_CMD_IO_READ */
    method ReadSector(lba: nat) returns (x: Sector)
      requires Valid() && lba < disk.Length
      ensures x == View().disk[lba] == Sec(View(), lba)
    {
      x := disk[lba];
    }

    /**
      ata_driver_rw of a buffer of several sectors, ATA_CMD_IO_WRITE: the sectors
      from lba on receive the buffer, the others keep their contents.
     */
    method WriteSectors(lba: nat, count: nat, buff: array<u8>)
      requires Valid() && lba + count <= disk.Length
      requires buff.Length == count * BYTES_SECTOR && disk as object != buff
      modifies disk
      ensures View() == old(View()).(disk := View().disk)
      ensures forall l | 0 <= l < disk.Length && !(lba <= l < lba + count) :: disk[l] == old(disk[l])
      ensures forall q | 0 <= q < count :: disk[lba + q] == buff[BYTES_SECTOR * q..BYTES_SECTOR * q + BYTES_SECTOR]
    {
      var i := 0;
      while i < count
        invariant 0 <= i <= count
        invariant forall l | 0 <= l < disk.Length && !(lba <= l < lba + i) :: disk[l] == old(disk[l])
        invariant forall q | 0 <= q < i :: disk[lba + q] == buff[BYTES_SECTOR * q..BYTES_SECTOR * q + BYTES_SECTOR]
      {
        disk[lba + i] := buff[BYTES_SECTOR * i..BYTES_SECTOR * i + BYTES_SECTOR];
        i := i + 1;
      }
    }

    /** ata_driver_rw of a buffer of several sectors, ATA_CMD_IO_READ. */
    method ReadSectors(lba: nat, count: nat, buff: array<u8>)
      requires Valid() && lba + count <= disk.Length
      requires buff.Length == count * BYTES_SECTOR && disk as object != buff
      modifies buff
      ensures forall q | 0 <= q < count :: disk[lba + q] == buff[BYTES_SECTOR * q..BYTES_SECTOR * q + BYTES_SECTOR]
    {
      var i := 0;
      while i < count
        invariant 0 <= i <= count
        invariant forall q | 0 <= q < i :: disk[lba + q] == buff[BYTES_SECTOR * q..BYTES_SECTOR * q + BYTES_SECTOR]
      {
        forall k | 0 <= k < BYTES_SECTOR {
          buff[BYTES_SECTOR * i + k] := disk[lba + i][k];
        }
        i := i + 1;
      }
    }
  }
}
