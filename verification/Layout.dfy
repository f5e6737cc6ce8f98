/** kern/fs/fs_stuff.h and kern/fs/super_block.c: where each region of the disk lies. */
module Layout {
  import opened Bytes

  const MAX_DIRECT: nat := 6
  const MAX_INODE_BLOCKS: nat := 8
  const MAX_INODES: nat := 64
  const FS_HOO_MAGIC: u32 := 0x1905e14d
  const BASE_PARTITION: nat := 0
  const BASE_SUPERBLOCK: nat := 1
  const BASE_MAP_INODES: nat := 2
  const BASE_INODES: nat := 3
  const BASE_MAP_FREE: nat := 67
  const BITS_PER_BYTE: nat := 8

  /** map_free_sectors_, as init_layout computes it. */
  const MAP_FREE_SECTORS: nat := 259
  /** lba_free_, the first data block. */
  const LBA_FREE: nat := 326
  /** inode_block_index_max_, the number of logical blocks an inode can index. */
  const BLOCK_INDEX_MAX: nat := 16518
  /** Bytes and bits of the free map. */
  const MAP_FREE_BYTES: nat := 132608
  const MAP_FREE_BITS: nat := 1060864
  /** Bits of the free map in one sector. */
  const BITS_PER_SECTOR: nat := 4096
  /** Sectors the disk must have for every bit of the free map to name one of them. */
  const MAPPED_SECTORS: nat := 1061190
  /** SEC_INDIRECT2, the number of sectors init_layout insists on. */
  const REQUIRED_SECTORS: nat := 1057478

  datatype SuperBlock = SuperBlock(
    magic: u32,
    partition: u32, superBlock: u32, mapInode: u32, inodes: u32, mapFree: u32, free: u32,
    mapFreeSectors: u32,
    blockIndexMax: u32)
}
