# Verified model of the hoo kernel

This project models the parts of the hoo kernel whose correctness is not visible in any single
function, and proves what those parts promise together: the file system from bitmap to path, the
scheduler, the two memory allocators, the page map, and the path storage. Everything is a statement about
all inputs, all reachable states or all runs. Run `dafny verify dfyconfig.toml` (with
`--resource-limit 2000000 --verification-time-limit 0`) to check the whole project.

## How it is laid out

**The file system.** `Volume` is the mutable state: the disk as an array of 512-byte sectors, the inode
table, and the two packed bitmaps with their cursors (`Bitmap`, class `Bitmaps.Bitmap`). `Images` gives a
value snapshot of that state and the meaning of a block number: `Live(g, n, s)` is the block in slot `s`
of inode `n` (logical block, single-indirect, double-indirect, or an entry of the double-indirect block).
`Free`, `Inodes`, `Ownership`, `Files`, `Dirs`, `Create`, `Paths`, `Listing`, `Sweep`, `Remove` and `Mount`
follow the source files step by step and prove each call against the snapshot; `SuperBlocks` is the region
layout. `Tree` defines path resolution independently of the lookup loop, and `Prune` says what is left of the
tree after a removal. `System` and `FilesRemove` state the whole from outside: paths, file contents, reboot,
removal. `Runs` puts it against the simplest file system there is, a map from paths to contents. The
invariant `Sound` says that each block in use is marked and has exactly one place in exactly
one inode, that inodes on disk equal those in memory, that the free map on disk marks no block that is
unmarked in memory, that directories form a tree with distinct names whose dot entries lead to the directory
and to its parent, and that every plain file can be read to its end. No call needs more room in a
directory than there is: a tree never has more entries than inodes (`Tree.DirSmall`).

**The scheduler.** `Scheduling` is the state machine of the four task lists, one atomic step per call made
while the lock is free, with results about every run; `Slices` says what a run gives each task, its time slice
and its wakeup. `Containers` has the linked queue and list, `TaskLists` the two queues and two lists whose chains
never share a node while tasks move between them, and `Tasks` the code on them, which takes exactly the steps of
the state machine.

**Memory.** `VirtualSpace` is the first-fit range allocator with its three-way split on release, and
`VirtualRoom` what becomes of the room in it. `Slab` carves pages into slots. `PageStuff` has the laws of the
address macros on 32-bit words and `Paging` the physical page allocator, the two-level walk, and mappings
written through the recursive page map; `PageSetup` is the first page tables; `MemoryLayout` holds the constants.

**Paths.** `Curdir` is the stored current directory and the parent/child split; `CStrings` and `Bytes` are
the C string and buffer primitives they use.

A C `panic` is a failure result (`ok == false`, `None`) where the caller cannot rule it out, and a
precondition where the source only defends itself against misuse. Interrupts, the ATA handshake and the
task switch itself are outside; a disk transfer is a copy of sectors.

## What the proofs found

- The lookup loop of `diritem_find` never looks at an item's type. It walks into plain files, reading their
  contents as directory entries. It is path resolution for all plain paths exactly when no path leads to a
  plain file whose contents, read that way, hold a plain name (`Tree.LookupAgreesIff`). From a fresh disk,
  creating "/f" and writing 24 bytes into it is enough to make "/f/x" be found (`System.LookupBelowFile`).
- Creating a plain file marks a block without writing the free map; only a later flush, if there is one, puts
  it on disk. From every sound state, the map on disk is current after a creation, and so shows every block in
  use, exactly under `Paths.MapStaysCurrent`, which reads the state before the call: the parent's next entry
  fits a block already there and a directory is created, or it needs a new block and no new index block
  (`Paths.FilesCreate`). A reboot at any time keeps every path and every file, and it keeps ownership
  exactly when the map on disk showed every block in use (`Mount.Remount`, `System.Restart`); so a
  reboot right after a creation keeps it exactly under that condition (`Mount.CreateThenRemount`,
  `System.MakeThenRestart`). Formatting, creating "/f" and rebooting is a run that loses it
  (`System.UnsoundAfterRestart`). After every write the map on disk is current, with a transfer taken as a copy.
- On any accepted disk, every run of creating, writing, reading and rebooting that does not run out of room answers
  exactly as a map from paths to contents does, and leaves no marked block that nothing reaches; it cannot run out
  while the calls' cost fits the disk (`Runs.Session`). What a removal leaves marked is exactly what lay below the item and was not given
  back: index blocks, and what is behind a hole (`FilesRemove.FilesRemove`).
- In a lookup "." and ".." cancel against directories as they should (`Tree.DotsCancel`), but the root's ".." has
  inode -1, so that "/../x" panics (`Tree.AboveRoot`).
- `files_write` writes one sector too many when the size is a multiple of 512. The model passes that sector
  as `beyond`, arbitrary bytes, and proves that the file's contents do not depend on it.
- The free map has bits for 1061190 sectors, but `init_layout` accepts a disk of 1057478. On a smaller disk
  `free_allocate` hands out a sector past the end exactly when, from the cursor on and around, a clear bit past
  the disk's end comes before one of the disk's own (`Free.FreeAllocate`); this is what happens once such a
  disk is full (`SuperBlocks.FullDisk`). It never happens, for any map and cursor, exactly from 1061190
  sectors on (`SuperBlocks.MapCoversDisk`).
- Removing an entry shrinks `size_` without moving the last entry into the hole. After a removal, exactly the
  paths through the removed item and those through the last entry of its directory are gone, and the
  system is sound exactly when the two are the same (`FilesRemove.FilesRemove`). Removing "/a" after creating "/a" and
  "/b" loses "/b" (`FilesRemove.RemoveLosesAnother`). In every case the recursion ends and gives back exactly
  what is below the item: no block and no inode of anything else (`Sweep.RemoveSub`).
- `sleep` clears the task's mark only after it has let interrupts in again. A tick in between sends the task back
  to sleep, with nobody left to wake it, exactly when another task is ready (`Slices.MarkedGoesBackIff`; a run in
  which that happens is `Slices.LostWakeup`). Otherwise a sleeper sleeps until the first wakeup of its own resource
  (`Slices.SleepsUntilWoken`), and each turn lasts exactly TIMETICKS + 1 ticks (`Slices.TurnLasts`).
- `kill` removes the odd positions only; n expired tasks are gone after exactly floor(log2 n) + 1 calls
  (`Scheduling.RoundsEmpty`).
- `vir_alloc_pages` keeps its ranges sound exactly when the end of the request does not wrap around 2^32
  (`VirtualSpace.AllocKeepsInvIff`, `VirtualSpace.WrapExample`). It loses every live record exactly when it
  finds room before the first range (`VirtualSpace.AllocConservesIff`), which can happen exactly after
  the record at the start address was released (`VirtualSpace.ReleaseKeepsAnchorIff`; a run of four calls in
  `VirtualSpace.LossExample`).
- `vir_release_pages` gives released pages back for later requests exactly unless they were alone in a range that
  is not the first: then the range before is stretched over them (`VirtualRoom.RoomComesBackIff`; a run that
  loses room is `VirtualRoom.RoomLost`).
- `fmtlist_release` clears the whole chain when a kernel page becomes empty, so the other pages' free elements
  are never found again, exactly when the chain has other pages (`Slab.OthersStayIff`). Live elements still never overlap.
- `set_mapping` does not clear a new page table: the pages beside the mapped one stay unmapped exactly when
  the page's old contents had no present bit there (`Paging.StaysUnmappedIff`; a run in which one does not is
  `PageSetup.LeftOverMapping`). After boot each page of low memory shares its slot with its twin at
  0x80000000, and mapping one moves the other (`PageSetup.TwinMoves`).

## Model

| member | source | states |
|---|---|---|
| Bitmaps.WithBitEffect | kern/utilities/bitmap.c:49-76 | setting or clearing one bit of the packed buffer changes that bit and no other, over all byte and bit positions |
| Bitmaps.BitFromLowEnd | kern/utilities/bitmap.c:49-58 | bits count from the low end of their byte |
| Bitmaps.Bitmap.Test | kern/utilities/bitmap.c:31-40 | the bit's value; nothing changes |
| Bitmaps.Bitmap.Set | kern/utilities/bitmap.c:49-58 | the buffer with that one bit set |
| Bitmaps.Bitmap.Clear | kern/utilities/bitmap.c:67-76 | the buffer with that one bit cleared |
| Bitmaps.Bitmap.ScanEmpty | kern/utilities/bitmap.c:85-101 | next fit: fails only when every bit is set, otherwise returns the clear bit at the least cyclic distance from the cursor, which moves one past it; bits do not change |
| Images.InodeRoundTrip | kern/fs/inodes.c:100-113 | an inode written to its sector reads back unchanged |
| Images.InodeFormat | kern/fs/inodes.h:20-24 | byte by byte, what an inode's sector holds |
| Images.PutLeaf | kern/fs/inodes.c:160-166 | writing one entry of an index block changes one logical block of one inode, and no slot of any inode besides |
| Volumes.Volume.WriteSectors | kern/fs/free.c:63-66 | a multi-sector transfer puts exactly the buffer's sectors on disk |
| Free.FreeAllocate | kern/fs/free.c:38-41 | an unmarked block at or above `lba_free_`, the next one from the cursor; none exactly when the pool is full; says exactly, by the cursor and the clear bits, when the block lies past the end of the disk |
| Free.FreeMapSetup | kern/fs/free.c:50-57 | marks or unmarks that one block, in memory only |
| Free.FreeMapUpdate | kern/fs/free.c:63-66 | afterwards the map on disk is the one in memory and no sector outside the map's region changed |
| Free.SetupFreeMap | kern/fs/free.c:18-30 | a new disk gets an empty map, an old one supplies its own and its disk is untouched |
| Free.FreeSyncedUnique | kern/fs/free.c:18-30 | the map region of the disk alone determines a synced free map |
| Free.SyncedCovers | kern/fs/free.c:63-66 | a map on disk equal to the one in memory shows every block in use |
| Free.AheadTaken | kern/fs/free.c:38-41 | with a free block between the cursor and the disk's end, the next request stays on the disk and uses up one of them |
| Inodes.IblockSet | kern/fs/inodes.c:124-210 | the block map as a flat map: logical block i of n becomes lba, every other (m, j) keeps its block even when one or two index blocks are allocated on the way, new index blocks come from unmarked blocks, and only sectors of new or touched index blocks and of the inode change |
| Inodes.IblockGet | kern/fs/inodes.c:124-224 | the block set last, 0 if none; disk, maps and inodes do not change |
| Inodes.TakeBlock | kern/fs/inodes.c:152-158 | a block nobody holds, marked from now on; none exactly when the map is full or its next clear bit names no sector of the disk; never while a free block is ahead of the cursor |
| Inodes.SingleGrows | kern/fs/inodes.c:149-159 | hooking up a fresh single-indirect block adds that block and changes no data block of any inode |
| Inodes.DoubleGrows | kern/fs/inodes.c:167-176 | the same for the double-indirect block |
| Inodes.MidGrows | kern/fs/inodes.c:178-188 | the same for a first-level block under the double-indirect one |
| Ownership.AssignedOwned | kern/fs/inodes.c:149-194 | after `iblock_set` with a fresh block, each block in use is marked and has exactly one place in exactly one inode |
| Ownership.AssignedSynced | kern/fs/inodes.c:124-198 | `iblock_set` leaves every allocated inode on disk equal to the one in memory |
| Ownership.HookedBlock | kern/fs/files.c:246-251 | a fresh block hooked into a file keeps the invariant and every other inode's records, blocks and contents |
| Ownership.PokedBlock | kern/fs/files.c:244-252 | overwriting one data block changes that block's contents and nothing else in the system |
| Ownership.NewMarksHere | kern/fs/files.c:246-251 | a block that a step on an inode marks newly is in a slot of that inode |
| Files.WriteBlock | kern/fs/files.c:238-253 | one turn of the loop: block i holds the given sector afterwards, all else of every inode is kept; no block is lost, and when the block was there the free map and its cursor do not change |
| Files.FilesWrite | kern/fs/files.c:220-261 | the file then holds exactly the buffer, is readable to its end, all other inodes are untouched, and the free map on disk is current; it succeeds when all its blocks are there, and when three free blocks for each of its blocks are ahead of the cursor; no block is lost; the free map and its cursor do not change when all blocks are there, and otherwise at most three free blocks for each are used up |
| Files.FilesRead | kern/fs/files.c:178-210 | the first min(n, size) bytes are the file's, the rest of the caller's buffer is untouched, nothing on disk changes |
| Files.WriteThenRead | kern/fs/files.c:178-261 | reading back what was written gives the same bytes |
| Files.OtherFilesKept | kern/fs/files.c:220-261 | a write to one inode leaves the bytes of every other file as they were |
| Files.WrittenReads | kern/fs/files.c:238-258 | once all sectors and the size are in place, the file's bytes are the buffer's, whatever the extra sector holds |
| Dirs.ItemRoundTrip | kern/fs/dir.c:40-61 | a packed 24-byte entry reads back unchanged |
| Dirs.ItemFormat | kern/fs/dir.h:16-21 | byte by byte, what an entry looks like on disk |
| Dirs.PutGetItem | kern/fs/dir.c:40-61 | `dirblock_set` changes one of the 21 entries of a block and no other |
| Dirs.EntriesAre | kern/fs/dir.c:72-120 | the entry sequence built by the block loop has `size_` entries, and entry e is entry e mod 21 of block e div 21 |
| Dirs.IndexOfPush | kern/fs/dir.c:333-362 | after a push old names keep their index and a new name gets the old size |
| Dirs.FindSub | kern/fs/dir.c:72-120 | the index of the first entry with that name in the directory's sequence, over all its blocks, or -1 |
| Dirs.DiritemPush | kern/fs/dir.c:333-362 | the directory's sequence grows by exactly that entry, ownership and other inodes are kept; says exactly when the free map on disk is left current; no block is lost, and when the block was there the free map and its cursor do not change |
| Create.TakeInode | kern/fs/inodes.c:47-64 | an inode that is not in use, by next fit; none only when all are |
| Create.DiritemCreate | kern/fs/dir.c:296-324 | a new inode with one data block of its own; a directory starts with "." and ".."; a plain file is empty and leaves the free map on disk stale; other inodes are kept; no block is lost |
| Create.NewDirEntries | kern/fs/dir.c:17-30 | the first block of a new directory reads as the two entries "." and ".." |
| Listing.DiritemTraversal | kern/fs/dir.c:255-284 | the listing is the entry sequence, in order, across block boundaries; each name is the entry's, with a final "/" exactly for a directory |
| Listing.ListedName | kern/fs/dir.c:270-278 | the listed name is the entry's, with a "/" after it exactly when the entry is a directory |
| Tree.ComponentsOfParent | kern/utilities/curdir.c:119-150 | the components of any absolute path are those of its parent followed by the child's name |
| Tree.ResolveInjective | kern/fs/dir.c:206-246 | in the tree two plain paths never resolve to the same inode |
| Tree.DirSmall | kern/fs/dir.c:333-362 | a directory of the tree has at most as many entries as there are inodes, and "." and ".." |
| Tree.LookupAgreesIff | kern/fs/dir.c:206-246 | the lookup loop is path resolution, for all plain paths, exactly when no plain path leads to a plain file whose bytes read as an entry with a plain name |
| Tree.WalkIntoFile | kern/fs/dir.c:218-243 | a file whose first bytes spell an entry is searched as a directory with that entry first, where resolution ends |
| Tree.TreeWalkSafe | kern/fs/dir.c:206-246 | in the tree every lookup of a plain path that meets no file early runs without a panic |
| Tree.GraftedTree | kern/fs/files.c:84-91 | a fresh inode's entry at the end of one directory makes a tree again |
| Tree.GraftResolve | kern/fs/files.c:84-91 | afterwards the paths through the new entry reach it and all other paths resolve as before |
| Tree.GraftedDots | kern/fs/dir.c:17-30 | "." leads to the directory itself and ".." to the one that lists it, for the new directory as for the old ones |
| Tree.DotsCancel | kern/fs/dir.c:206-246 | in every path looked up, "." after a directory can be left out, and ".." takes the component before it back |
| Tree.AboveRoot | kern/fs/dir.c:206-246 | ".." in the root leads to no inode, and a lookup that goes on from there panics |
| Paths.DiritemFind | kern/fs/dir.c:206-246 | true exactly when every component is found and the last entry hit has a name; then that entry; nothing changes |
| Paths.FindsResolved | kern/fs/dir.c:206-246 | for a path whose parent is a directory of the tree, lookup and resolution agree, for the path and for its parent |
| Paths.ThroughIsPath | kern/fs/files.c:77-91 | the path created, and no other plain path, runs through the new entry |
| Paths.FilesCreate | kern/fs/files.c:63-94 | -1 exactly when the path resolves already; otherwise it resolves to the new item, every other path resolves as before, every file keeps its bytes; if the map on disk marks no unmarked block, it is current afterwards, and shows every block in use, exactly under `MapStaysCurrent`; says when it fails; no block is lost |
| Curdir.CurrentDirectory.Get | kern/utilities/curdir.c:34-55 | the stored path and a NUL, or -1 and a zeroed buffer exactly when it does not fit |
| Curdir.CurrentDirectory.Set | kern/utilities/curdir.c:67-90 | 0 exactly when the path has fewer than 256 pieces, and then what is stored is the path; -1 leaves its first 256 pieces |
| Curdir.CurdirCopy | kern/utilities/curdir.c:99-106 | the copy stores the same path, the original is untouched |
| Curdir.ParentChildRejoin | kern/utilities/curdir.c:119-150 | the parent ends in "/", the child has none, and together they are the path up to one final "/" |
| Curdir.ReachesRoot | kern/utilities/curdir.c:119-150 | taking the parent again and again ends at "/", after at most as many steps as the path has characters |
| Curdir.ParentChild | kern/utilities/curdir.c:119-150 | the in-place buffer code leaves exactly that parent and that child |
| Mount.SetupInode | kern/fs/inodes.c:20-39 | a new disk gets an empty inode map, an old one gives back its map and its allocated inodes |
| Mount.SameSystemKeeps | kern/fs/inodes.c:20-39 | equal disk, inode map and allocated inodes mean that every block keeps its place, every inode its copy on disk and every file its bytes |
| Mount.Remount | kern/module/fs.c:27-40 | allocated inodes, disk, the place of every block and the bytes of every file come back as they were; ownership holds afterwards exactly when the map on disk before showed every block in use; the blocks lost afterwards are exactly those the map on disk showed and nothing used |
| Mount.CreateThenRemount | kern/fs/files.c:63-94 | a reboot right after `files_create` keeps ownership exactly when, in the state before the call, the parent's next entry and the kind of the new item meet `MapStaysCurrent`, or nothing was created and the map on disk showed every block in use; says when the creation fails |
| Mount.Format | kern/module/fs.c:27-45 | a fresh disk is consistent, its tree is the root alone, both maps are on disk, and no block is lost |
| SuperBlocks.SuperBlockRoundTrip | kern/fs/super_block.c:52-82 | the encoded super block decodes to itself |
| SuperBlocks.SuperBlockFormat | kern/fs/super_block.h:11-21 | byte by byte, what the super block's sector holds; what follows it is kept |
| SuperBlocks.InitLayout | kern/fs/super_block.c:14-43 | fails exactly below 1057478 sectors; the loop computes 259 map sectors and 16518 indexable blocks |
| SuperBlocks.SetupSuperBlock | kern/fs/super_block.c:52-82 | formats exactly when the magic number is missing; an old disk is not written |
| SuperBlocks.BootTwice | kern/fs/super_block.c:52-82 | the second boot finds an old disk with the layout of the first |
| SuperBlocks.MapCoversDisk | kern/fs/super_block.c:14-43 | among accepted disks, `free_allocate` never leaves the disk, over all maps and cursors, exactly from 1061190 sectors on |
| SuperBlocks.FullDisk | kern/fs/free.c:38-41 | once all blocks of the disk are marked, the next request leaves the disk exactly when the map still has a clear bit |
| SuperBlocks.AcceptedButTooSmall | kern/fs/super_block.c:27-34 | an accepted disk and a map with every block of the disk marked and a clear bit left, from which, wherever the cursor is, the next block lies past the end |
| Remove.ZeroedEntries | kern/fs/dir.c:374-398 | zeroing entry k and shrinking the size drops the last entry from the sequence and blanks entry k |
| Remove.OthersFoundIffLast | kern/fs/dir.c:386-388 | with distinct names, all other names are still found exactly when the last entry was removed |
| Sweep.SweepFile | kern/fs/dir.c:131-136 | unmarks the file's data blocks up to the first hole and nothing else |
| Sweep.BelowDir | kern/fs/dir.c:138-151 | what paths lead to below a directory is itself and what they lead to below its entries |
| Sweep.PathShort | kern/fs/dir.c:128-156 | no path in the tree is as long as there are inodes, which bounds the recursion |
| Sweep.RemoveSub | kern/fs/dir.c:128-156 | the recursion ends; exactly the inodes that some path from the item leads to are given back, and exactly the data blocks of those up to the first hole, a directory's also up to its size |
| Remove.SubtreeIsGone | kern/fs/dir.c:384-394 | after both maps are flushed: every inode that is not below the item keeps its blocks, all marked, and their contents |
| Remove.DiritemRemove | kern/fs/dir.c:374-398 | -1 exactly when the name is missing; otherwise the entry is blanked, and everything below it, file or directory, is gone and nothing else |
| Prune.PrunedPaths | kern/fs/dir.c:384-388 | the plain paths through the item and through the last entry of its directory are gone, all others resolve as before |
| Prune.PrunedTree | kern/fs/dir.c:384-388 | the directories left form a tree again exactly when the entry was the last one |
| Prune.LeftDots | kern/fs/dir.c:384-388 | the dot entries of the directories left still lead to the directory and to its parent |
| FilesRemove.FilesRemove | kern/fs/files.c:106-123 | -2 for the root and below a plain file, -1 exactly when the parent's path names nothing, -3 exactly when the last component alone is missing, 0 otherwise; on 0 exactly the item's inodes and blocks are given back, the blocks lost are exactly those below it that are not, exactly two families of paths are gone, files on all other paths keep their bytes, and the system is sound exactly when the two families are one |
| FilesRemove.RemoveMissing | kern/fs/files.c:113-120 | on any accepted disk just formatted, removing "/x" gives -3 and removing "/q/x" gives -1 |
| FilesRemove.RemoveLosesAnother | kern/fs/files.c:106-123 | on any accepted disk, creating "/a" and "/b" and removing "/a" leads to an unsound system in which "/b" is gone |
| System.Start | kern/module/fs.c:27-45 | a formatted system is sound and no block is lost |
| System.Make | kern/fs/files.c:63-94 | creation keeps soundness, brings in exactly the new path, as the last entry of its directory, changes no file; the exact condition for the free map on disk, and when it fails; no block is lost |
| System.Open | kern/fs/files.c:132-150 | on every path that meets no plain file early: the inode it resolves to, a readable plain file; none, for the source's -1, exactly when the path names nothing |
| System.Write | kern/fs/files.c:220-261 | the path's file then holds the buffer; every other path and file is as before; the system stays sound and the free map current; it succeeds whenever the file is long enough already; no block is lost, and then not even the free map or its cursor changes |
| System.Read | kern/fs/files.c:178-210 | the bytes of the file the path names |
| System.Restart | kern/module/fs.c:27-40 | rebooting at any time keeps every path and every file, and keeps soundness exactly when the map on disk showed every block in use; it loses no block |
| System.MakeThenRestart | kern/fs/files.c:63-94 | creating and rebooting keeps every other path and file, and leaves a sound system exactly under the condition on the state before the creation; says when the creation fails |
| System.UnsoundAfterRestart | kern/fs/dir.c:307-308 | formatting any accepted disk, creating "/f" and rebooting leaves the file, and a system that is not sound |
| System.LookupBelowFile | kern/fs/dir.c:206-246 | formatting, creating "/f" and writing the bytes of an entry "x" into it leads to a sound system in which "/f/x" is found although it names nothing |
| Runs.PathOfIs | kern/fs/dir.c:206-246 | every list of plain components is that of some path |
| Runs.NotBehind | kern/fs/dir.c:206-246 | where no file of the map stands on the way, lookup meets none |
| Runs.ShowsAfter | kern/fs/files.c:63-261 | a call that changes what one path names changes the map there and nowhere else |
| Runs.Do | kern/fs/files.c:63-261 | one call of creating, writing, reading or rebooting: the answer is the map's, the disk holds the map afterwards, no block is lost, and it cannot fail when its cost in blocks and inodes is there |
| Runs.Session | kern/fs/files.c:63-261 | over every run of such calls on a new disk, all answers are the map's, in the end each path names what it names in the map, the system is sound, every marked block is reached by an allocated inode, and the run succeeds while its cost fits the disk |
| Containers.Queue.Push | kern/utilities/queue.c:40-54 | the linked queue grows by the node at its tail |
| Containers.Queue.Pop | kern/utilities/queue.c:63-75 | the first node leaves, unlinked, the others stay in order; null when empty |
| Containers.Queue.Front | kern/utilities/queue.c:84-89 | the first node, null when empty |
| Containers.List.Find | kern/utilities/list.c:29-37 | the node at a position counted from 1, the sentinel at 0 |
| Containers.List.Insert | kern/utilities/list.c:47-56 | the node becomes position idx, the others keep their order |
| Containers.List.Remove | kern/utilities/list.c:66-77 | the node at idx leaves, unlinked, the others keep their order |
| Scheduling.StepKeepsInv | kern/sched/tasks.c:161-242 | each step keeps every task in exactly one list, at most one running, sleepers with a resource, time slices bounded |
| Scheduling.StepConserves | kern/sched/tasks.c:161-404 | tasks after a step plus those destroyed are tasks before plus those forked |
| Scheduling.RunKeepsInv | kern/sched/tasks.c:161-404 | the partition and the bounds hold over every run |
| Scheduling.RunConserves | kern/sched/tasks.c:161-404 | over every run, tasks left and tasks destroyed are together all that ever existed |
| Scheduling.DestroyedOnce | kern/sched/tasks.c:386-404 | over every run no task is destroyed twice and a destroyed task is in no list |
| Scheduling.PickSplits | kern/sched/tasks.c:233-242 | wakeup's two sides hold each sleeper once |
| Scheduling.PickedWait | kern/sched/tasks.c:233-242 | one side waits on the resource, the other does not |
| Scheduling.PickStable | kern/sched/tasks.c:233-242 | both sides keep the order of the sleeping list |
| Scheduling.StepAdvances | kern/sched/tasks.c:161-198 | no step moves a ready task further from running, and each scheduler call brings it closer |
| Scheduling.WaitsAtMost | kern/sched/tasks.c:161-198 | whatever else the run holds, the task has run once the run holds as many scheduler calls as its distance |
| Scheduling.BoundedWaiting | kern/sched/tasks.c:161-198 | position k of the ready queue has run after at most (k + 1) * (TIMETICKS + 1) scheduler calls |
| Scheduling.KillSplits | kern/sched/tasks.c:386-404 | one call destroys the odd positions once each and leaves floor(n / 2) tasks |
| Scheduling.RoundsEmpty | kern/sched/tasks.c:386-404 | repeated calls empty the list after exactly floor(log2 n) + 1 calls, not before |
| Scheduling.RoundsDestroyAll | kern/sched/tasks.c:386-404 | by then each task was destroyed exactly once |
| Slices.RunKeepsFull | kern/sched/tasks.c:161-312 | over every run, a ready task that is awake has its whole slice |
| Slices.SliceLasts | kern/sched/tasks.c:167-173 | the running task goes on running for as many ticks as its slice has left, whatever the others do |
| Slices.SliceEnds | kern/sched/tasks.c:167-192 | the next tick puts it at the end of the ready queue with a whole slice, and the first of the queue runs; it goes on when nothing is ready |
| Slices.TurnLasts | kern/sched/tasks.c:161-198 | over every run in which it neither sleeps nor exits, a task's turn lasts exactly TIMETICKS + 1 ticks |
| Slices.SleepsUntilWoken | kern/sched/tasks.c:207-242 | after a sleep with another task ready, the task is on the sleeping list over every run without a wakeup of its resource, and the first one makes it ready |
| Slices.SleepsAlone | kern/sched/tasks.c:207-217 | with nothing ready it goes on running, with the mark |
| Slices.ResumedStaysUp | kern/sched/tasks.c:219-220 | from the end of sleep on, a task is never on the sleeping list before the next call of sleep |
| Slices.ForkedStaysUp | kern/sched/tasks.c:297-312 | a forked task is at the end of the ready queue and never put to sleep before a call of sleep |
| Slices.ExitIsFinal | kern/sched/tasks.c:372-376 | a task that exits is expired, and over every run never ready, running or asleep again |
| Slices.MarkedGoesBackIff | kern/sched/tasks.c:216-220 | a tick before the mark is cleared sends the task back to sleep exactly when a task is ready |
| Slices.LostWakeup | kern/sched/tasks.c:216-220 | a run at whose end a task that was woken sleeps again, its wakeup spent |
| Tasks.Scheduler.Schedule | kern/sched/tasks.c:161-198 | on the linked queues and lists, exactly the scheduler step of the state machine; no node ends up in two of them; a ready task that is awake always has its whole slice |
| Tasks.Scheduler.SleepOn | kern/sched/tasks.c:207-217 | the step that marks the running task and calls the scheduler, on the same four |
| Tasks.Scheduler.FinishSleep | kern/sched/tasks.c:220-222 | the end of sleep clears the mark of the task that runs again |
| Tasks.Scheduler.Wakeup | kern/sched/tasks.c:233-242 | exactly the tasks waiting for the resource get ready, in order |
| Tasks.Scheduler.ForkTask | kern/sched/tasks.c:297-312 | the child, a node of none of the four, at the tail of the ready queue with a full slice |
| Tasks.Scheduler.ExitTask | kern/sched/tasks.c:372-376 | the running task's node moves from the running queue to the end of the expired list |
| Tasks.Scheduler.Kill | kern/sched/tasks.c:386-404 | the destroyed tasks are exactly the odd positions, in order |
| Tasks.WakeAll | kern/sched/tasks.c:233-242 | the loop on the linked list, its index stepping back after each removal, ends with exactly the waiting tasks moved, in order |
| Tasks.KillAll | kern/sched/tasks.c:386-404 | the loop over the shrinking linked list takes out exactly the odd positions, in order |
| TaskLists.FourLists.Stop | kern/sched/tasks.c:177 | the first node leaves the running chain and is then in none of the four; the other three chains are as before |
| TaskLists.FourLists.Rest | kern/sched/tasks.c:181 | a node of none of the four joins the sleeping chain at its end; the other three chains are as before |
| TaskLists.FourLists.Wake | kern/sched/tasks.c:238 | the node at that position leaves the sleeping chain and is then in none of the four |
| VirtualSpace.Vspace.AllocPages | kern/mem/vm.c:42-88 | the first gap that holds the request, with the panic exactly when nothing follows and the end, as a 32-bit number, reaches the limit |
| VirtualSpace.Vspace.ReleasePages | kern/mem/vm.c:98-177 | finds the record and applies the begin, middle or end case; both loops, the node-moving one included, end |
| VirtualSpace.MoveTail | kern/mem/vm.c:133-137 | the node-moving loop splits the list at the position, keeping the order |
| VirtualSpace.LiveDisjoint | kern/mem/vm.c:42-88 | live records never overlap, start at or above the start address and end below 0x80000000 where that is below it, below the metadata otherwise |
| VirtualSpace.AllocFree | kern/mem/vm.c:42-88 | an address handed out overlaps no live record; its end is below that limit exactly when it does not wrap around |
| VirtualSpace.AllocKeepsInvIff | kern/mem/vm.c:62-83 | ranges stay sorted, disjoint and below the limit exactly when the end of the request does not wrap |
| VirtualSpace.WrapExample | kern/mem/vm.c:62-65 | a request of 2^20 pages that is accepted and breaks the ranges |
| VirtualSpace.AllocConservesIff | kern/mem/vm.c:67-80 | no record is lost exactly when the room found is not before the first range |
| VirtualSpace.LossExample | kern/mem/vm.c:67-80 | four calls after which every live record but the newest is lost |
| VirtualSpace.AllocKeepsAnchor | kern/mem/vm.c:42-88 | while the first range starts at the start address, no request finds room before it |
| VirtualSpace.ReleaseConserves | kern/mem/vm.c:98-177 | every release takes out its own record and no other |
| VirtualSpace.ReleaseKeepsInv | kern/mem/vm.c:154-172 | every release keeps ranges sorted and disjoint and records descending inside them |
| VirtualSpace.ReleaseKeepsAnchorIff | kern/mem/vm.c:154-172 | the first range keeps its start exactly when the record at the start address stays |
| VirtualSpace.RunSafe | kern/mem/vm.c:42-177 | over every run, ranges stay sound and the live records are exactly those granted and not released |
| VirtualRoom.RoomAfterRelease | kern/mem/vm.c:154-172 | how much more can be handed out after a release, exactly, in each case |
| VirtualRoom.RoomComesBackIff | kern/mem/vm.c:154-172 | released pages can be handed out again exactly unless they were alone in a range that is not the first |
| VirtualRoom.GapAfterRelease | kern/mem/vm.c:154-172 | the gap behind the range, before it, or between its halves that a release opens, exactly |
| VirtualRoom.RoomAfterRequest | kern/mem/vm.c:42-88 | while the first range starts at the start address, a request takes its pages out of the room and no more |
| VirtualRoom.ReleasedIsGranted | kern/mem/vm.c:42-177 | after a release from a range with other records, a request of that size is granted, at the place released or before it |
| VirtualRoom.SameAddressAgain | kern/mem/vm.c:42-177 | n pages requested one by one, the highest released and requested again: the same address and the same list |
| VirtualRoom.RoomLost | kern/mem/vm.c:42-177 | five pages requested and three of them released, after which the next address is past all of them |
| Slab.Carve | kern/mem/format_list.c:14-46 | the pointer-stepping loop links every slot of the page, in address order; the page holds as many as fit |
| Slab.CapacityIsMost | kern/mem/format_list.c:24 | that many slots fit a page and one more does not |
| Slab.SlotInside | kern/mem/format_list.c:25-44 | each slot lies inside its page, past the header and its list node |
| Slab.SlotsApart | kern/mem/format_list.c:25-44 | slots with their nodes do not overlap |
| Slab.LiveApart | kern/mem/format_list.c:56-134 | live elements never overlap, across pages too |
| Slab.FreeAndUsed | kern/mem/format_list.c:56-134 | for each page, free elements and elements in use add up to the capacity |
| Slab.Chain.Alloc | kern/mem/format_list.c:56-90 | an element that was not live, from the first page with a free one or a newly carved page; no other element changes state; fails exactly when no element fits a page |
| Slab.Chain.Release | kern/mem/format_list.c:100-134 | true exactly when the element's page is on the chain; then that element and no other stops being live |
| Slab.OthersStayIff | kern/mem/format_list.c:120-129 | the other pages stay on the chain unless a kernel page becomes empty while the chain has others |
| PageStuff.PteInjective | kern/page/page_stuff.h:13-32 | two addresses have the same `GET_PTE` exactly when they are in the same page |
| PageStuff.PteOfPte | kern/page/page_stuff.h:27-32 | `GET_PTE` of `GET_PTE` is `GET_PDE`, and the directory is its own table |
| PageStuff.TableWalkAddress | kern/sched/tasks.c:274-287 | the addresses that fork and exit form from a directory entry are `GET_PTE` of page (i, j) |
| PageStuff.MacrosAreSums | kern/page/page_stuff.h:27-32 | the ORs of the macros are sums |
| Paging.MacrosAreNumbers | kern/page/page_stuff.h:13-32 | the four macros on 32-bit words and the arithmetic of the page walk give the same numbers, for every address |
| Paging.RecursiveMap | kern/page/page_stuff.h:27-32 | translated by the two-level walk, `GET_PDE` and `GET_PTE` reach the entry's word in physical memory |
| Paging.MacrosReach | kern/page/page_stuff.h:27-32 | the same for the macros on 32-bit words |
| Paging.WalkAfter | kern/mem/pm.c:83-97 | the walk of every page after `set_mapping`, in full |
| Paging.MapsPage | kern/mem/pm.c:83-97 | the page mapped is found at its frame |
| Paging.OthersKeep | kern/mem/pm.c:83-97 | every page mapped before keeps its frame, also when a table is allocated, except one that shares the page's slot, which moves with it, or one below a replaced supervisor entry |
| Paging.KeepsFrameIff | kern/mem/pm.c:83-97 | where every present directory entry is for user mode, as all that the kernel writes are, a mapped page keeps its frame exactly when it does not share the slot or had the new frame already |
| Paging.StaysUnmappedIff | kern/mem/pm.c:88-93 | a page beside the mapped one in a new table stays unmapped exactly when the table's page held no present bit for it |
| Paging.PhysicalMemory.AllocPage | kern/mem/pm.c:37-44 | a page whose bit was clear, so no directory and no table in use; none exactly when all bits are set |
| Paging.PhysicalMemory.ReleasePage | kern/mem/pm.c:52-61 | that page's bit is cleared, null is ignored |
| Paging.PhysicalMemory.SetMapping | kern/mem/pm.c:83-97 | the stores through the recursive map change physical memory exactly as stated by the walk; all tables stay apart and marked |
| PageSetup.SetUpPaging | kern/page/page.c:7-24 | two directory entries for one table of the first 256 frames, and the recursive entry |
| PageSetup.SetUpWalks | kern/page/page.c:10-17 | page k of low memory, and page k above 0x80000000, both walk to frame k, through one slot |
| PageSetup.TwinMoves | kern/mem/pm.c:83-97 | after boot, mapping a page of low memory moves its twin along |
| PageSetup.LeftOverMapping | kern/mem/pm.c:88-93 | a run after which a page that nobody mapped is mapped |

## Left out

- Paths.FilesCreate: requires the parent to be a directory, because the source does not check it and would add the entry to a plain file's bytes. It covers plain components without "." and "..", in paths of at most 15 characters, which is what the source's buffers hold.
- Paths.DiritemFind: requires each item searched to stay inside the indexable blocks, where the source would panic, and the names up to the one looked for to hold a NUL in their 16 bytes, because the source reads past them otherwise.
- Dirs.FindSub: the same, for the one directory it searches.
- Listing.DiritemTraversal: requires every name of the directory to hold a NUL in its 16 bytes, because the source reads past it otherwise.
- Inodes.TakeBlock: fails as soon as the block handed out lies past the disk's end; the source goes on until that sector is read or written.
- Volumes.Volume.WriteSectors: a transfer is a copy of all its sectors. The interrupt-mode driver gives the sector count to the disk in eight bits (kern/driver/ata/ata_irq.c:75, kern/driver/ata/ata_device.c:94), which turns the 259 sectors of the free map into 3; "the map on disk is current" is about the copy.
- Files.FilesWrite: requires size / 512 below the indexable blocks, where the source panics after writing; and takes the bytes after the caller's buffer as an argument. When it succeeds is given as two sufficient conditions; `Free.FreeAllocate` has the exact one for one block.
- Curdir.CurrentDirectory.Set: requires every component to be followed by "/" within 14 characters, because the source copies on past the slot otherwise.
- Curdir.CurrentDirectory.Get: requires a buffer one byte longer than `pathlen` when the path fills it exactly, because the source writes the NUL there.
- Remove.DiritemRemove: requires the item to be the one that its name finds in a directory of the tree, as its caller does; index blocks stay marked, as in the source.
- FilesRemove.FilesRemove: requires a parent's path on which no plain file stands before the end, because the lookup goes on inside it otherwise (`System.LookupBelowFile`); paths as for Paths.FilesCreate. What a second removal does after one that broke the tree is not modelled.
- Runs.Do: a reboot is allowed only while nothing was created since the last write, which keeps the map on disk current; `System.MakeThenRestart` has the exact condition. A removal is no call of these runs; what it does to all paths and blocks is `FilesRemove.FilesRemove`. The cost is an upper bound: 4 blocks for a creation, 3 for each block of a write that makes a file longer.
- System.Open: requires a path that meets no plain file early (`System.LookupBelowFile` is about the others) and names no directory, where the source panics. Descriptors and the open-file table are outside.
- Tasks.Scheduler.ForkTask: a task's PCB is new. The reuse of a thread number and PCB that exit releases before kill has cleared it is not modelled.
- Tasks.Scheduler.Schedule: the PCB fields `ticks_` and `sleep_` are maps from nodes; `switch_to` and the TSS are outside.
- Tasks.Scheduler.SleepOn: releasing the resource's lock is outside.
- Tasks.Scheduler.FinishSleep: taking the resource's lock again is outside.
- Tasks.Scheduler.Kill: the release of stacks, page directory and PCB is outside, as is the release of a task's memory in exit.
- VirtualSpace.Vspace.ReleasePages: requires a live record, and another range behind one whose only record goes, because the source reads through a null link otherwise. The release of the physical pages is `Paging.PhysicalMemory.ReleasePage`.
- VirtualSpace.RunSafe: is about runs without a request that wraps and without the release of the record at the start address; what those two do is VirtualSpace.AllocKeepsInvIff and VirtualSpace.ReleaseKeepsAnchorIff.
- VirtualSpace.Vspace.AllocPages: requires ranges at or above the start address. Range nodes shared by a fork's copy of the head are not modelled; the two lists are sequences of values.
- Slab.Carve: the free list is the sequence of slot addresses; the node words and the zeroing of the page are outside.
- Slab.Chain.Alloc: the page that a new mapping would use is an argument; the list nodes inside the slots are addresses, not memory contents.
- Slab.Chain.Release: requires an element in use or one of another chain, and a carved chain; the source does not check the former and panics on the latter.
- Paging.PhysicalMemory.SetMapping: excludes the last directory entry, which is the recursive map itself; TLB invalidation and write protection are outside. The boot tables share one page table between two directory entries (`PageSetup.TwinMoves`).
- PageSetup.SetUpPaging: requires the directory's other entries not to be present; neither the boot sector nor the kernel clears them. The control registers and the tables of the boot sector itself are outside.
- Paging.PhysicalMemory.ReleasePage: requires a page that is no table in use; exit clears the entries it releases.
- `release_vspace`, copy-on-write, the table copies of fork, and exec.
- Open-file tables, descriptors, standard input and output, `dir_change`, built-in programs and logging.
- Spinlocks, interrupts, the keyboard, the ATA handshake: steps are atomic, transfers are copies.
- `queue_push` at the head, cyclic lists, the circular buffer, `cachebuff_write`, `fmngr_alloc`.
- `strcmp` and `memmove` stand for what they mean, not for their loops.
