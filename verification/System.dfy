/** The file system seen from its paths: what every call keeps and what every call changes. */
module System {
  import opened Bytes
  import opened Bitmaps
  import opened CStrings
  import opened Create
  import Curdir
  import opened Dirs
  import opened Files
  import opened Free
  import opened Images
  import opened Inodes
  import opened Layout
  import opened Mount
  import opened Ownership
  import opened Paths
  import opened Tree
  import opened Volumes
  import opened Wrappers

  /**
    The invariant of every run: blocks are owned and inodes written through, the directories
    form a tree, the free map on disk is at most behind the one in memory, and every plain file
    can be read to its end.
   */
  ghost predicate Sound(g: Image, dirs: set<nat>) {
    && Consistent(g) && TreeOk(g, dirs) && MapBehind(g)
    && forall n: nat | Allocated(g, n) && n !in dirs :: n < |g.inodes| && Readable(g, n)
  }

  ghost predicate IsFile(g: Image, path: seq<u8>) {
    var r := Resolve(g, Root(), Components(path));
    path != [] && path[0] == SLASH && Plain(Components(path)) && r.Some? && r.value.kind == TYPE_FILE
  }

  /** The contents of the file a path names; empty when it names nothing. */
  ghost function Contents(g: Image, path: seq<u8>): seq<u8> {
    var r := Resolve(g, Root(), Components(path));
    if r.Some? && r.value.inode < |g.inodes| then FileBytes(g, r.value.inode) else []
  }

  /** Every path but those with components cs resolves to the same item. */
  ghost predicate PathsKept(g: Image, h: Image, except: set<seq<seq<u8>>>) {
    forall cs | Plain(cs) && cs !in except :: Resolve(h, Root(), cs) == Resolve(g, Root(), cs)
  }

  /** Every file but those with components cs is still there with the same contents. */
  ghost predicate FilesKept(g: Image, h: Image, except: set<seq<seq<u8>>>) {
    forall q | IsFile(g, q) && Components(q) !in except :: IsFile(h, q) && Contents(h, q) == Contents(g, q)
  }

  lemma SoundParts(g: Image, dirs: set<nat>)
    requires Sound(g, dirs)
    ensures Consistent(g) && TreeOk(g, dirs) && MapBehind(g)
  {
    hide Consistent, TreeOk, Readable, Allocated, MapBehind;
  }

  lemma FileContents(g: Image, path: seq<u8>)
    requires IsFile(g, path) && Resolve(g, Root(), Components(path)).value.inode < |g.inodes|
    ensures Contents(g, path) == FileBytes(g, Resolve(g, Root(), Components(path)).value.inode)
  {
    hide Resolve, FileBytes, Comps;
  }

  lemma FileInode(g: Image, dirs: set<nat>, path: seq<u8>)
    requires Sound(g, dirs) && IsFile(g, path)
    ensures var n: nat := Resolve(g, Root(), Components(path)).value.inode;
            n < MAX_INODES && Allocated(g, n) && n !in dirs && Readable(g, n)
  {
    hide Entries, CStr, DirShape, OneEntryEach, DotsOk, Consistent, Readable, Comps;
    RootComponents();
    ResolvedOk(g, dirs, Root(), Components(path));
  }

  /** A formatted disk is sound and its free map is on disk. */
  method Start(v: Volume) returns (ghost dirs: set<nat>)
    requires v.Valid()
    modifies v.usedMap, v.usedMap.buff, v.freeMap, v.freeMap.buff, v.inodes, v.disk
    ensures v.Valid() && Sound(v.View(), dirs) && FreeSynced(v.View()) && NoLeaks(v.View())
    ensures 0 < |v.View().inodes| && |Entries(v.View(), 0)| == 2
    ensures DiskBits(v.disk.Length) <= BlocksAhead(v) + 1
    ensures !Refused(v.View(), v.freeMap.prevFree) && forall n: nat :: Allocated(v.View(), n) ==> n == 0
    ensures forall cs | cs != [] && Plain(cs) :: Resolve(v.View(), Root(), cs).None?
  {
    hide Consistent, TreeOk, Readable, FreeSynced, MapBehind, Resolve, Entries;
    dirs := {0};
    var ok := Format(v);
    SyncedBehind(v.View());
  }

  /** A path that resolves is found, safely, by diritem_find. */
  lemma FoundIfResolves(g: Image, dirs: set<nat>, path: seq<u8>)
    requires TreeOk(g, dirs) && IsFile(g, path)
    ensures WalkSafe(g, Root(), Components(path))
    ensures Walk(g, Root(), Components(path)) == Resolve(g, Root(), Components(path))
    ensures Resolve(g, Root(), Components(path)).value.name[0] != 0
  {
    hide Entries, IndexOf, DirShape, OneEntryEach, DotsOk, Comps;
    RootComponents();
    WalkIsResolve(g, Root(), Components(path));
    TreeWalkSafe(g, dirs, Root(), Components(path));
    ResolvedOk(g, dirs, Root(), Components(path));
  }

  /**
    No plain file stands before the last component; a file itself is such a path, and so is any path
    that names nothing.
   */
  ghost predicate Direct(g: Image, path: seq<u8>) {
    path != [] && path[0] == SLASH && Plain(Components(path)) && Blocked(g, Root(), Components(path)).None?
  }

  lemma ResolvedKind(g: Image, dirs: set<nat>, path: seq<u8>)
    requires TreeOk(g, dirs) && Direct(g, path) && Resolve(g, Root(), Components(path)).Some?
    ensures IsFile(g, path) || IsDirectory(g, path)
  {
    hide Entries, CStr, DirShape, OneEntryEach, DotsOk, Comps;
    ResolvedOk(g, dirs, Root(), Components(path));
  }

  lemma FileIsDirect(g: Image, path: seq<u8>)
    requires IsFile(g, path)
    ensures Direct(g, path) && !IsDirectory(g, path)
  {
    hide Walk, Resolve, Comps;
    WalkIsResolve(g, Root(), Components(path));
  }

  /**
    files_open's lookup: the file's inode, or None for its -1, below a missing directory, too. It
    panics on a directory, and below a plain file it goes wrong (LookupBelowFile).
   */
  method Open(v: Volume, ghost dirs: set<nat>, path: seq<u8>) returns (r: Option<nat>)
    requires v.Valid() && Sound(v.View(), dirs) && Direct(v.View(), path) && !IsDirectory(v.View(), path)
    ensures r.Some? <==> IsFile(v.View(), path)
    ensures r.None? <==> Resolve(v.View(), Root(), Components(path)).None?
    ensures r.Some? ==>
      && r.value < MAX_INODES && r.value == Resolve(v.View(), Root(), Components(path)).value.inode
      && Allocated(v.View(), r.value) && r.value !in dirs && Readable(v.View(), r.value)
  {
    RootOk(v.View(), dirs);
    hide Consistent, TreeOk, MapBehind, Readable, WalkSafe, Walk, Resolve, Blocked, Comps;
    WalkIsResolve(v.View(), Root(), Components(path));
    TreeWalkSafe(v.View(), dirs, Root(), Components(path));
    if Resolve(v.View(), Root(), Components(path)).Some? {
      ResolvedKind(v.View(), dirs, path);
      FoundIfResolves(v.View(), dirs, path);
      FileInode(v.View(), dirs, path);
    }
    var ok, item := DiritemFind(v, path);
    if !ok {
      return None;
    }
    r := Some(item.inode);
  }

  /** At most one inode was taken. */
  ghost predicate OneMore(g: Image, h: Image) {
    forall m: nat, n: nat | Allocated(h, m) && Allocated(h, n) && !Allocated(g, m) && !Allocated(g, n) :: m == n
  }

  /** files_create on a sound system: exactly the new path appears, and every file keeps its contents. */
  method Make(v: Volume, ghost dirs: set<nat>, path: seq<u8>) returns (ok: bool, r: int, ghost now: set<nat>)
    requires v.Valid() && Sound(v.View(), dirs)
    requires 1 <= |path| < DIRITEM_NAME_LEN && path[0] == SLASH && 0 !in path && Plain(Components(path))
    requires ParentIsDir(v.View(), path)
    modifies v.disk, v.inodes, v.freeMap, v.freeMap.buff, v.usedMap, v.usedMap.buff
    ensures v.Valid()
    ensures r == if Resolve(old(v.View()), Root(), Components(path)).Some? then -1 else 0
    ensures r == -1 ==> ok && now == dirs && v.View() == old(v.View())
    ensures ok ==> Sound(v.View(), now)
    ensures ok ==> Resolve(v.View(), Root(), Components(path)).Some?
    ensures ok ==> PathsKept(old(v.View()), v.View(), {Components(path)})
    ensures ok ==> FilesKept(old(v.View()), v.View(), {})
    ensures ok && r == 0 && path[|path| - 1] != SLASH ==> IsFile(v.View(), path) && Contents(v.View(), path) == []
    ensures ok && r == 0 && path[|path| - 1] == SLASH ==> IsDirectory(v.View(), path)
    ensures ok && r == 0 ==> ParentIsDir(v.View(), path) && LastPath(v.View(), path) == Components(path)
    ensures ok ==> OneMore(old(v.View()), v.View()) && SameLeaks(old(v.View()), v.View())
    ensures old(BlocksAhead(v)) <= BlocksAhead(v) + 4
    ensures ok && r == 0 ==>
      && (FreeSynced(v.View()) <==> MapStaysCurrent(old(v.View()), path))
      && (Covered(v.View()) <==> MapStaysCurrent(old(v.View()), path))
    ensures !ok ==>
      || Refused(old(v.View()), old(v.freeMap.prevFree))
      || (NoRoom(v.View()) && ParentFull(old(v.View()), path))
      || forall n: nat | n < MAX_INODES :: Allocated(old(v.View()), n)
    ensures !ok ==> old(BlocksAhead(v)) < 4 || forall n: nat | n < MAX_INODES :: Allocated(old(v.View()), n)
  {
    hide Consistent, TreeOk, FreeSynced, MapBehind, Covered, Resolve, FileCreated, Entries, Bit, NeedsIndex, NoRoom,
         Comps, Sound, IsFile, Contents, ParentIsDir;
    ghost var g := v.View();
    SoundParts(g, dirs);
    now := dirs;
    ok, r := FilesCreate(v, dirs, path);
    if ok && r == 0 {
      ghost var it :| FileCreated(g, v.View(), dirs, path, it);
      now := WithDir(dirs, it);
      MadeSound(g, v.View(), dirs, path, it);
    }
  }

  /** The path names a directory, so entries can be created in it. */
  ghost predicate IsDirectory(g: Image, path: seq<u8>) {
    var r := Resolve(g, Root(), Components(path));
    r.Some? && r.value.kind == TYPE_DIR
  }

  lemma MadeSound(g: Image, h: Image, dirs: set<nat>, path: seq<u8>, it: DirItem)
    requires Sound(g, dirs) && path != [] && path[0] == SLASH && Plain(Components(path))
    requires Resolve(g, Root(), Components(path)).None?
    requires FileCreated(g, h, dirs, path, it) && MapBehind(h)
    ensures Sound(h, WithDir(dirs, it))
    ensures Resolve(h, Root(), Components(path)) == Some(it)
    ensures PathsKept(g, h, {Components(path)}) && FilesKept(g, h, {})
    ensures path[|path| - 1] != SLASH ==> IsFile(h, path) && Contents(h, path) == []
    ensures path[|path| - 1] == SLASH ==> it.kind == TYPE_DIR
    ensures ParentIsDir(h, path) && LastPath(h, path) == Components(path) && OneMore(g, h) && SameLeaks(g, h)
  {
    hide Consistent, TreeOk, MapBehind, Readable, Resolve, FileBytes, Bit, Comps;
    ConsistentShape(g);
    ConsistentShape(h);
    forall n: nat | Allocated(h, n) && n !in WithDir(dirs, it)
      ensures n < |h.inodes| && Readable(h, n)
    {
      if n != it.inode {
        assert Allocated(g, n) && n !in dirs;
      }
    }
    forall q | IsFile(g, q)
      ensures IsFile(h, q) && Contents(h, q) == Contents(g, q)
    {
      FileInode(g, dirs, q);
    }
  }

  /** Opening and writing a file: it then holds the buffer, every other file and every path is as before. */
  method Write(v: Volume, ghost dirs: set<nat>, path: seq<u8>, buf: seq<u8>, beyond: Sector) returns (ok: bool)
    requires v.Valid() && Sound(v.View(), dirs) && IsFile(v.View(), path)
    requires 0 < |buf| < 0x1_0000_0000 && |buf| / BYTES_SECTOR < BLOCK_INDEX_MAX
    modifies v.disk, v.inodes, v.freeMap, v.freeMap.buff
    ensures v.Valid()
    ensures ok ==> Sound(v.View(), dirs) && FreeSynced(v.View())
    ensures ok ==> PathsKept(old(v.View()), v.View(), {})
    ensures ok ==> IsFile(v.View(), path) && Contents(v.View(), path) == buf
    ensures ok ==> SameLeaks(old(v.View()), v.View())
    ensures |buf| / BYTES_SECTOR <= |Contents(old(v.View()), path)| / BYTES_SECTOR ==>
      v.View().free == old(v.View()).free && v.freeMap.prevFree == old(v.freeMap.prevFree)
    ensures ok ==> FilesKept(old(v.View()), v.View(), {Components(path)})
    ensures |buf| / BYTES_SECTOR <= |Contents(old(v.View()), path)| / BYTES_SECTOR ==> ok
    ensures 3 * (|buf| / BYTES_SECTOR + 1) <= old(BlocksAhead(v)) ==> ok
    ensures old(BlocksAhead(v)) <= BlocksAhead(v) + 3 * (|buf| / BYTES_SECTOR + 1)
    ensures !ok ==> NoRoom(v.View())
  {
    hide Consistent, TreeOk, Readable, FreeSynced, Resolve, Bit, NoRoom, FileBytes, Comps, OthersKept, Sound, IsFile,
         Contents;
    ghost var g := v.View();
    SoundParts(g, dirs);
    FileIsDirect(g, path);
    var inode := Open(v, dirs, path);
    var n := inode.value;
    FileContents(g, path);
    BlocksThere(g, n, |buf|);
    ok := FilesWrite(v, n, buf, beyond);
    if ok {
      WrittenSound(g, v.View(), dirs, path, n, buf);
    }
  }

  /** Where the file is at least as long, in blocks, all blocks are there. */
  lemma BlocksThere(g: Image, n: nat, size: nat)
    requires n < |g.inodes| && Readable(g, n)
    ensures size / BYTES_SECTOR <= |FileBytes(g, n)| / BYTES_SECTOR ==>
              forall j: nat | j <= size / BYTES_SECTOR :: Live(g, n, Data(j)) != 0
  {
    hide Live;
    FileLength(g, n);
    forall j: nat | j <= g.inodes[n].size / BYTES_SECTOR
      ensures Live(g, n, Data(j)) != 0
    {
      ReadableHas(g, n, j);
    }
  }

  lemma WrittenSound(g: Image, h: Image, dirs: set<nat>, path: seq<u8>, n: nat, buf: seq<u8>)
    requires Sound(g, dirs) && IsFile(g, path) && n == Resolve(g, Root(), Components(path)).value.inode < MAX_INODES
    requires Allocated(g, n) && n !in dirs
    requires Consistent(h) && FreeSynced(h)
    requires OthersKept(g, h, n) && n < |h.inodes| && Readable(h, n) && FileBytes(h, n) == buf
    ensures Sound(h, dirs) && PathsKept(g, h, {}) && FilesKept(g, h, {Components(path)})
    ensures IsFile(h, path) && Contents(h, path) == buf
  {
    hide TreeOk, MapBehind, FreeSynced, Readable, Resolve, Bit, Owned, InodesSynced, Live, Sec, DirOk, Blank, Entries,
         FileBytes, Comps;
    SyncedBehind(h);
    OthersKeptDirs(g, h, dirs, n);
    SameDirsTree(g, h, dirs);
    hide SameDirs, SameRefs;
    forall m: nat | Allocated(h, m) && m !in dirs
      ensures m < |h.inodes| && Readable(h, m)
    {
      if m != n {
        OtherFilesKept(g, h, n, m);
      }
    }
    forall q | IsFile(g, q) && Components(q) !in {Components(path)}
      ensures IsFile(h, q) && Contents(h, q) == Contents(g, q)
    {
      OtherContents(g, h, dirs, path, q);
    }
  }

  lemma OtherContents(g: Image, h: Image, dirs: set<nat>, path: seq<u8>, q: seq<u8>)
    requires Sound(g, dirs) && Consistent(h) && IsFile(g, path) && IsFile(g, q) && Components(q) != Components(path)
    requires OthersKept(g, h, Resolve(g, Root(), Components(path)).value.inode)
    requires forall cs | Plain(cs) :: Resolve(h, Root(), cs) == Resolve(g, Root(), cs)
    ensures IsFile(h, q) && Contents(h, q) == Contents(g, q)
  {
    hide TreeOk, Readable, Resolve, Bit, Owned, InodesSynced, FileBytes, Comps, OthersKept;
    FileInode(g, dirs, q);
    var m, n := Resolve(g, Root(), Components(q)).value.inode, Resolve(g, Root(), Components(path)).value.inode;
    assert |h.inodes| == |g.inodes| == MAX_INODES;
    if m == n {
      ResolveInjective(g, dirs, Components(q), Components(path));
    } else {
      OtherFilesKept(g, h, n, m);
    }
  }

  /** Opening and reading a file. */
  method Read(v: Volume, ghost dirs: set<nat>, path: seq<u8>, out: array<u8>, size: nat)
    requires v.Valid() && Sound(v.View(), dirs) && IsFile(v.View(), path)
    requires size <= out.Length && out !in v.Repr()
    modifies out
    ensures v.Valid() && v.View() == old(v.View())
    ensures var bytes := Contents(v.View(), path);
            var total := if size < |bytes| then size else |bytes|;
            out[..] == bytes[..total] + old(out[..])[total..]
  {
    hide Consistent, TreeOk, Readable, Resolve, Bit, FileBytes, Comps, Sound, IsFile;
    SoundParts(v.View(), dirs);
    FileIsDirect(v.View(), path);
    var inode := Open(v, dirs, path);
    var n := inode.value;
    FileContents(v.View(), path);
    FilesRead(v, n, out, size);
  }

  /**
    Rebooting at any time: every path and every file is as before. The system is sound again
    exactly when the map on disk showed every block in use, as it does right after a write.
   */
  method Restart(v: Volume, ghost dirs: set<nat>)
    requires v.Valid() && Sound(v.View(), dirs)
    modifies v.usedMap, v.usedMap.buff, v.freeMap, v.freeMap.buff, v.inodes, v.disk
    ensures v.Valid() && FreeSynced(v.View())
    ensures Sound(v.View(), dirs) <==> Covered(old(v.View()))
    ensures Owned(v.View()) <==> Covered(old(v.View()))
    ensures FreeSynced(old(v.View())) ==> Covered(old(v.View())) && old(BlocksAhead(v)) <= BlocksAhead(v)
    ensures v.View().used == old(v.View()).used
    ensures forall l: nat :: Leaked(v.View(), l) ==> Leaked(old(v.View()), l)
    ensures PathsKept(old(v.View()), v.View(), {}) && FilesKept(old(v.View()), v.View(), {})
  {
    hide Consistent, TreeOk, Readable, FreeSynced, Resolve, Bit, FileBytes, SameRefs, Sound, IsFile, Contents, Covered;
    ghost var g := v.View();
    SoundParts(g, dirs);
    Remount(v);
    RestartSound(g, v.View(), dirs);
  }

  /** Creating and rebooting: what was there before is there, and the system is sound in exactly these cases. */
  method MakeThenRestart(v: Volume, ghost dirs: set<nat>, path: seq<u8>)
    returns (ok: bool, r: int, ghost now: set<nat>)
    requires v.Valid() && Sound(v.View(), dirs)
    requires 1 <= |path| < DIRITEM_NAME_LEN && path[0] == SLASH && 0 !in path && Plain(Components(path))
    requires ParentIsDir(v.View(), path)
    modifies v.disk, v.inodes, v.freeMap, v.freeMap.buff, v.usedMap, v.usedMap.buff
    ensures v.Valid()
    ensures r == if Resolve(old(v.View()), Root(), Components(path)).Some? then -1 else 0
    ensures ok ==> PathsKept(old(v.View()), v.View(), {Components(path)})
    ensures ok ==> FilesKept(old(v.View()), v.View(), {})
    ensures ok ==>
      (Sound(v.View(), now) <==> if r == -1 then Covered(old(v.View())) else MapStaysCurrent(old(v.View()), path))
    ensures !ok ==>
      || Refused(old(v.View()), old(v.freeMap.prevFree))
      || (NoRoom(v.View()) && ParentFull(old(v.View()), path))
      || forall n: nat | n < MAX_INODES :: Allocated(old(v.View()), n)
    ensures !ok ==> old(BlocksAhead(v)) < 4 || forall n: nat | n < MAX_INODES :: Allocated(old(v.View()), n)
  {
    hide Sound, FreeSynced, Covered, MapStaysCurrent, PathsKept, FilesKept, ParentIsDir, NoRoom, IsFile,
         IsDirectory, Contents, Resolve, Comps;
    ghost var g := v.View();
    ok, r, now := Make(v, dirs, path);
    if ok {
      ghost var h := v.View();
      Restart(v, now);
      KeptTrans(g, h, v.View(), {Components(path)});
    }
  }

  /** A file's entry that fits a block already there never leaves the map on disk current. */
  lemma FileNotCurrent(g: Image, path: seq<u8>)
    requires path != [] && path[0] == SLASH && path[|path| - 1] != SLASH && ParentIsDir(g, path) && !ParentFull(g, path)
    ensures !MapStaysCurrent(g, path)
  {
    hide Resolve, Live, NeedsIndex, Comps;
  }

  /**
    On every accepted disk: format it, create "/f" and reboot. The file is still there, but its
    block came back unmarked, so the system is not sound any more.
   */
  method UnsoundAfterRestart(v: Volume) returns (ghost dirs: set<nat>)
    requires v.Valid()
    modifies v.disk, v.inodes, v.freeMap, v.freeMap.buff, v.usedMap, v.usedMap.buff
    ensures v.Valid() && FreeSynced(v.View())
    ensures IsFile(v.View(), FILE_PATH)
    ensures !Sound(v.View(), dirs) && !Owned(v.View())
  {
    hide Sound, FreeSynced, Covered, Resolve, Comps, IsFile, Contents, Entries, ParentIsDir, ParentFull, Refused,
         Consistent, NoRoom, MapStaysCurrent, PathsKept, FilesKept;
    DisguisePaths();
    dirs := Start(v);
    RootOk(v.View(), dirs);
    RootIsParent(v.View());
    FileNotCurrent(v.View(), FILE_PATH);
    assert !Allocated(v.View(), 1);
    var ok, r;
    ok, r, dirs := Make(v, dirs, FILE_PATH);
    ghost var g := v.View();
    Restart(v, dirs);
    StillFile(g, v.View(), FILE_PATH);
  }

  lemma StillFile(g: Image, h: Image, path: seq<u8>)
    requires IsFile(g, path) && FilesKept(g, h, {})
    ensures IsFile(h, path)
  {
    hide IsFile;
  }

  lemma KeptTrans(g: Image, h: Image, k: Image, except: set<seq<seq<u8>>>)
    requires PathsKept(g, h, except) && FilesKept(g, h, {}) && PathsKept(h, k, {}) && FilesKept(h, k, {})
    ensures PathsKept(g, k, except) && FilesKept(g, k, {})
  {
    hide Resolve, IsFile, Contents, Comps;
  }

  lemma RestartSound(g: Image, h: Image, dirs: set<nat>)
    requires Sound(g, dirs) && Shape(h) && FreeSynced(h) && SameSystem(g, h) && SameRefs(g, h)
    requires forall n: nat | n < MAX_INODES && Allocated(g, n) && Readable(g, n) ::
               Readable(h, n) && FileBytes(h, n) == FileBytes(g, n)
    ensures Sound(h, dirs) <==> Consistent(h)
    ensures PathsKept(g, h, {}) && FilesKept(g, h, {})
  {
    SyncedBehind(h);
    hide TreeOk, MapBehind, FreeSynced, Readable, Resolve, Bit, FileBytes, Comps, SameRefs, Owned, InodesSynced;
    SameSystemDirs(g, h, dirs);
    SameDirsTree(g, h, dirs);
    forall n: nat | Allocated(h, n) && n !in dirs
      ensures n < |h.inodes| && Readable(h, n)
    {
      assert Allocated(g, n);
    }
    forall q | IsFile(g, q)
      ensures IsFile(h, q) && Contents(h, q) == Contents(g, q)
    {
      FileInode(g, dirs, q);
    }
  }

  lemma SameSystemDirs(g: Image, h: Image, dirs: set<nat>)
    requires TreeOk(g, dirs) && Shape(h) && SameSystem(g, h) && SameRefs(g, h)
    ensures SameDirs(g, h, dirs)
  {
    hide Live, CStr, OneEntryEach, DotsOk, Bit, GetItem;
    forall n | n in dirs
      ensures DirOk(h, n) && Blank(h, n) && Entries(h, n) == Entries(g, n)
    {
      assert DirShape(g, dirs, n);
      EntriesAre(g, n);
      EntriesAre(h, n);
      assert forall l: nat :: Sec(h, l) == Sec(g, l);
      assert forall e: nat :: EntryAt(h, n, e) == EntryAt(g, n, e);
    }
  }

  /** "f", "x", "/f" and "/f/x" */
  const F: seq<u8> := [102]
  const X: seq<u8> := [120]
  const FILE_PATH: seq<u8> := [47, 102]
  const BELOW_PATH: seq<u8> := [47, 102, 47, 120]

  lemma DisguisePaths()
    ensures Components(FILE_PATH) == [F] && Components(BELOW_PATH) == [F, X] && Components([SLASH]) == []
    ensures Plain([F]) && Plain([X]) && Plain([F, X]) && Curdir.ParentPath(FILE_PATH) == [SLASH]
  {
    hide Comps, Curdir.ParentPath;
    TopComponents(FILE_PATH, 102);
    TwoComponents(BELOW_PATH, 102, 120);
    RootComponents();
    assert PlainName(F) && PlainName(X);
  }

  lemma RootIsParent(g: Image)
    requires 0 < |g.inodes| && |Entries(g, 0)| == 2
    requires DirOk(g, 0)
    ensures ParentIsDir(g, FILE_PATH) && !ParentFull(g, FILE_PATH)
  {
    DisguisePaths();
    EntriesAre(g, 0);
    hide Comps, Entries;
  }

  /** A sound system in which a plain file's bytes are those of an entry named "x". */
  lemma Disguised(g: Image, dirs: set<nat>, it: DirItem)
    requires Sound(g, dirs) && IsFile(g, FILE_PATH) && Contents(g, FILE_PATH) == ItemBytes(it)
    requires CStr(it.name) == X
    ensures Resolve(g, Root(), [F, X]).None? && Walk(g, Root(), [F, X]) == Some(it)
    ensures WalkSafe(g, Root(), [F, X]) && MasqueradeAt(g, [F])
  {
    hide Comps, Consistent, TreeOk, Readable, Sound, ItemBytes, CStr, Live, Sec, FileBytes, PlainName, Entries, IndexOf;
    DisguisePaths();
    FileInode(g, dirs, FILE_PATH);
    SoundParts(g, dirs);
    FoundIfResolves(g, dirs, FILE_PATH);
    var f := Resolve(g, Root(), [F]).value;
    FirstBytes(g, f.inode, it);
    WalkIntoFile(g, f, it);
    hide Walk, Resolve;
    WalkSnoc(g, Root(), [F], X);
    ResolveSnoc(g, Root(), [F], X);
    assert [F] + [X] == [F, X];
    assert PlainName(CStr(Entries(g, f.inode)[0].name));
    HitSearchable(g, f.inode, X);
    WalkSafeSnoc(g, Root(), [F], X);
  }

  /** The start of a short file is the start of its first block. */
  lemma FirstBytes(g: Image, n: nat, it: DirItem)
    requires n < |g.inodes| && Readable(g, n) && FileBytes(g, n) == ItemBytes(it)
    ensures g.inodes[n].size == DIRITEM_SIZE && Live(g, n, Data(0)) != 0
    ensures Sec(g, Live(g, n, Data(0)))[..DIRITEM_SIZE] == ItemBytes(it)
  {
    hide Live, Sec;
    FileLength(g, n);
    ReadableHas(g, n, 0);
    forall k | 0 <= k < DIRITEM_SIZE
      ensures Sec(g, Live(g, n, Data(0)))[k] == ItemBytes(it)[k]
    {
      BytesOfBlock(g, n, 0, k);
    }
  }

  lemma HitSearchable(g: Image, n: nat, c: seq<u8>)
    requires n < |g.inodes| && Entries(g, n) != [] && CStr(Entries(g, n)[0].name) == c
    ensures Searchable(g, n, c)
  {
    hide Entries, CStr;
    assert IndexOf(Entries(g, n), c) == 0;
  }

  lemma {:induction false} WalkSafeSnoc(g: Image, cur: DirItem, cs: seq<seq<u8>>, c: seq<u8>)
    requires WalkSafe(g, cur, cs) && Walk(g, cur, cs).Some?
    requires var f := Walk(g, cur, cs).value;
             f.inode < |g.inodes| && Allocated(g, f.inode) && Searchable(g, f.inode, c)
             && (IndexOf(Entries(g, f.inode), c) == -1
                 || WalkSafe(g, Entries(g, f.inode)[IndexOf(Entries(g, f.inode), c)], []))
    ensures WalkSafe(g, cur, cs + [c])
    decreases |cs|
  {
    hide Entries, IndexOf, Searchable, Bit;
    if cs == [] {
      assert cs + [c] == [c] && [c][1..] == [];
    } else {
      assert (cs + [c])[0] == cs[0] && (cs + [c])[1..] == cs[1..] + [c];
      WalkSafeSnoc(g, Entries(g, cur.inode)[IndexOf(Entries(g, cur.inode), cs[0])], cs[1..], c);
    }
  }

  /**
    A run on any disk after which lookup and resolution differ: format it, create "/f", write the 24
    bytes of an entry named "x" into it, look up "/f/x". diritem_find succeeds, although "/f" is a
    plain file in a sound system.
   */
  method LookupBelowFile(v: Volume) returns (hit: bool, found: DirItem, ghost dirs: set<nat>)
    requires v.Valid()
    modifies v.disk, v.inodes, v.freeMap, v.freeMap.buff, v.usedMap, v.usedMap.buff
    ensures v.Valid()
    ensures Sound(v.View(), dirs) && IsFile(v.View(), FILE_PATH)
    ensures hit && found == DirItem(TYPE_FILE, 0, NameOf(X))
    ensures Resolve(v.View(), Root(), Components(BELOW_PATH)).None?
  {
    hide Sound, FreeSynced, Covered, Resolve, Comps, IsFile, Contents, Walk, WalkSafe, Entries, ParentIsDir,
         ParentFull, Refused, Consistent, NoRoom, ItemBytes, NameOf, CStr, MapStaysCurrent, PathsKept, FilesKept;
    DisguisePaths();
    dirs := Start(v);
    RootOk(v.View(), dirs);
    RootIsParent(v.View());
    assert !Allocated(v.View(), 1);
    var ok, r;
    ok, r, dirs := Make(v, dirs, FILE_PATH);
    var it := DirItem(TYPE_FILE, 0, NameOf(X));
    NameOfX();
    ok := Write(v, dirs, FILE_PATH, ItemBytes(it), ZeroSector());
    Disguised(v.View(), dirs, it);
    SoundParts(v.View(), dirs);
    hit, found := DiritemFind(v, BELOW_PATH);
  }

  lemma RootOk(g: Image, dirs: set<nat>)
    requires Sound(g, dirs)
    ensures DirOk(g, 0)
  {
    hide Consistent, Readable, Entries, CStr, OneEntryEach, DotsOk, DirOk, Blank;
    assert DirShape(g, dirs, 0);
  }

  lemma NameOfX()
    ensures CStr(NameOf(X)) == X && NameOf(X)[0] == 120
  {
    NameOfIs(X);
  }
}
