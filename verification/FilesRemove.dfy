/** kern/fs/files.c, files_remove: removing what a path names, files and whole directories. */
module FilesRemove {
  import opened Bytes
  import opened Bitmaps
  import opened CStrings
  import opened Curdir
  import opened Dirs
  import opened Files
  import opened Free
  import opened Images
  import opened Layout
  import opened Ownership
  import opened Paths
  import opened Prune
  import opened Remove
  import opened Sweep
  import opened System
  import opened Tree
  import opened Volumes
  import opened Wrappers

  /** The block is in some slot of an inode below the item. */
  ghost predicate HeldBelow(g: Image, di: DirItem, l: nat) {
    exists m: nat, s: Slot :: Below(g, di, m) && Live(g, m, s) == l
  }

  /** Every file that is below neither path is still there with the same contents. */
  ghost predicate FilesBeside(g: Image, h: Image, at: seq<seq<u8>>, lost: seq<seq<u8>>) {
    forall q | IsFile(g, q) && !(at <= Components(q)) && !(lost <= Components(q)) ::
      IsFile(h, q) && Contents(h, q) == Contents(g, q)
  }

  /**
    After the removal of what path `at` led to, where `lost` is the path of the last entry in the same
    directory. The inodes and blocks below the item are given back, and no others; the blocks below it
    that are not given back are lost to the pool: index blocks and what lies behind a hole. The paths through
    `at` and through `lost` are gone, and all others lead where they led; so unless the item itself
    was the last entry, the last entry is lost with everything below it, and the tree is broken.
   */
  ghost predicate PathRemoved(g: Image, h: Image, dirs: set<nat>, at: seq<seq<u8>>, di: DirItem, lost: seq<seq<u8>>) {
    && Consistent(h) && FreeSynced(h) && |h.inodes| == |g.inodes|
    && (forall m: nat :: Allocated(h, m) <==> Allocated(g, m) && !Below(g, di, m))
    && (forall l: nat :: Marked(h, l) <==> Marked(g, l) && !GivenBack(g, dirs, di, l))
    && (forall l: nat :: Leaked(h, l) <==>
          Leaked(g, l) || (Marked(g, l) && HeldBelow(g, di, l) && !GivenBack(g, dirs, di, l)))
    && (forall m: nat | m < |g.inodes| && m !in dirs && Allocated(g, m) && Readable(g, m) && !Below(g, di, m) ::
          Readable(h, m) && FileBytes(h, m) == FileBytes(g, m))
    && (forall cs | Plain(cs) ::
          Resolve(h, Root(), cs) == if at <= cs || lost <= cs then None else Resolve(g, Root(), cs))
    && FilesBeside(g, h, at, lost)
    && Plain(lost) && Resolve(g, Root(), lost).Some?
    && (Sound(h, Left(g, dirs, di)) <==> lost == at)
  }

  /** get_parent_child_filename on a buffer of files_remove, without a buffer for the child. */
  method ParentOf(path: seq<u8>) returns (parent: seq<u8>)
    requires 1 <= |path| < DIRITEM_NAME_LEN && path[0] == SLASH && 0 !in path
    ensures parent == ParentPath(path)
  {
    hide CStr, Splice, ParentPath, ChildName;
    var buf := new u8[DIRITEM_NAME_LEN](_ => 0);
    ghost var zeros := buf[..];
    MemMove(buf, 0, path);
    forall k | 0 <= k < DIRITEM_NAME_LEN
      ensures buf[..][k] == if k < |path| then path[k] else 0
    {
      SpliceElement(zeros, 0, path, k);
    }
    assert buf[..][..|path|] == path;
    CStrOf(path, buf[..]);
    ParentChild(buf, null);
    parent := CStr(buf[..]);
  }

  /** The lookup of a path on which no plain file is met. */
  method Find(v: Volume, ghost dirs: set<nat>, path: seq<u8>) returns (ok: bool, item: DirItem)
    requires v.Valid() && Consistent(v.View()) && TreeOk(v.View(), dirs)
    requires path != [] && path[0] == SLASH && Plain(Components(path))
    requires Blocked(v.View(), Root(), Components(path)).None?
    ensures ok <==> Resolve(v.View(), Root(), Components(path)).Some?
    ensures ok ==> item == Resolve(v.View(), Root(), Components(path)).value
    ensures ok ==> item.kind == TYPE_FILE || item.kind == TYPE_DIR
  {
    hide Consistent, TreeOk, WalkSafe, Walk, Resolve, Blocked, Comps, PlainName;
    var g := v.View();
    FindReady(v.View(), dirs, path);
    ok, item := DiritemFind(v, path);
  }

  lemma FindReady(g: Image, dirs: set<nat>, path: seq<u8>)
    requires TreeOk(g, dirs) && path != [] && path[0] == SLASH && Plain(Components(path))
    requires Blocked(g, Root(), Components(path)).None?
    ensures WalkSafe(g, Root(), Components(path))
    ensures Walk(g, Root(), Components(path)) == Resolve(g, Root(), Components(path))
    ensures forall k | 0 <= k < |Components(path)| :: |Components(path)[k]| < DIRITEM_NAME_LEN
    ensures Resolve(g, Root(), Components(path)).Some? ==>
      var it := Resolve(g, Root(), Components(path)).value;
      it.name[0] != 0 && (it.kind == TYPE_FILE || it.kind == TYPE_DIR)
  {
    hide Entries, IndexOf, DirShape, OneEntryEach, DotsOk, Comps;
    WalkIsResolve(g, Root(), Components(path));
    TreeWalkSafe(g, dirs, Root(), Components(path));
    if Resolve(g, Root(), Components(path)).Some? {
      ResolvedOk(g, dirs, Root(), Components(path));
    }
  }

  /**
    files_remove: -2 for the root or where the parent's path names a file, -1 exactly when it names nothing,
    -3 exactly when the last component alone is missing, and 0 otherwise.
   */
  method FilesRemove(v: Volume, ghost dirs: set<nat>, path: seq<u8>) returns (r: int)
    requires v.Valid() && Sound(v.View(), dirs)
    requires 1 <= |path| < DIRITEM_NAME_LEN && path[0] == SLASH && 0 !in path && Plain(Components(path))
    requires path == [SLASH] || Blocked(v.View(), Root(), Components(ParentPath(path))).None?
    modifies v.disk, v.inodes, v.freeMap.buff, v.usedMap.buff
    ensures v.Valid() && r in {0, -1, -2, -3}
    ensures path == [SLASH] ==> r == -2
    ensures path != [SLASH] ==>
      var parent := Resolve(old(v.View()), Root(), Components(ParentPath(path)));
      && (r == -1 <==> parent.None?)
      && (r == -2 <==> parent.Some? && parent.value.kind == TYPE_FILE)
      && (r == -3 <==> ParentIsDir(old(v.View()), path) && Resolve(old(v.View()), Root(), Components(path)).None?)
    ensures r == 0 ==> Resolve(old(v.View()), Root(), Components(path)).Some?
    ensures r != 0 ==> v.View() == old(v.View())
    ensures r == 0 ==>
      ParentIsDir(old(v.View()), path) &&
      PathRemoved(old(v.View()), v.View(), dirs, Components(path),
                  Resolve(old(v.View()), Root(), Components(path)).value, LastPath(old(v.View()), path))
  {
    hide Sound, Consistent, TreeOk, Resolve, Blocked, Comps, ParentPath, ChildName, LastPath, PathRemoved, Entries,
         Below, SubtreeGone, Zeroed, DirOk, Blank, PlainName, At, CStr, IndexOf;
    ghost var g := v.View();
    if path == [SLASH] {
      return -2;
    }
    SoundParts(g, dirs);
    var parent := ParentOf(path);
    ParentPlain(path);
    var found, diParent := Find(v, dirs, parent);
    if !found {
      return -1;
    }
    if diParent.kind != TYPE_DIR {
      return -2;
    }
    FindsResolved(g, dirs, path);
    PathDirect(path, g, dirs);
    var present, di := Find(v, dirs, path);
    if !present {
      return -3;
    }
    ghost var k := RemovalPlace(g, dirs, path, diParent.inode, di);
    r := DiritemRemove(v, dirs, Components(path), diParent.inode, di);
    PrunedBy(g, v.View(), dirs, Components(path), diParent.inode, k, di);
    IsRemoved(g, v.View(), dirs, Components(path), diParent.inode, k, di);
  }

  /** Below a directory no plain file is met. */
  lemma PathDirect(path: seq<u8>, g: Image, dirs: set<nat>)
    requires 1 < |path| && path[0] == SLASH && Plain(Components(path)) && TreeOk(g, dirs) && ParentIsDir(g, path)
    ensures Blocked(g, Root(), Components(path)).None?
  {
    hide ParentPath, ChildName, Comps, Resolve, TreeOk;
    ComponentsOfParent(path);
    WalkIsResolve(g, Root(), Components(ParentPath(path)));
    BlockedSnoc(g, Root(), Components(ParentPath(path)), ChildName(path));
  }

  /** Where the item stands in its parent. */
  lemma RemovalPlace(g: Image, dirs: set<nat>, path: seq<u8>, p: nat, di: DirItem) returns (k: nat)
    requires 1 < |path| && path[0] == SLASH && Plain(Components(path)) && TreeOk(g, dirs) && ParentIsDir(g, path)
    requires p == Resolve(g, Root(), Components(ParentPath(path))).value.inode
    requires Resolve(g, Root(), Components(path)) == Some(di)
    ensures EntryOf(g, dirs, Components(path), p, k, di) && IndexOf(Entries(g, p), CStr(di.name)) == k
    ensures LastPath(g, path) == LostPath(g, Components(path), p)
  {
    hide ParentPath, ChildName, Comps, Resolve, TreeOk, Entries, CStr, IndexOf, PlainName;
    ComponentsOfParent(path);
    var at := Components(path);
    var q, e := LastStep(g, dirs, at);
    assert at[..|at| - 1] == Components(ParentPath(path));
    TreeBounds(g, dirs);
    EntryStep(g, dirs, p, e);
    k := e;
  }

  lemma IsRemoved(g: Image, h: Image, dirs: set<nat>, at: seq<seq<u8>>, p: nat, k: nat, di: DirItem)
    requires Sound(g, dirs) && Pruned(g, h, dirs, at, p, k, di) && SubtreeGone(g, h, dirs, p, di) && p < |g.inodes|
    ensures Entries(g, p) != [] && at != [] && PathRemoved(g, h, dirs, at, di, LostPath(g, at, p))
  {
    hide Consistent, TreeOk, Below, Entries, Live, Sec, Marked, Allocated, FreeSynced, MapBehind, GivenBack, Resolve,
         CStr, Readable, FileBytes, Pruned, PlainName, IsFile, Contents, LostPath;
    PrunedParent(g, h, dirs, at, p, k, di);
    PrunedPaths(g, h, dirs, at, p, k, di);
    PrunedTree(g, h, dirs, at, p, k, di);
    SyncedBehind(h);
    forall m: nat | m < |g.inodes| && m !in dirs && Allocated(g, m) && Readable(g, m) && !Below(g, di, m)
      ensures Readable(h, m) && FileBytes(h, m) == FileBytes(g, m)
    {
      FileStays(g, h, m);
    }
    var lost := LostPath(g, at, p);
    FilesStay(g, h, dirs, at, di, lost);
    SameLast(at, lost);
    LostBelow(g, h, dirs, p, di);
  }

  lemma PrunedParent(g: Image, h: Image, dirs: set<nat>, at: seq<seq<u8>>, p: nat, k: nat, di: DirItem)
    requires Pruned(g, h, dirs, at, p, k, di) && p < |g.inodes|
    ensures Shape(h) && p in dirs && At(g, at, di) && at != [] && Entries(g, p) != []
  {
    hide TreeOk, Below, Entries, DirOk, Blank, At, Allocated;
  }

  /** What a removal loses to the pool. */
  lemma LostBelow(g: Image, h: Image, dirs: set<nat>, p: nat, di: DirItem)
    requires SubtreeGone(g, h, dirs, p, di) && Consistent(g)
    ensures forall l: nat :: Leaked(h, l) <==>
              Leaked(g, l) || (Marked(g, l) && HeldBelow(g, di, l) && !GivenBack(g, dirs, di, l))
  {
    GoneHaveNone(h);
    MarksAreData(g);
    hide Marked, Below, GivenBack, Live, Sec, Bit, Allocated, FreeSynced;
    forall l: nat
      ensures Leaked(h, l) <==> Leaked(g, l) || (Marked(g, l) && HeldBelow(g, di, l) && !GivenBack(g, dirs, di, l))
    {
      if l != 0 {
        UseAfter(g, h, dirs, p, di, l);
        if GivenBack(g, dirs, di, l) {
          BackWasUsed(g, dirs, di, l);
        }
      }
    }
  }

  lemma GoneHaveNone(h: Image)
    ensures forall m: nat, s: Slot :: !Allocated(h, m) ==> Live(h, m, s) == 0
  {
    hide Bit, Ref;
  }

  /** A block is used afterwards exactly when something that is not below the item used it. */
  lemma UseAfter(g: Image, h: Image, dirs: set<nat>, p: nat, di: DirItem, l: nat)
    requires SubtreeGone(g, h, dirs, p, di) && Consistent(g) && l != 0
    requires forall m: nat, s: Slot :: !Allocated(h, m) ==> Live(h, m, s) == 0
    ensures InUse(h, l) <==> InUse(g, l) && !HeldBelow(g, di, l)
  {
    hide Marked, Below, GivenBack, Live, Sec, Bit, Allocated, FreeSynced;
    if InUse(h, l) {
      var m: nat, s: Slot :| Live(h, m, s) == l;
      assert Live(g, m, s) == l;
    }
    if InUse(g, l) && !HeldBelow(g, di, l) {
      var m: nat, s: Slot :| Live(g, m, s) == l;
      assert Live(h, m, s) == l;
    }
  }

  lemma BackWasUsed(g: Image, dirs: set<nat>, di: DirItem, l: nat)
    requires GivenBack(g, dirs, di, l)
    ensures HeldBelow(g, di, l)
  {
    hide Below, Live, Leading;
  }

  lemma FileStays(g: Image, h: Image, m: nat)
    requires m < |g.inodes| && m < |h.inodes| && h.inodes[m] == g.inodes[m] && Readable(g, m)
    requires forall s: Slot :: Live(h, m, s) == Live(g, m, s)
    requires forall s: Slot | s.Data? && Live(g, m, s) != 0 :: Sec(h, Live(g, m, s)) == Sec(g, Live(g, m, s))
    ensures Readable(h, m) && FileBytes(h, m) == FileBytes(g, m)
  {
    hide Live, Sec;
  }

  lemma FilesStay(g: Image, h: Image, dirs: set<nat>, at: seq<seq<u8>>, di: DirItem, lost: seq<seq<u8>>)
    requires Sound(g, dirs) && At(g, at, di) && |h.inodes| == |g.inodes|
    requires forall cs | Plain(cs) ::
               Resolve(h, Root(), cs) == if at <= cs || lost <= cs then None else Resolve(g, Root(), cs)
    requires forall m: nat | m < |g.inodes| && m !in dirs && Allocated(g, m) && Readable(g, m) && !Below(g, di, m) ::
               Readable(h, m) && FileBytes(h, m) == FileBytes(g, m)
    ensures FilesBeside(g, h, at, lost)
  {
    hide Consistent, TreeOk, Below, Allocated, MapBehind, Resolve, Readable, FileBytes, PlainName, Comps;
    forall q | IsFile(g, q) && !(at <= Components(q)) && !(lost <= Components(q))
      ensures IsFile(h, q) && Contents(h, q) == Contents(g, q)
    {
      FileInode(g, dirs, q);
      FileApart(g, dirs, at, di, q);
    }
  }

  lemma FileApart(g: Image, dirs: set<nat>, at: seq<seq<u8>>, di: DirItem, q: seq<u8>)
    requires TreeOk(g, dirs) && At(g, at, di) && IsFile(g, q) && !(at <= Components(q))
    ensures !Below(g, di, Resolve(g, Root(), Components(q)).value.inode)
  {
    hide TreeOk, Below, Resolve, PlainName, Comps;
    var x := Resolve(g, Root(), Components(q)).value;
    if Below(g, di, x.inode) {
      BelowPath(g, dirs, at, di, Components(q), x);
    }
  }

  /** "/a" and "/b" */
  const A_PATH: seq<u8> := [47, 97]
  const B_PATH: seq<u8> := [47, 98]

  lemma RunPaths()
    ensures Components(A_PATH) == [[97]] && Components(B_PATH) == [[98]]
    ensures Plain([[97]]) && Plain([[98]])
    ensures ParentPath(A_PATH) == [SLASH] == ParentPath(B_PATH) && Components([SLASH]) == []
  {
    hide Comps, ParentPath;
    TopComponents(A_PATH, 97);
    TopComponents(B_PATH, 98);
    RootComponents();
    assert PlainName([97]) && PlainName([98]);
  }

  /** Entries of the root directory. */
  lemma TopPath(g: Image, path: seq<u8>)
    requires path != [] && path[0] == SLASH && ParentPath(path) == [SLASH] && Components([SLASH]) == []
    ensures ParentIsDir(g, path) && Blocked(g, Root(), Components(ParentPath(path))).None?
    ensures Resolve(g, Root(), Components(ParentPath(path))) == Some(Root())
  {
    hide Comps, ParentPath;
  }

  lemma SameLastPath(g: Image, a: seq<u8>, b: seq<u8>)
    requires a != [] && a[0] == SLASH && b != [] && b[0] == SLASH && ParentPath(a) == ParentPath(b)
    requires ParentIsDir(g, a) && ParentIsDir(g, b)
    ensures LastPath(g, a) == LastPath(g, b)
  {
    hide Resolve, Comps, ParentPath, Entries, CStr;
  }

  /** The second creation of the run finds a free inode. */
  lemma InodeLeft(g: Image, h: Image)
    requires OneMore(g, h) && forall n: nat :: Allocated(g, n) ==> n == 0
    ensures exists n: nat :: n < MAX_INODES && !Allocated(h, n)
  {
    hide Bit;
    assert !Allocated(g, 1) && !Allocated(g, 2);
    assert !Allocated(h, 1) || !Allocated(h, 2);
  }

  /** After the two creations: "/b" is the last entry, and both paths name files. */
  lemma BothThere(g: Image, h: Image)
    requires IsFile(g, A_PATH) && PathsKept(g, h, {Components(B_PATH)}) && ParentIsDir(h, B_PATH)
    requires LastPath(h, B_PATH) == Components(B_PATH)
    ensures ParentIsDir(h, A_PATH) && LastPath(h, A_PATH) == Components(B_PATH)
    ensures IsFile(h, A_PATH)
  {
    hide Resolve, Comps, ParentPath, Entries, CStr, PlainName, LastPath;
    RunPaths();
    TopPath(h, A_PATH);
    SameLastPath(h, A_PATH, B_PATH);
    assert Components(A_PATH) != Components(B_PATH);
  }

  /** And after the removal of "/a". */
  lemma OtherLost(g: Image, h: Image, dirs: set<nat>)
    requires Sound(g, dirs) && IsFile(g, A_PATH) && IsFile(g, B_PATH)
    requires var di := Resolve(g, Root(), Components(A_PATH)).value;
             PathRemoved(g, h, dirs, Components(A_PATH), di, Components(B_PATH))
    ensures Resolve(h, Root(), Components(B_PATH)).None?
    ensures !Sound(h, Left(g, dirs, Resolve(g, Root(), Components(A_PATH)).value))
    ensures Allocated(h, Resolve(g, Root(), Components(B_PATH)).value.inode)
  {
    hide Sound, FreeSynced, Resolve, Comps, Consistent, Below, PlainName, FilesBeside, Readable, FileBytes, Marked,
         GivenBack, Left, Bit;
    RunPaths();
    SoundParts(g, dirs);
    FileInode(g, dirs, B_PATH);
    FileApart(g, dirs, Components(A_PATH), Resolve(g, Root(), Components(A_PATH)).value, B_PATH);
  }

  /** "/x" and "/q/x" */
  const X_PATH: seq<u8> := [47, 120]
  const QX_PATH: seq<u8> := [47, 113, 47, 120]

  lemma MissingPaths()
    ensures Components(X_PATH) == [[120]] && ParentPath(X_PATH) == [SLASH] && Components([SLASH]) == []
    ensures Components(QX_PATH) == [[113], [120]] && ParentPath(QX_PATH) == [47, 113, 47]
    ensures Components([47, 113, 47]) == [[113]] && Plain([[120]]) && Plain([[113]]) && Plain([[113], [120]])
  {
    hide Comps, ParentPath;
    TopComponents(X_PATH, 120);
    TwoComponents(QX_PATH, 113, 120);
    QParent();
    RootComponents();
    assert PlainName([113]) && PlainName([120]);
  }

  lemma QParent()
    ensures ParentPath(QX_PATH) == [47, 113, 47] && Components([47, 113, 47]) == [[113]]
  {
    RunEndIs([47, 113, 47], 1, 2);
    CompsFirst([47, 113, 47], 1, 2);
    assert [47, 113, 47][1..2] == [113];
    ParentChildRejoin(QX_PATH);
  }

  /** On a fresh disk: "/x" is missing in a directory that is there, "/q/x" in one that is not. */
  method RemoveMissing(v: Volume) returns (r1: int, r2: int)
    requires v.Valid()
    modifies v.disk, v.inodes, v.freeMap, v.freeMap.buff, v.usedMap, v.usedMap.buff
    ensures v.Valid() && r1 == -3 && r2 == -1
  {
    hide Sound, FreeSynced, Resolve, Comps, Entries, ParentPath, Consistent, LastPath, PathRemoved, PlainName, Blocked,
         ClearFrom, Bit;
    MissingPaths();
    ghost var dirs := Start(v);
    TopPath(v.View(), X_PATH);
    r1 := FilesRemove(v, dirs, X_PATH);
    NotBlocked(v.View());
    r2 := FilesRemove(v, dirs, QX_PATH);
  }

  lemma NotBlocked(g: Image)
    requires Resolve(g, Root(), [[113]]).None?
    ensures Blocked(g, Root(), [[113]]).None?
  {
    hide Entries;
  }

  /**
    On every accepted disk: format it, create "/a" and "/b" and remove "/a". The inode of "/b" is still
    taken, but the path is gone, and the system is not sound.
   */
  method RemoveLosesAnother(v: Volume) returns (ghost before: Image, ghost dirs: set<nat>)
    requires v.Valid()
    modifies v.disk, v.inodes, v.freeMap, v.freeMap.buff, v.usedMap, v.usedMap.buff
    ensures v.Valid() && Sound(before, dirs) && IsFile(before, A_PATH) && IsFile(before, B_PATH)
    ensures Resolve(v.View(), Root(), Components(B_PATH)).None?
    ensures !Sound(v.View(), Left(before, dirs, Resolve(before, Root(), Components(A_PATH)).value))
    ensures Allocated(v.View(), Resolve(before, Root(), Components(B_PATH)).value.inode)
  {
    hide Sound, FreeSynced, Covered, Resolve, Comps, IsFile, Contents, Entries, ParentPath, ParentFull, Refused,
         ParentIsDir, Consistent, NoRoom, MapStaysCurrent, LastPath, FilesKept, OneMore, PathRemoved, Below,
         PlainName, Left, ClearFrom, BlocksAhead, Blocked, Bit;
    RunPaths();
    dirs := Start(v);
    ghost var g0 := v.View();
    TopPath(g0, A_PATH);
    assert !Allocated(g0, 1);
    var ok, r;
    ok, r, dirs := Make(v, dirs, A_PATH);
    ghost var g1 := v.View();
    TopPath(g1, B_PATH);
    InodeLeft(g0, g1);
    assert Components(A_PATH) != Components(B_PATH);
    ok, r, dirs := Make(v, dirs, B_PATH);
    before := v.View();
    BothThere(g1, before);
    TopPath(before, A_PATH);
    r := FilesRemove(v, dirs, A_PATH);
    OtherLost(before, v.View(), dirs);
  }
}
