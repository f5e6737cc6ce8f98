/** kern/fs/dir.c, diritem_find, and kern/fs/files.c, files_create. */
module Paths {
  import opened Bytes
  import opened Bitmaps
  import opened CStrings
  import opened Create
  import opened Curdir
  import opened Dirs
  import opened Files
  import opened Free
  import opened Images
  import opened Inodes
  import opened Layout
  import opened Ownership
  import opened Tree
  import opened Volumes
  import opened Wrappers

  /** Each visited entry lies where its index says: in block k / 21, at place k % 21. */
  lemma {:induction false} ScanAt(g: Image, n: nat, i: nat, k: nat)
    requires n < |g.inodes| && k < |Scan(g, n, i)|
    ensures Live(g, n, Data(i + k / PER_BLOCK)) != 0
    ensures Scan(g, n, i)[k] == EntryAt(g, n, PER_BLOCK * i + k)
    decreases g.inodes[n].size / PER_BLOCK + 1 - i
  {
    hide Live, Sec, GetItem;
    if i < g.inodes[n].size / PER_BLOCK && PER_BLOCK <= k {
      ScanAt(g, n, i + 1, k - PER_BLOCK);
      assert i + 1 + (k - PER_BLOCK) / PER_BLOCK == i + k / PER_BLOCK;
      assert PER_BLOCK * (i + 1) + (k - PER_BLOCK) == PER_BLOCK * i + k;
    } else {
      assert i == g.inodes[n].size / PER_BLOCK ==> Scan(g, n, i + 1) == [];
      assert (PER_BLOCK * i + k) / PER_BLOCK == i && (PER_BLOCK * i + k) % PER_BLOCK == k;
    }
  }

  /** One lookup of diritem_find: find the entry, then read it from its block. */
  method Lookup(v: Volume, n: nat, search: seq<u8>) returns (hit: bool, item: DirItem)
    requires v.Valid() && Consistent(v.View())
    requires Allocated(v.View(), n) && Searchable(v.View(), n, search)
    ensures var k := IndexOf(Entries(v.View(), n), search);
            hit == (k != -1) && (hit ==> item == Entries(v.View(), n)[k])
  {
    hide Live, Consistent, Searchable, Sec, GetItem, Bit;
    ghost var g := v.View();
    item := DirItem(0, 0, NameOf([]));
    hit := false;
    var k := FindSub(v, n, search);
    if k != -1 {
      ScanAt(g, n, 0, k);
      if BLOCK_INDEX_MAX <= k / PER_BLOCK {
        NoRefPastEnd(g, n, k / PER_BLOCK);
      }
      var lba, db := FetchBlock(v, n, k / PER_BLOCK);
      item := GetItem(db, k % PER_BLOCK);
      hit := true;
    }
  }

  /** The inner loop of diritem_find: name_storage and the new position. */
  method TakeComponent(path: seq<u8>, i: nat) returns (name: seq<u8>, next: nat)
    requires i < |path|
    ensures next == RunEnd(path, i) + 1 && name == path[i..next - 1]
  {
    next := i;
    while next < |path| && path[next] != SLASH
      invariant i <= next <= |path|
      invariant forall k | i <= k < next :: path[k] != SLASH
    {
      next := next + 1;
    }
    RunEndIs(path, i, next);
    name := path[i..next];
    next := next + 1;
  }

  /** Where diritem_find's loop stands: `cur` is reached with the components from i on still to look up. */
  ghost predicate Finding(g: Image, path: seq<u8>, i: nat, cur: DirItem, found: DirItem) {
    && (i < |path| ==>
          && Walk(g, Root(), Components(path)) == Walk(g, cur, Comps(path, i))
          && WalkSafe(g, cur, Comps(path, i)) && found.name[0] == 0)
    && (|path| <= i ==> Walk(g, Root(), Components(path)) == Some(found))
  }

  lemma FindStep(g: Image, path: seq<u8>, i: nat, cur: DirItem, found: DirItem)
    requires Finding(g, path, i, cur, found) && i < |path|
    ensures cur.inode < |g.inodes| && Allocated(g, cur.inode)
    ensures Searchable(g, cur.inode, path[i..RunEnd(path, i)])
    ensures var next := RunEnd(path, i) + 1;
            var k := IndexOf(Entries(g, cur.inode), path[i..next - 1]);
            if k == -1 then Walk(g, Root(), Components(path)).None?
            else
              var item := Entries(g, cur.inode)[k];
              Finding(g, path, next, if |path| <= next then cur else item, if |path| <= next then item else found)
  {
    hide Entries, IndexOf, Searchable, RunEnd, Bit, NameOf;
    var next := RunEnd(path, i) + 1;
    var cs, rest := Comps(path, i), Comps(path, next);
    assert cs == [path[i..next - 1]] + rest;
    assert |path| <= next ==> rest == [];
    hide Comps;
    assert cs[0] == path[i..next - 1] && cs[1..] == rest;
    var k := IndexOf(Entries(g, cur.inode), cs[0]);
    if k != -1 {
      assert Walk(g, cur, cs) == Walk(g, Entries(g, cur.inode)[k], rest);
    }
  }

  lemma FindingStart(g: Image, path: seq<u8>, found: DirItem)
    requires path != [] && path[0] == SLASH && found == DirItem(0, 0, NameOf([]))
    requires WalkSafe(g, Root(), Components(path))
    ensures found.name[0] == 0 && Root().name[0] == SLASH
    ensures path == [SLASH] ==> Walk(g, Root(), Components(path)) == Some(Root())
    ensures path != [SLASH] ==> Finding(g, path, 1, Root(), found)
  {
    hide Entries, IndexOf;
  }

  lemma FindingFacts(g: Image, path: seq<u8>, i: nat, cur: DirItem, found: DirItem)
    requires Finding(g, path, i, cur, found)
    ensures i < |path| ==> found.name[0] == 0
    ensures |path| <= i ==> Walk(g, Root(), Components(path)) == Some(found)
  {
  }

  /**
    diritem_find: true exactly when every component is found and the last entry hit has a
    non-empty name; then `found` is that entry. Nothing changes.
   */
  method DiritemFind(v: Volume, path: seq<u8>) returns (ok: bool, found: DirItem)
    requires v.Valid() && Consistent(v.View())
    requires path != [] && path[0] == SLASH
    requires forall k | 0 <= k < |Components(path)| :: |Components(path)[k]| < DIRITEM_NAME_LEN
    requires WalkSafe(v.View(), Root(), Components(path))
    ensures var w := Walk(v.View(), Root(), Components(path));
            ok == (w.Some? && w.value.name[0] != 0) && (ok ==> found == w.value)
  {
    ghost var g := v.View();
    found := DirItem(0, 0, NameOf([]));
    FindingStart(g, path, found);
    hide Consistent, Entries, IndexOf, Searchable, RunEnd, Bit, Finding, WalkSafe, Walk, NameOf;
    if path == [SLASH] {
      return true, Root();
    }
    var cur := Root();
    var i := 1;
    while i < |path|
      invariant 1 <= i && Finding(g, path, i, cur, found)
    {
      FindStep(g, path, i, cur, found);
      var name, next := TakeComponent(path, i);
      var hit, item := Lookup(v, cur.inode, name);
      if !hit {
        FindingFacts(g, path, i, cur, found);
        return false, found;
      }
      i := next;
      if |path| <= i {
        found := item;
      } else {
        cur := item;
      }
    }
    FindingFacts(g, path, i, cur, found);
    ok := found.name[0] != 0;
  }

  /** Nothing stands in the way of one more component below a directory. */
  lemma {:induction false} BlockedSnoc(g: Image, cur: DirItem, cs: seq<seq<u8>>, c: seq<u8>)
    requires Resolve(g, cur, cs).Some? && Resolve(g, cur, cs).value.kind == TYPE_DIR
    ensures Blocked(g, cur, cs).None? && Blocked(g, cur, cs + [c]).None?
    decreases |cs|
  {
    hide Entries, IndexOf;
    if cs == [] {
      assert cs + [c] == [c];
    } else {
      assert (cs + [c])[1..] == cs[1..] + [c];
      BlockedSnoc(g, Entries(g, cur.inode)[IndexOf(Entries(g, cur.inode), cs[0])], cs[1..], c);
    }
  }

  lemma RootParent(path: seq<u8>)
    requires path != [] && path[0] == SLASH
    ensures |path| == 1 ==> ParentPath(path) == path
  {
  }

  /** A path whose parent resolves to a directory is looked up safely, and the lookup is resolution. */
  lemma FindsResolved(g: Image, dirs: set<nat>, path: seq<u8>)
    requires TreeOk(g, dirs) && path != [] && path[0] == SLASH && Plain(Components(path))
    requires ParentIsDir(g, path)
    ensures WalkSafe(g, Root(), Components(path))
    ensures WalkSafe(g, Root(), Components(ParentPath(path)))
    ensures Plain(Components(ParentPath(path)))
    ensures Resolve(g, Root(), Components(path)).None? ==> 1 < |path|
    ensures Walk(g, Root(), Components(path)) == Resolve(g, Root(), Components(path))
    ensures Walk(g, Root(), Components(ParentPath(path))) == Resolve(g, Root(), Components(ParentPath(path)))
    ensures var w := Resolve(g, Root(), Components(path)); w.Some? ==> w.value.name[0] != 0
    ensures var w := Resolve(g, Root(), Components(ParentPath(path))); w.Some? ==> w.value.name[0] != 0
    ensures Resolve(g, Root(), Components(ParentPath(path))).value.inode in dirs
  {
    hide Entries, IndexOf, ParentPath, ChildName, OneEntryEach, DotsOk, DirShape, Comps;
    var ps := Components(ParentPath(path));
    RootParent(path);
    if |path| != 1 {
      ComponentsOfParent(path);
      assert Plain(ps) by {
        forall k | 0 <= k < |ps|
          ensures PlainName(ps[k])
        {
          assert ps[k] == Components(path)[k];
        }
      }
      BlockedSnoc(g, Root(), ps, ChildName(path));
    }
    WalkIsResolve(g, Root(), ps);
    WalkIsResolve(g, Root(), Components(path));
    TreeWalkSafe(g, dirs, Root(), ps);
    TreeWalkSafe(g, dirs, Root(), Components(path));
    ResolvedOk(g, dirs, Root(), ps);
    if Resolve(g, Root(), Components(path)).Some? {
      ResolvedOk(g, dirs, Root(), Components(path));
    }
    RootComponents();
  }

  ghost predicate ParentIsDir(g: Image, path: seq<u8>)
    requires path != [] && path[0] == SLASH
  {
    var r := Resolve(g, Root(), Components(ParentPath(path)));
    r.Some? && r.value.kind == TYPE_DIR
  }

  /** The path of the last entry in the directory that the parent's path names. */
  ghost function LastPath(g: Image, path: seq<u8>): seq<seq<u8>>
    requires path != [] && path[0] == SLASH && ParentIsDir(g, path)
  {
    var parent := Components(ParentPath(path));
    var p := Resolve(g, Root(), parent).value.inode;
    if p < |g.inodes| && Entries(g, p) != [] then parent + [CStr(Entries(g, p)[|Entries(g, p)| - 1].name)] else parent
  }

  /** The new entry is what the path, and no other path, now reaches. */
  lemma ThroughIsPath(g: Image, dirs: set<nat>, path: seq<u8>, it: DirItem, cs: seq<seq<u8>>)
    requires TreeOk(g, dirs) && 1 < |path| && path[0] == SLASH && Plain(Components(path)) && Plain(cs)
    requires ParentIsDir(g, path) && CStr(it.name) == ChildName(path)
    ensures var p := Resolve(g, Root(), Components(ParentPath(path))).value.inode;
            Through(g, Root(), cs, p, it) <==> cs == Components(path)
  {
    hide Entries, IndexOf, ParentPath, ChildName, CStr, Comps, TreeOk, Resolve, NameOf;
    var ps := Components(ParentPath(path));
    var p := Resolve(g, Root(), ps).value.inode;
    ComponentsOfParent(path);
    FindsResolved(g, dirs, path);
    if Through(g, Root(), cs, p, it) {
      var init := cs[..|cs| - 1];
      ResolveInjective(g, dirs, init, ps);
      assert cs == init + [cs[|cs| - 1]];
    }
    if cs == Components(path) {
      assert cs[..|cs| - 1] == ps;
    }
  }

  /** What files_create leaves when it succeeds. */
  ghost predicate FileCreated(g: Image, h: Image, dirs: set<nat>, path: seq<u8>, it: DirItem) {
    && Consistent(h) && TreeOk(h, WithDir(dirs, it))
    && it.kind == (if path != [] && path[|path| - 1] == SLASH then TYPE_DIR else TYPE_FILE)
    && !Allocated(g, it.inode)
    && (forall n: nat :: Allocated(h, n) <==> Allocated(g, n) || n == it.inode)
    && (forall cs | Plain(cs) ::
          Resolve(h, Root(), cs) == if cs == Components(path) then Some(it) else Resolve(g, Root(), cs))
    && path != [] && path[0] == SLASH && ParentIsDir(h, path) && LastPath(h, path) == Components(path)
    && SameLeaks(g, h) && |h.inodes| == |g.inodes|
    && (forall m: nat | m < |g.inodes| && Allocated(g, m) && m !in dirs && Readable(g, m) ::
          Readable(h, m) && FileBytes(h, m) == FileBytes(g, m))
    && (it.kind == TYPE_FILE && it.inode < |h.inodes| ==> Readable(h, it.inode) && FileBytes(h, it.inode) == [])
  }

  /** Directory m of the tree across the creation of inode n and the push to p. */
  lemma DirAcross(g: Image, c: Image, h: Image, dirs: set<nat>, p: nat, it: DirItem, m: nat)
    requires m < |g.inodes| && p < |c.inodes| && m < |h.inodes|
    requires TreeOk(g, dirs) && m in dirs && !Allocated(g, it.inode)
    requires OthersKept(g, c, it.inode) && Pushed(c, h, p, it)
    ensures m != it.inode && DirOk(h, m) && Blank(h, m)
    ensures Entries(h, m) == if m == p then Entries(g, m) + [it] else Entries(g, m)
  {
    hide Entries, CStr, DirOk, Blank, DistinctNames, OneEntryEach, DotsOk, Consistent, OthersKept, Bit;
    assert DirShape(g, dirs, m);
    EntriesKept(g, c, it.inode, m);
    if m != p {
      KeptAllocated(g, c, it.inode);
      EntriesKept(c, h, p, m);
    }
  }

  /** Creating an inode and pushing its entry grafts the entry onto the tree. */
  lemma PlainBytes(name: seq<u8>)
    requires PlainName(name)
    ensures |name| < DIRITEM_NAME_LEN && 0 !in name
  {
  }

  lemma CreateGrafts(g: Image, c: Image, h: Image, dirs: set<nat>, p: nat, it: DirItem, kind: u32, name: seq<u8>)
    requires Consistent(g) && TreeOk(g, dirs) && p in dirs
    requires kind == TYPE_FILE || kind == TYPE_DIR
    requires PlainName(name) && IndexOf(Entries(g, p), name) == -1
    requires (|Entries(g, p)| + 1) / PER_BLOCK < BLOCK_INDEX_MAX
    requires Created(g, c, it, kind, name, p) && Pushed(c, h, p, it)
    ensures Grafted(g, h, dirs, p, it) && CStr(it.name) == name
  {
    hide Entries, IndexOf, CStr, Live, DirOk, Blank, OneEntryEach, DotsOk, Consistent, Sec, NameOf, DirShape,
         OthersKept, Bit, PlainName;
    ConsistentShape(h);
    ConsistentShape(c);
    PlainBytes(name);
    NameOfIs(name);
    NameOfIs(DOT);
    NameOfIs(DOTDOT);
    forall m | m in dirs
      ensures m != it.inode && DirOk(h, m) && Blank(h, m)
      ensures Entries(h, m) == if m == p then Entries(g, m) + [it] else Entries(g, m)
    {
      DirAcross(g, c, h, dirs, p, it, m);
    }
    KeptAllocated(g, c, it.inode);
    KeptAllocated(c, h, p);
    if kind == TYPE_DIR {
      EntriesKept(c, h, p, it.inode);
    }
  }

  /** The parent named by a path that does not resolve yet has no entry of that name. */
  lemma DirAllocated(g: Image, dirs: set<nat>, p: nat)
    requires TreeOk(g, dirs) && p in dirs
    ensures Allocated(g, p)
  {
    hide OneEntryEach, DotsOk, Entries, CStr, DirOk, Blank;
    assert DirShape(g, dirs, p);
  }

  lemma NoSuchChild(g: Image, dirs: set<nat>, path: seq<u8>)
    requires TreeOk(g, dirs) && path != [] && path[0] == SLASH && Plain(Components(path)) && ParentIsDir(g, path)
    requires Resolve(g, Root(), Components(path)).None?
    ensures 1 < |path| && PlainName(ChildName(path))
    ensures var p := Resolve(g, Root(), Components(ParentPath(path))).value.inode;
            p in dirs && p < MAX_INODES && IndexOf(Entries(g, p), ChildName(path)) == -1
  {
    hide Entries, IndexOf, ParentPath, ChildName, DirShape, OneEntryEach, DotsOk, Comps;
    FindsResolved(g, dirs, path);
    var ps := Components(ParentPath(path));
    ComponentsOfParent(path);
    ResolveSnoc(g, Root(), ps, ChildName(path));
  }

  lemma CreatedResolves(g: Image, h: Image, dirs: set<nat>, path: seq<u8>, p: nat, it: DirItem)
    requires TreeOk(g, dirs) && 1 < |path| && path[0] == SLASH && Plain(Components(path)) && ParentIsDir(g, path)
    requires p == Resolve(g, Root(), Components(ParentPath(path))).value.inode
    requires Grafted(g, h, dirs, p, it) && CStr(it.name) == ChildName(path)
    ensures forall cs | Plain(cs) ::
              Resolve(h, Root(), cs) == if cs == Components(path) then Some(it) else Resolve(g, Root(), cs)
  {
    hide Entries, IndexOf, CStr, Grafted, Comps, ParentPath, ChildName, Through, Resolve, NameOf, OneEntryEach, DotsOk,
         DirShape;
    forall cs | Plain(cs)
      ensures Resolve(h, Root(), cs) == if cs == Components(path) then Some(it) else Resolve(g, Root(), cs)
    {
      GraftResolve(g, h, dirs, p, it, Root(), cs);
      ThroughIsPath(g, dirs, path, it, cs);
    }
  }

  lemma CreatedLast(g: Image, h: Image, dirs: set<nat>, path: seq<u8>, p: nat, it: DirItem)
    requires TreeOk(g, dirs) && Grafted(g, h, dirs, p, it)
    requires 1 < |path| && path[0] == SLASH && Plain(Components(path)) && ParentIsDir(g, path)
    requires p == Resolve(g, Root(), Components(ParentPath(path))).value.inode && CStr(it.name) == ChildName(path)
    requires forall cs | Plain(cs) ::
               Resolve(h, Root(), cs) == if cs == Components(path) then Some(it) else Resolve(g, Root(), cs)
    ensures ParentIsDir(h, path) && LastPath(h, path) == Components(path)
  {
    hide Entries, CStr, Comps, ParentPath, ChildName, Resolve, PlainName, TreeOk, DirOk, Blank, Bit, IndexOf;
    ComponentsOfParent(path);
    DirAllocated(g, dirs, p);
    assert p < |h.inodes| && Entries(h, p)[|Entries(h, p)| - 1] == it;
    var ps := Components(ParentPath(path));
    forall k | 0 <= k < |ps|
      ensures PlainName(ps[k])
    {
      assert ps[k] == Components(path)[k];
    }
    assert ps != Components(path);
  }

  /** Files other than the directory pushed to keep their contents, and a new file is empty. */
  lemma CreatedKeepsFiles(g: Image, c: Image, h: Image, dirs: set<nat>, p: nat, it: DirItem, kind: u32, name: seq<u8>)
    requires Consistent(g) && p in dirs && p < MAX_INODES && Allocated(g, p)
    requires Created(g, c, it, kind, name, p) && Pushed(c, h, p, it)
    ensures |h.inodes| == |g.inodes|
    ensures forall n: nat :: Allocated(h, n) <==> Allocated(g, n) || n == it.inode
    ensures forall m: nat | m < |g.inodes| && Allocated(g, m) && m !in dirs && Readable(g, m) ::
              Readable(h, m) && FileBytes(h, m) == FileBytes(g, m)
    ensures kind == TYPE_FILE && it.inode < |h.inodes| ==> Readable(h, it.inode) && FileBytes(h, it.inode) == []
  {
    hide Entries, CStr, Live, DirOk, Blank, Consistent, Sec, NameOf, FileBytes, OthersKept, Readable, Bit;
    KeptAllocated(g, c, it.inode);
    KeptAllocated(c, h, p);
    ConsistentShape(g);
    forall m: nat | m < |g.inodes| && Allocated(g, m) && m !in dirs && Readable(g, m)
      ensures Readable(h, m) && FileBytes(h, m) == FileBytes(g, m)
    {
      OtherFilesKept(g, c, it.inode, m);
      OtherFilesKept(c, h, p, m);
    }
    if kind == TYPE_FILE {
      NewFileEmpty(c, it.inode);
      OtherFilesKept(c, h, p, it.inode);
    }
  }

  lemma NewFileEmpty(c: Image, n: nat)
    requires n < |c.inodes| && c.inodes[n].size == 0 && Live(c, n, Data(0)) != 0
    ensures Readable(c, n) && FileBytes(c, n) == []
  {
    hide Live;
  }

  lemma CreateResult(g: Image, c: Image, h: Image, dirs: set<nat>, path: seq<u8>, p: nat, it: DirItem, kind: u32)
    requires Consistent(g) && TreeOk(g, dirs)
    requires path != [] && path[0] == SLASH && Plain(Components(path)) && ParentIsDir(g, path)
    requires kind == if path[|path| - 1] == SLASH then TYPE_DIR else TYPE_FILE
    requires Resolve(g, Root(), Components(path)).None?
    requires p == Resolve(g, Root(), Components(ParentPath(path))).value.inode < MAX_INODES
    requires (|Entries(g, p)| + 1) / PER_BLOCK < BLOCK_INDEX_MAX
    requires Created(g, c, it, kind, ChildName(path), p) && Pushed(c, h, p, it)
    ensures FileCreated(g, h, dirs, path, it)
  {
    hide Entries, IndexOf, CStr, Live, DirOk, Blank, OneEntryEach, DotsOk, Sec, NameOf, Comps, ParentPath, ChildName,
         DirShape, FileBytes, Readable, Grafted, Resolve, Bit, Owned, InodesSynced;
    NoSuchChild(g, dirs, path);
    DirAllocated(g, dirs, p);
    CreateGrafts(g, c, h, dirs, p, it, kind, ChildName(path));
    GraftedTree(g, h, dirs, p, it);
    CreatedResolves(g, h, dirs, path, p, it);
    CreatedLast(g, h, dirs, path, p, it);
    CreatedKeepsFiles(g, c, h, dirs, p, it, kind, ChildName(path));
  }

  /** The 16-byte buffers of files_create: the parent path and the child name. */
  method SplitPath(path: seq<u8>) returns (parent: seq<u8>, child: seq<u8>)
    requires 1 <= |path| < DIRITEM_NAME_LEN && path[0] == SLASH && 0 !in path
    ensures parent == ParentPath(path) && child == ChildName(path)
  {
    hide CStr, Splice, ParentPath, ChildName;
    var parentBuf, curBuf := new u8[DIRITEM_NAME_LEN](_ => 0), new u8[DIRITEM_NAME_LEN](_ => 0);
    ghost var zeros := parentBuf[..];
    MemMove(parentBuf, 0, path);
    forall k | 0 <= k < DIRITEM_NAME_LEN
      ensures parentBuf[..][k] == if k < |path| then path[k] else 0
    {
      SpliceElement(zeros, 0, path, k);
    }
    assert parentBuf[..][..|path|] == path;
    CStrOf(path, parentBuf[..]);
    ParentChild(parentBuf, curBuf);
    parent, child := CStr(parentBuf[..]), CStr(curBuf[..]);
  }

  /** diritem_create and diritem_push in directory p. */
  method CreateIn(v: Volume, ghost dirs: set<nat>, p: u32, kind: u32, name: seq<u8>)
    returns (ok: bool, ghost c: Image, it: DirItem)
    requires v.Valid() && Consistent(v.View()) && TreeOk(v.View(), dirs)
    requires p < MAX_INODES && p as nat in dirs && |name| < DIRITEM_NAME_LEN
    requires kind == TYPE_FILE || kind == TYPE_DIR
    modifies v.disk, v.inodes, v.freeMap, v.freeMap.buff, v.usedMap, v.usedMap.buff
    ensures v.Valid()
    ensures ok ==> Created(old(v.View()), c, it, kind, name, p) && Pushed(c, v.View(), p, it)
    ensures ok && MapBehind(old(v.View())) ==>
      var i := old(v.View()).inodes[p].size / PER_BLOCK;
      var current :=
        if Live(old(v.View()), p, Data(i)) != 0 then kind == TYPE_DIR else !NeedsIndex(old(v.View()), p, i);
      MapBehind(v.View()) && (FreeSynced(v.View()) <==> current) && (Covered(v.View()) <==> current)
    ensures !ok ==>
      || Refused(old(v.View()), old(v.freeMap.prevFree))
      || (NoRoom(v.View()) && Live(old(v.View()), p, Data(old(v.View()).inodes[p].size / PER_BLOCK)) == 0)
      || forall n: nat | n < MAX_INODES :: Allocated(old(v.View()), n)
    ensures !ok ==> old(BlocksAhead(v)) < 4 || forall n: nat | n < MAX_INODES :: Allocated(old(v.View()), n)
    ensures old(BlocksAhead(v)) <= BlocksAhead(v) + 4
  {
    hide Entries, CStr, Live, DirOk, Blank, OneEntryEach, DotsOk, NameOf, FreeSynced, MapBehind, Covered, Bit, Owned,
         InodesSynced, NoRoom, FirstClear, ClearFrom, Pushed, OthersKept;
    ghost var g := v.View();
    assert DirShape(g, dirs, p);
    EntriesAre(g, p);
    ok, it := DiritemCreate(v, kind, name, p);
    c := v.View();
    if !ok {
      return;
    }
    if kind == TYPE_DIR {
      SyncedCovers(c);
    }
    ParentKept(g, c, p, it.inode);
    ok := DiritemPush(v, p, it);
  }

  /** Creating another inode leaves the parent ready for the push. */
  lemma ParentKept(g: Image, c: Image, p: nat, n: nat)
    requires Shape(g) && OthersKept(g, c, n) && p < MAX_INODES && Allocated(g, p) && !Allocated(g, n) && DirOk(g, p)
    ensures Allocated(c, p) && DirOk(c, p) && |c.inodes| == |g.inodes| && c.inodes[p].size == g.inodes[p].size
    ensures forall i: nat :: Live(c, p, Data(i)) == Live(g, p, Data(i))
    ensures forall i: nat :: NeedsIndex(c, p, i) == NeedsIndex(g, p, i)
  {
    hide Live;
    EntriesKept(g, c, n, p);
  }

  /** The parent directory's next entry needs a new block. */
  ghost predicate ParentFull(g: Image, path: seq<u8>)
    requires path != [] && path[0] == SLASH && ParentIsDir(g, path)
  {
    var p := Resolve(g, Root(), Components(ParentPath(path))).value.inode;
    p < |g.inodes| && Live(g, p, Data(g.inodes[p].size / PER_BLOCK)) == 0
  }

  /**
    From a current map, creating `path` leaves the map on disk current: the parent's next entry
    fits a block already there and a directory is created (whose block is flushed), or the entry
    needs a new block but no new index block (which would be taken after the flush).
   */
  ghost predicate MapStaysCurrent(g: Image, path: seq<u8>)
    requires path != [] && path[0] == SLASH && ParentIsDir(g, path)
  {
    var p := Resolve(g, Root(), Components(ParentPath(path))).value.inode;
    p < |g.inodes|
    && var i := g.inodes[p].size / PER_BLOCK;
       if Live(g, p, Data(i)) != 0 then path[|path| - 1] == SLASH else !NeedsIndex(g, p, i)
  }

  /**
    files_create. r is -1 exactly when the path already resolves. Otherwise the path comes to
    resolve to a new item and every other plain path resolves as before. The parent has to be
    a directory: the source panics when it does not resolve and checks nothing else.
    ok is false for the panic "no more free bits" of either bitmap, or a block past the disk's
    end: refused at once, or when the parent needs a new block. The last clause but one says
    exactly when the free map on disk is current afterwards, and when it shows every block in use.
   */
  method FilesCreate(v: Volume, ghost dirs: set<nat>, path: seq<u8>) returns (ok: bool, r: int)
    requires v.Valid() && Consistent(v.View()) && TreeOk(v.View(), dirs)
    requires 1 <= |path| < DIRITEM_NAME_LEN && path[0] == SLASH && 0 !in path && Plain(Components(path))
    requires ParentIsDir(v.View(), path)
    modifies v.disk, v.inodes, v.freeMap, v.freeMap.buff, v.usedMap, v.usedMap.buff
    ensures v.Valid()
    ensures r == if Resolve(old(v.View()), Root(), Components(path)).Some? then -1 else 0
    ensures r == -1 ==> ok && v.View() == old(v.View())
    ensures ok && r == 0 ==> exists it :: FileCreated(old(v.View()), v.View(), dirs, path, it)
    ensures ok && r == 0 && MapBehind(old(v.View())) ==>
      && MapBehind(v.View())
      && (FreeSynced(v.View()) <==> MapStaysCurrent(old(v.View()), path))
      && (Covered(v.View()) <==> MapStaysCurrent(old(v.View()), path))
    ensures !ok ==>
      || Refused(old(v.View()), old(v.freeMap.prevFree))
      || (NoRoom(v.View()) && ParentFull(old(v.View()), path))
      || forall n: nat | n < MAX_INODES :: Allocated(old(v.View()), n)
    ensures !ok ==> old(BlocksAhead(v)) < 4 || forall n: nat | n < MAX_INODES :: Allocated(old(v.View()), n)
    ensures old(BlocksAhead(v)) <= BlocksAhead(v) + 4
  {
    hide Entries, CStr, Live, NameOf, FreeSynced, MapBehind, Covered, Bit, NoRoom, Pushed, Created, Comps, ParentPath,
         ChildName, TreeOk, WalkSafe, Walk, Resolve, NeedsIndex, FileCreated, Consistent;
    ghost var g := v.View();
    FindsResolved(g, dirs, path);
    ok := true;
    var kind := if path[|path| - 1] == SLASH then TYPE_DIR else TYPE_FILE;
    var present, self := DiritemFind(v, path);
    if present {
      return true, -1;
    }
    NoSuchChild(g, dirs, path);
    DirSmall(g, dirs, Resolve(g, Root(), Components(ParentPath(path))).value.inode);
    r := 0;
    var parent, child := SplitPath(path);
    ParentComponentsShort(path);
    var found, diParent := DiritemFind(v, parent);
    ghost var c;
    var it;
    ok, c, it := CreateIn(v, dirs, diParent.inode, kind, child);
    if ok {
      CreateResult(g, c, v.View(), dirs, path, diParent.inode, it, kind);
    }
  }

  lemma ParentComponentsShort(path: seq<u8>)
    requires 1 < |path| && path[0] == SLASH && Plain(Components(path))
    ensures ParentPath(path) != [] && ParentPath(path)[0] == SLASH
    ensures forall k | 0 <= k < |Components(ParentPath(path))| :: |Components(ParentPath(path))[k]| < DIRITEM_NAME_LEN
  {
    hide ParentPath, ChildName, Comps;
    ComponentsOfParent(path);
    ParentChildRejoin(path);
    forall k | 0 <= k < |Components(ParentPath(path))|
      ensures |Components(ParentPath(path))[k]| < DIRITEM_NAME_LEN
    {
      assert Components(ParentPath(path))[k] == Components(path)[k];
    }
  }
}
