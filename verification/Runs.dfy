/**
  Whole runs of the file system against its simplest form: a map from paths to what they name. Whatever the
  calls are, the disk answers as the map does, no block is lost, and the run cannot fail while there is room.
 */
module Runs {
  import opened Bytes
  import opened Bitmaps
  import opened CStrings
  import opened Curdir
  import opened Dirs
  import opened Files
  import opened Free
  import opened Images
  import opened Layout
  import opened Ownership
  import opened Paths
  import opened System
  import opened Tree
  import opened Volumes
  import opened Wrappers

  datatype Thing = Folder | File(bytes: seq<u8>)

  /** The calls of a run; a Put or Get opens the file first. */
  datatype Call =
    | Create(path: seq<u8>)                                  // files_create
    | Put(path: seq<u8>, bytes: seq<u8>, beyond: Sector)     // files_write
    | Get(path: seq<u8>, size: nat)                          // files_read into a zeroed buffer
    | Reboot

  datatype Answer = Code(r: int) | Bytes(bytes: seq<u8>) | Done

  /** What the paths name, and whether nothing was created since the free map was last written to disk. */
  datatype Store = Store(things: map<seq<seq<u8>>, Thing>, current: bool)

  /** A new disk: the root directory alone. */
  const FRESH: Store := Store(map[[] := Folder], true)

  predicate IsPath(path: seq<u8>) {
    path != [] && path[0] == SLASH && Plain(Components(path))
  }

  /** What the source asks of its callers: read off the map, without the disk. */
  predicate Allowed(s: Store, c: Call) {
    match c
    case Create(path) =>
      && IsPath(path) && |path| < DIRITEM_NAME_LEN && 0 !in path
      && Components(ParentPath(path)) in s.things && s.things[Components(ParentPath(path))] == Folder
    case Put(path, bytes, _) =>
      && IsPath(path) && Components(path) in s.things && s.things[Components(path)].File?
      && |bytes| < 0x1_0000_0000 && |bytes| / BYTES_SECTOR < BLOCK_INDEX_MAX
    case Get(path, _) =>
      && IsPath(path) && (Components(path) in s.things ==> s.things[Components(path)].File?)
      && !Behind(s.things, Components(path))
    case Reboot => s.current
  }

  /** A plain file stands on the way. */
  predicate Behind(things: map<seq<seq<u8>>, Thing>, cs: seq<seq<u8>>) {
    exists k | 0 <= k < |cs| :: cs[..k] in things && things[cs[..k]].File?
  }

  /** The map after the call. */
  function After(s: Store, c: Call): Store {
    match c
    case Create(path) =>
      if Components(path) in s.things then s
      else
        var born := if path != [] && path[|path| - 1] == SLASH then Folder else File([]);
        Store(s.things[Components(path) := born], false)
    case Put(path, bytes, _) => if bytes == [] then s else Store(s.things[Components(path) := File(bytes)], true)
    case Get(_, _) => s
    case Reboot => s
  }

  /** What the caller gets. */
  function Answered(s: Store, c: Call): Answer {
    match c
    case Create(path) => Code(if Components(path) in s.things then -1 else 0)
    case Put(_, _, _) => Done
    case Get(path, size) =>
      if Components(path) in s.things && s.things[Components(path)].File? then
        var bytes := s.things[Components(path)].bytes;
        var total := if size < |bytes| then size else |bytes|;
        Bytes(bytes[..total] + Zeros(size - total))
      else Code(-1)
    case Reboot => Done
  }

  function Zeros(n: nat): seq<u8> {
    seq(n, _ => 0)
  }

  /** Blocks the call may take: none for a file that does not grow. */
  function Cost(s: Store, c: Call): nat {
    match c
    case Create(_) => 4
    case Put(path, bytes, _) =>
      if Components(path) in s.things && s.things[Components(path)].File?
         && |bytes| / BYTES_SECTOR <= |s.things[Components(path)].bytes| / BYTES_SECTOR then 0
      else 3 * (|bytes| / BYTES_SECTOR + 1)
    case _ => 0
  }

  function Births(c: Call): nat {
    if c.Create? then 1 else 0
  }

  ghost function Look(g: Image, cs: seq<seq<u8>>): Option<Thing> {
    var r := Resolve(g, Root(), cs);
    if r.None? then None
    else if r.value.kind != TYPE_FILE then Some(Folder)
    else Some(File(if r.value.inode < |g.inodes| then FileBytes(g, r.value.inode) else []))
  }

  /** Every path names on the disk what it names in the map. */
  ghost predicate Shows(g: Image, things: map<seq<seq<u8>>, Thing>) {
    forall cs | Plain(cs) :: Look(g, cs) == if cs in things then Some(things[cs]) else None
  }

  /** The disk holds the map, and every marked block is in use. */
  ghost predicate Holds(g: Image, dirs: set<nat>, s: Store) {
    Sound(g, dirs) && NoLeaks(g) && Shows(g, s.things) && (s.current ==> FreeSynced(g))
  }

  /** A path with these components. */
  function PathOf(cs: seq<seq<u8>>): seq<u8> {
    if cs == [] then [SLASH] else PathOf(cs[..|cs| - 1]) + (cs[|cs| - 1] + [SLASH])
  }

  lemma {:induction false} PathOfIs(cs: seq<seq<u8>>)
    requires Plain(cs)
    ensures IsPath(PathOf(cs)) && PathOf(cs)[|PathOf(cs)| - 1] == SLASH && Components(PathOf(cs)) == cs
  {
    if cs == [] {
      RootComponents();
    } else {
      var init, c := cs[..|cs| - 1], cs[|cs| - 1];
      PathOfIs(init);
      hide Comps;
      CompsAppend(PathOf(init), c + [SLASH], 1);
      LastComponent(c, c + [SLASH]);
      assert cs == init + [c];
    }
  }

  /** Kept paths and kept files: what is kept looks the same. */
  lemma LookKept(g: Image, h: Image, dirs: set<nat>, ps: set<seq<seq<u8>>>, fs: set<seq<seq<u8>>>, cs: seq<seq<u8>>)
    requires Sound(g, dirs) && PathsKept(g, h, ps) && FilesKept(g, h, fs)
    requires Plain(cs) && cs !in ps && cs !in fs
    ensures Look(h, cs) == Look(g, cs)
  {
    hide Sound, Resolve, Comps, FileBytes, PlainName;
    var r := Resolve(g, Root(), cs);
    if r.Some? && r.value.kind == TYPE_FILE {
      PathOfIs(cs);
      assert IsFile(g, PathOf(cs));
      assert Contents(h, PathOf(cs)) == Contents(g, PathOf(cs));
    }
  }

  lemma ShowsAfter(g: Image, h: Image, dirs: set<nat>, things: map<seq<seq<u8>>, Thing>, ps: set<seq<seq<u8>>>,
                   fs: set<seq<seq<u8>>>, cs: seq<seq<u8>>, x: Thing)
    requires Sound(g, dirs) && PathsKept(g, h, ps) && FilesKept(g, h, fs) && ps <= {cs} && fs <= {cs}
    requires Shows(g, things) && Plain(cs) && Look(h, cs) == Some(x)
    ensures Shows(h, things[cs := x])
  {
    forall ds | Plain(ds)
      ensures Look(h, ds) == if ds in things[cs := x] then Some(things[cs := x][ds]) else None
    {
      if ds != cs {
        LookKept(g, h, dirs, ps, fs, ds);
      }
    }
    hide Sound, Look, Plain, PathsKept, FilesKept;
  }

  lemma ShowsSame(g: Image, h: Image, dirs: set<nat>, things: map<seq<seq<u8>>, Thing>)
    requires Sound(g, dirs) && PathsKept(g, h, {}) && FilesKept(g, h, {}) && Shows(g, things)
    ensures Shows(h, things)
  {
    forall ds | Plain(ds)
      ensures Look(h, ds) == if ds in things then Some(things[ds]) else None
    {
      LookKept(g, h, dirs, {}, {}, ds);
    }
    hide Sound, Look, Plain, PathsKept, FilesKept;
  }

  lemma FileOrFolder(g: Image, dirs: set<nat>, cs: seq<seq<u8>>)
    requires Sound(g, dirs) && Plain(cs) && Resolve(g, Root(), cs).Some?
    ensures var it := Resolve(g, Root(), cs).value; it.kind == TYPE_FILE || it.kind == TYPE_DIR
  {
    hide Consistent, Readable, MapBehind, PlainName, DirShape, OneEntryEach, DotsOk, Entries, CStr;
    ResolvedOk(g, dirs, Root(), cs);
  }

  /** What a path names, as the calls ask for it. */
  lemma LookIs(g: Image, dirs: set<nat>, path: seq<u8>)
    requires Sound(g, dirs) && IsPath(path)
    ensures Look(g, Components(path)).None? <==> Resolve(g, Root(), Components(path)).None?
    ensures IsFile(g, path) <==> Look(g, Components(path)).Some? && Look(g, Components(path)).value.File?
    ensures IsFile(g, path) ==> Look(g, Components(path)) == Some(File(Contents(g, path)))
    ensures IsDirectory(g, path) <==> Look(g, Components(path)) == Some(Folder)
  {
    hide Sound, Resolve, Comps, FileBytes, PlainName;
    if Resolve(g, Root(), Components(path)).Some? {
      FileOrFolder(g, dirs, Components(path));
    }
  }

  /** A directory of the map can be created in. */
  lemma ParentThere(g: Image, dirs: set<nat>, things: map<seq<seq<u8>>, Thing>, path: seq<u8>)
    requires Sound(g, dirs) && Shows(g, things) && IsPath(path) && |path| < DIRITEM_NAME_LEN && 0 !in path
    requires Components(ParentPath(path)) in things && things[Components(ParentPath(path))] == Folder
    ensures ParentIsDir(g, path)
  {
    hide Sound, Resolve, Comps, FileBytes, PlainName, ParentPath;
    ParentIsPath(path);
    LookIs(g, dirs, ParentPath(path));
  }

  lemma ParentIsPath(path: seq<u8>)
    requires IsPath(path)
    ensures IsPath(ParentPath(path))
  {
    if 1 < |path| {
      ParentPlain(path);
    } else {
      assert path == [SLASH];
    }
  }

  /** Where lookup is stopped by a file, that file stands on the way. */
  lemma {:induction false} BlockedAt(g: Image, cur: DirItem, cs: seq<seq<u8>>) returns (k: nat)
    requires Blocked(g, cur, cs).Some?
    ensures k < |cs| && Resolve(g, cur, cs[..k]).Some? && Resolve(g, cur, cs[..k]).value.kind != TYPE_DIR
    decreases |cs|
  {
    hide Entries, IndexOf;
    k := 0;
    if cur.kind == TYPE_DIR {
      var e := IndexOf(Entries(g, cur.inode), cs[0]);
      var i := BlockedAt(g, Entries(g, cur.inode)[e], cs[1..]);
      k := i + 1;
      assert cs[..k][1..] == cs[1..][..i];
    }
  }

  lemma NotBehind(g: Image, dirs: set<nat>, things: map<seq<seq<u8>>, Thing>, path: seq<u8>)
    requires Sound(g, dirs) && Shows(g, things) && IsPath(path) && !Behind(things, Components(path))
    ensures Direct(g, path)
  {
    hide Sound, Resolve, Comps, FileBytes, PlainName, Blocked;
    var cs := Components(path);
    if Blocked(g, Root(), cs).Some? {
      var k := BlockedAt(g, Root(), cs);
      FileOrFolder(g, dirs, cs[..k]);
    }
  }

  /** How many inodes are in use. */
  ghost function Taken(g: Image): nat {
    |set n: nat | n < MAX_INODES && Allocated(g, n)|
  }

  lemma SameTaken(g: Image, h: Image)
    requires h.used == g.used
    ensures Taken(h) == Taken(g)
  {
    hide Bit;
    assert (set n: nat | n < MAX_INODES && Allocated(h, n)) == set n: nat | n < MAX_INODES && Allocated(g, n);
  }

  lemma OneMoreTaken(g: Image, h: Image)
    requires OneMore(g, h)
    ensures Taken(h) <= Taken(g) + 1
  {
    hide Bit;
    var a, b := set n: nat | n < MAX_INODES && Allocated(g, n), set n: nat | n < MAX_INODES && Allocated(h, n);
    if b <= a {
      SubsetSize(b, a);
    } else {
      var x :| x in b && x !in a;
      assert b <= a + {x};
      SubsetSize(b, a + {x});
    }
  }

  lemma {:induction false} SubsetSize(a: set<nat>, b: set<nat>)
    requires a <= b
    ensures |a| <= |b|
    decreases a
  {
    if x :| x in a {
      SubsetSize(a - {x}, b - {x});
    }
  }

  lemma {:induction false} CountUp(g: Image, n: nat)
    requires forall k: nat | k < n :: Allocated(g, k)
    ensures |set k: nat | k < n && Allocated(g, k)| == n
  {
    hide Allocated;
    if 0 < n {
      CountUp(g, n - 1);
      assert (set k: nat | k < n && Allocated(g, k)) == (set k: nat | k < n - 1 && Allocated(g, k)) + {n - 1};
    } else {
      assert (set k: nat | k < n && Allocated(g, k)) == {};
    }
  }

  lemma FreeInode(g: Image)
    requires Taken(g) < MAX_INODES
    ensures exists n: nat :: n < MAX_INODES && !Allocated(g, n)
  {
    hide Bit;
    if forall n: nat | n < MAX_INODES :: Allocated(g, n) {
      CountUp(g, MAX_INODES);
    }
  }

  method DoCreate(v: Volume, ghost dirs: set<nat>, ghost s: Store, path: seq<u8>)
    returns (ok: bool, a: Answer, ghost now: set<nat>)
    requires v.Valid() && Holds(v.View(), dirs, s) && Allowed(s, Create(path))
    modifies v.disk, v.inodes, v.freeMap, v.freeMap.buff, v.usedMap, v.usedMap.buff
    ensures v.Valid()
    ensures ok ==> Holds(v.View(), now, After(s, Create(path))) && a == Answered(s, Create(path))
    ensures ok ==> Taken(v.View()) <= old(Taken(v.View())) + 1
    ensures 4 <= old(BlocksAhead(v)) && old(Taken(v.View())) < MAX_INODES ==> ok
    ensures old(BlocksAhead(v)) <= BlocksAhead(v) + 4
  {
    hide Sound, Look, Comps, PlainName, ParentPath, Resolve, IsFile, IsDirectory, Contents, ClearFrom, Bit, Leaked;
    hide PathsKept, FilesKept, OneMore, Taken, FreeSynced, MapStaysCurrent, Refused, NoRoom, Covered;
    ghost var g := v.View();
    ParentThere(g, dirs, s.things, path);
    LookIs(g, dirs, path);
    var r;
    ok, r, now := Make(v, dirs, path);
    a := Code(r);
    if ok {
      OneMoreTaken(g, v.View());
      if r == 0 {
        LookIs(v.View(), now, path);
        ShowsAfter(g, v.View(), dirs, s.things, {Components(path)}, {}, Components(path),
                   if path[|path| - 1] == SLASH then Folder else File([]));
      }
    } else if old(Taken(v.View())) < MAX_INODES {
      FreeInode(g);
    }
  }

  method DoPut(v: Volume, ghost dirs: set<nat>, ghost s: Store, path: seq<u8>, bytes: seq<u8>, beyond: Sector)
    returns (ok: bool)
    requires v.Valid() && Holds(v.View(), dirs, s) && Allowed(s, Put(path, bytes, beyond))
    modifies v.disk, v.inodes, v.freeMap, v.freeMap.buff
    ensures v.Valid()
    ensures ok ==> Holds(v.View(), dirs, After(s, Put(path, bytes, beyond)))
    ensures Taken(v.View()) == old(Taken(v.View()))
    ensures Cost(s, Put(path, bytes, beyond)) <= old(BlocksAhead(v)) ==> ok
    ensures old(BlocksAhead(v)) <= BlocksAhead(v) + Cost(s, Put(path, bytes, beyond))
  {
    hide Sound, Look, Comps, PlainName, Resolve, IsFile, Contents, ClearFrom, Bit, Leaked, PathsKept, FilesKept;
    hide FreeSynced, NoRoom, Taken;
    ghost var g := v.View();
    LookIs(g, dirs, path);
    if bytes == [] {
      return true;
    }
    ok := Write(v, dirs, path, bytes, beyond);
    SameTaken(g, v.View());
    if ok {
      LookIs(v.View(), dirs, path);
      ShowsAfter(g, v.View(), dirs, s.things, {}, {Components(path)}, Components(path), File(bytes));
    }
  }

  method DoGet(v: Volume, ghost dirs: set<nat>, ghost s: Store, path: seq<u8>, size: nat) returns (a: Answer)
    requires v.Valid() && Holds(v.View(), dirs, s) && Allowed(s, Get(path, size))
    ensures v.Valid() && a == Answered(s, Get(path, size))
  {
    hide Sound, Look, Comps, PlainName, Resolve, IsFile, IsDirectory, Contents, Bit, Direct, Behind;
    ghost var g := v.View();
    NotBehind(g, dirs, s.things, path);
    LookIs(g, dirs, path);
    var found := Open(v, dirs, path);
    if found == None {
      return Code(-1);
    }
    var out := new u8[size](_ => 0);
    ghost var zeros := out[..];
    Read(v, dirs, path, out, size);
    a := Bytes(out[..]);
    ghost var bytes := Contents(g, path);
    ghost var total := if size < |bytes| then size else |bytes|;
    assert zeros[total..] == Zeros(size - total);
  }

  method DoReboot(v: Volume, ghost dirs: set<nat>, ghost s: Store)
    requires v.Valid() && Holds(v.View(), dirs, s) && s.current
    modifies v.disk, v.inodes, v.freeMap, v.freeMap.buff, v.usedMap, v.usedMap.buff
    ensures v.Valid() && Holds(v.View(), dirs, s)
    ensures Taken(v.View()) == old(Taken(v.View())) && old(BlocksAhead(v)) <= BlocksAhead(v)
  {
    hide Sound, Look, Resolve, ClearFrom, Bit, Leaked, PathsKept, FilesKept, FreeSynced, Covered, Owned,
         Taken;
    ghost var g := v.View();
    Restart(v, dirs);
    SameTaken(g, v.View());
    ShowsSame(g, v.View(), dirs, s.things);
  }

  /** One call: the disk answers as the map does and holds the map after it. */
  method Do(v: Volume, ghost dirs: set<nat>, ghost s: Store, c: Call)
    returns (ok: bool, a: Answer, ghost now: set<nat>)
    requires v.Valid() && Holds(v.View(), dirs, s) && Allowed(s, c)
    modifies v.disk, v.inodes, v.freeMap, v.freeMap.buff, v.usedMap, v.usedMap.buff
    ensures v.Valid()
    ensures ok ==> Holds(v.View(), now, After(s, c)) && a == Answered(s, c)
    ensures ok ==> Taken(v.View()) <= old(Taken(v.View())) + Births(c)
    ensures Cost(s, c) <= old(BlocksAhead(v)) && old(Taken(v.View())) + Births(c) <= MAX_INODES ==> ok
    ensures old(BlocksAhead(v)) <= BlocksAhead(v) + Cost(s, c)
  {
    hide Holds, ClearFrom, Bit, Comps, PlainName, ParentPath, Behind, Taken;
    ok, a, now := true, Done, dirs;
    match c
    case Create(path) => ok, a, now := DoCreate(v, dirs, s, path);
    case Put(path, bytes, beyond) => ok := DoPut(v, dirs, s, path, bytes, beyond);
    case Get(path, size) => a := DoGet(v, dirs, s, path, size);
    case Reboot => DoReboot(v, dirs, s);
  }

  /** Every call of the run is allowed when its turn comes. */
  predicate AllAllowed(s: Store, calls: seq<Call>)
    decreases |calls|
  {
    calls == [] || (Allowed(s, calls[0]) && AllAllowed(After(s, calls[0]), calls[1..]))
  }

  function Final(s: Store, calls: seq<Call>): Store
    decreases |calls|
  {
    if calls == [] then s else Final(After(s, calls[0]), calls[1..])
  }

  function Answers(s: Store, calls: seq<Call>): seq<Answer>
    decreases |calls|
  {
    if calls == [] then [] else [Answered(s, calls[0])] + Answers(After(s, calls[0]), calls[1..])
  }

  function TotalCost(s: Store, calls: seq<Call>): nat
    decreases |calls|
  {
    if calls == [] then 0 else Cost(s, calls[0]) + TotalCost(After(s, calls[0]), calls[1..])
  }

  function TotalBirths(calls: seq<Call>): nat {
    if calls == [] then 0 else Births(calls[0]) + TotalBirths(calls[1..])
  }

  /** A run from any state that holds a map. */
  method Replay(v: Volume, ghost dirs: set<nat>, ghost s: Store, calls: seq<Call>)
    returns (ok: bool, answers: seq<Answer>, ghost now: set<nat>)
    requires v.Valid() && Holds(v.View(), dirs, s) && AllAllowed(s, calls)
    modifies v.disk, v.inodes, v.freeMap, v.freeMap.buff, v.usedMap, v.usedMap.buff
    ensures v.Valid()
    ensures ok ==> Holds(v.View(), now, Final(s, calls)) && answers == Answers(s, calls)
    ensures TotalCost(s, calls) <= old(BlocksAhead(v)) && old(Taken(v.View())) + TotalBirths(calls) <= MAX_INODES ==> ok
    decreases |calls|
  {
    hide Holds, ClearFrom, Bit, Allowed, After, Answered, Cost, Taken;
    ok, answers, now := true, [], dirs;
    if calls != [] {
      var a;
      ok, a, now := Do(v, dirs, s, calls[0]);
      if ok {
        var rest;
        ok, rest, now := Replay(v, now, After(s, calls[0]), calls[1..]);
        answers := [a] + rest;
      }
    }
  }

  /**
    Any run on a new disk: every answer is the map's, at the end every path names what it names in the map, the
    system is sound, and no block is marked that nothing reaches. It cannot fail while the calls' cost fits.
   */
  method Session(v: Volume, calls: seq<Call>) returns (ok: bool, answers: seq<Answer>, ghost dirs: set<nat>)
    requires v.Valid() && AllAllowed(FRESH, calls)
    modifies v.disk, v.inodes, v.freeMap, v.freeMap.buff, v.usedMap, v.usedMap.buff
    ensures v.Valid()
    ensures ok ==> answers == Answers(FRESH, calls) && Shows(v.View(), Final(FRESH, calls).things)
    ensures ok ==> Sound(v.View(), dirs) && NoLeaks(v.View())
    ensures TotalCost(FRESH, calls) < DiskBits(v.disk.Length) && TotalBirths(calls) < MAX_INODES ==> ok
  {
    hide Sound, Look, Resolve, ClearFrom, Bit, Leaked, Entries, Refused, FreeSynced, AllAllowed, Answers, Final,
         TotalCost;
    dirs := Start(v);
    FreshHolds(v.View(), dirs);
    ok, answers, dirs := Replay(v, dirs, FRESH, calls);
  }

  lemma FreshHolds(g: Image, dirs: set<nat>)
    requires Sound(g, dirs) && FreeSynced(g) && NoLeaks(g) && forall n: nat :: Allocated(g, n) ==> n == 0
    requires forall cs | cs != [] && Plain(cs) :: Resolve(g, Root(), cs).None?
    ensures Holds(g, dirs, FRESH) && Taken(g) <= 1
  {
    assert Resolve(g, Root(), []) == Some(Root());
    hide Sound, Bit, Leaked, FreeSynced, Resolve;
    forall cs | Plain(cs)
      ensures Look(g, cs) == if cs in FRESH.things then Some(FRESH.things[cs]) else None
    {
    }
    SubsetSize(set n: nat | n < MAX_INODES && Allocated(g, n), {0});
  }
}
