/** Paths over the directory tree: what kern/fs/dir.c resolves and what kern/fs/files.c creates. */
module Tree {
  import opened Bytes
  import opened Bitmaps
  import opened CStrings
  import opened Create
  import opened Curdir
  import opened Dirs
  import opened Images
  import opened Layout
  import opened Ownership
  import opened Wrappers

  const INODE_INDEX_ROOT: u32 := 0

  /** *get_root_dir() */
  function Root(): DirItem {
    DirItem(TYPE_DIR, INODE_INDEX_ROOT, NameOf([SLASH]))
  }

  /** The end of the run without '/' that starts at i. */
  function RunEnd(path: seq<u8>, i: nat): (r: nat)
    requires i <= |path|
    ensures i <= r <= |path| && forall k | i <= k < r :: path[k] != SLASH
    ensures r < |path| ==> path[r] == SLASH
    decreases |path| - i
  {
    if i == |path| || path[i] == SLASH then i else RunEnd(path, i + 1)
  }

  /** The components diritem_find cuts a path into, from position i on. */
  function Comps(path: seq<u8>, i: nat): seq<seq<u8>>
    decreases |path| - i
  {
    if i >= |path| then [] else [path[i..RunEnd(path, i)]] + Comps(path, RunEnd(path, i) + 1)
  }

  function Components(path: seq<u8>): seq<seq<u8>> {
    Comps(path, 1)
  }

  lemma RootComponents()
    ensures Components([SLASH]) == []
  {
  }

  lemma RunEndIs(path: seq<u8>, i: nat, r: nat)
    requires i <= r <= |path| && (r < |path| ==> path[r] == SLASH)
    requires forall k | i <= k < r :: path[k] != SLASH
    ensures RunEnd(path, i) == r
  {
    hide RunEnd;
    var e := RunEnd(path, i);
  }

  /** Components of a '/'-terminated prefix come first. */
  lemma {:induction false} CompsAppend(p: seq<u8>, q: seq<u8>, i: nat)
    requires p != [] && p[|p| - 1] == SLASH && i <= |p|
    ensures Comps(p + q, i) == Comps(p, i) + Comps(q, 0)
    decreases |p| - i
  {
    hide RunEnd;
    if i == |p| {
      CompsShift(p, q, 0);
    } else {
      var r := RunEnd(p, i);
      assert r < |p|;
      assert (p + q)[i..r] == p[i..r];
      RunEndIs(p + q, i, r);
      CompsAppend(p, q, r + 1);
      CompsFirst(p + q, i, r);
      CompsFirst(p, i, r);
      hide Comps;
    }
  }

  lemma {:induction false} CompsShift(p: seq<u8>, q: seq<u8>, i: nat)
    ensures Comps(p + q, |p| + i) == Comps(q, i)
    decreases |q| - i
  {
    if i < |q| {
      hide RunEnd, Comps;
      var r := RunEnd(q, i);
      CompsFirst(q, i, r);
      ShiftFirst(p, q, i, r);
      CompsShift(p, q, r + 1);
    }
  }

  lemma ShiftFirst(p: seq<u8>, q: seq<u8>, i: nat, r: nat)
    requires i < |q| && r == RunEnd(q, i)
    ensures Comps(p + q, |p| + i) == [q[i..r]] + Comps(p + q, |p| + (r + 1))
  {
    hide RunEnd, Comps;
    forall k | |p| + i <= k < |p| + r
      ensures (p + q)[k] != SLASH
    {
      assert (p + q)[k] == q[k - |p|];
    }
    RunEndIs(p + q, |p| + i, |p| + r);
    CompsFirst(p + q, |p| + i, |p| + r);
    assert (p + q)[|p| + i..|p| + r] == q[i..r];
  }

  lemma CompsFirst(path: seq<u8>, i: nat, r: nat)
    requires i < |path| && r == RunEnd(path, i)
    ensures Comps(path, i) == [path[i..r]] + Comps(path, r + 1)
  {
  }

  /** Names a path may use here: non-empty, not "." or "..", and short enough for the 16-byte buffers. */
  predicate PlainName(c: seq<u8>) {
    0 < |c| < DIRITEM_NAME_LEN && c != DOT && c != DOTDOT && 0 !in c && SLASH !in c
  }

  predicate Plain(cs: seq<seq<u8>>) {
    forall k | 0 <= k < |cs| :: PlainName(cs[k])
  }

  /** A last component, with or without a '/' after it. */
  lemma LastComponent(c: seq<u8>, rest: seq<u8>)
    requires rest != [] && SLASH !in c && (rest == c || rest == c + [SLASH])
    ensures Comps(rest, 0) == [c]
  {
    hide RunEnd;
    RunEndIs(rest, 0, |c|);
    CompsFirst(rest, 0, |c|);
    assert rest[0..|c|] == c;
  }

  /** The components of a path are its parent's and then its child. */
  lemma ComponentsOfParent(path: seq<u8>)
    requires 1 < |path| && path[0] == SLASH
    ensures Components(path) == Components(ParentPath(path)) + [ChildName(path)]
    ensures Plain(Components(path)) ==> PlainName(ChildName(path))
  {
    hide ParentPath, ChildName, Comps;
    ParentChildRejoin(path);
    var p, c := ParentPath(path), ChildName(path);
    var rest := path[|p|..];
    CompsAppend(p, rest, 1);
    assert path == p + rest;
    assert rest == c || rest == c + [SLASH];
    LastComponent(c, rest);
    assert Components(path)[|Components(path)| - 1] == c;
  }

  lemma ParentPlain(path: seq<u8>)
    requires 1 < |path| && path[0] == SLASH && Plain(Components(path))
    ensures ParentPath(path) != [] && ParentPath(path)[0] == SLASH && Plain(Components(ParentPath(path)))
  {
    hide ParentPath, ChildName, Comps, PlainName;
    ComponentsOfParent(path);
    ParentChildRejoin(path);
    forall k | 0 <= k < |Components(ParentPath(path))|
      ensures PlainName(Components(ParentPath(path))[k])
    {
      assert Components(ParentPath(path))[k] == Components(path)[k];
    }
  }

  /** A path of one letter. */
  lemma TopComponents(path: seq<u8>, c: u8)
    requires path == [SLASH, c] && c != SLASH
    ensures Components(path) == [[c]] && ParentPath(path) == [SLASH]
  {
    RunEndIs(path, 1, 2);
    CompsFirst(path, 1, 2);
    assert path[1..2] == [c] && Comps(path, 3) == [];
    ParentChildRejoin(path);
  }

  /** A path of two letters. */
  lemma TwoComponents(path: seq<u8>, c: u8, d: u8)
    requires path == [SLASH, c, SLASH, d] && c != SLASH && d != SLASH
    ensures Components(path) == [[c], [d]]
  {
    hide RunEnd;
    RunEndIs(path, 1, 2);
    CompsFirst(path, 1, 2);
    RunEndIs(path, 3, 4);
    CompsFirst(path, 3, 4);
    assert path[1..2] == [c] && path[3..4] == [d] && Comps(path, 5) == [];
  }

  /** What diritem_find's loop computes from an item on: the item at the end of the components, if every lookup hits. */
  ghost function Walk(g: Image, cur: DirItem, cs: seq<seq<u8>>): Option<DirItem>
    decreases |cs|
  {
    if cs == [] then Some(cur)
    else if |g.inodes| <= cur.inode then None
    else
      var k := IndexOf(Entries(g, cur.inode), cs[0]);
      if k == -1 then None else Walk(g, Entries(g, cur.inode)[k], cs[1..])
  }

  /** Path resolution as a file system means it: only directories are searched. */
  ghost function Resolve(g: Image, cur: DirItem, cs: seq<seq<u8>>): Option<DirItem>
    decreases |cs|
  {
    if cs == [] then Some(cur)
    else if cur.kind != TYPE_DIR || |g.inodes| <= cur.inode then None
    else
      var k := IndexOf(Entries(g, cur.inode), cs[0]);
      if k == -1 then None else Resolve(g, Entries(g, cur.inode)[k], cs[1..])
  }

  /** Every lookup on the way can be carried out without a panic. */
  ghost predicate WalkSafe(g: Image, cur: DirItem, cs: seq<seq<u8>>)
    decreases |cs|
  {
    cs == [] ||
    (&& cur.inode < |g.inodes| && Allocated(g, cur.inode) && Searchable(g, cur.inode, cs[0])
     && var k := IndexOf(Entries(g, cur.inode), cs[0]);
        k == -1 || WalkSafe(g, Entries(g, cur.inode)[k], cs[1..]))
  }

  /** An entry other than "." and "..": well named, and a directory exactly when its inode is one of dirs. */
  ghost predicate ItemOk(g: Image, dirs: set<nat>, it: DirItem) {
    && PlainName(CStr(it.name))
    && it.inode != INODE_INDEX_ROOT && Allocated(g, it.inode)
    && (it.kind == TYPE_FILE || it.kind == TYPE_DIR)
    && (it.kind == TYPE_DIR <==> it.inode in dirs)
  }

  ghost predicate DirShape(g: Image, dirs: set<nat>, n: nat)
    requires Shape(g)
  {
    && Allocated(g, n) && DirOk(g, n) && Blank(g, n) && DistinctNames(Entries(g, n))
    && 2 <= |Entries(g, n)| && |Entries(g, n)| / PER_BLOCK < BLOCK_INDEX_MAX
    && CStr(Entries(g, n)[0].name) == DOT && CStr(Entries(g, n)[1].name) == DOTDOT
    && forall e | 2 <= e < |Entries(g, n)| :: ItemOk(g, dirs, Entries(g, n)[e])
  }

  /** No inode has two entries. */
  ghost predicate OneEntryEach(g: Image, dirs: set<nat>)
    requires forall n | n in dirs :: n < |g.inodes|
  {
    forall n, e, m, f | n in dirs && m in dirs && 2 <= e < |Entries(g, n)| && 2 <= f < |Entries(g, m)| ::
      Entries(g, n)[e].inode == Entries(g, m)[f].inode ==> n == m && e == f
  }

  /** Entry e of directory n has this name and leads to the directory `to`. */
  ghost predicate LeadsTo(g: Image, n: nat, e: nat, name: seq<u8>, to: u32)
    requires |name| < DIRITEM_NAME_LEN
  {
    n < |g.inodes| && e < |Entries(g, n)| && Entries(g, n)[e] == DirItem(TYPE_DIR, to, NameOf(name))
  }

  /** "." leads to the directory itself, ".." to the one that lists it, or to no inode in the root. */
  ghost predicate DotsOk(g: Image, dirs: set<nat>) {
    && LeadsTo(g, 0, 1, DOTDOT, 0xffff_ffff)
    && (forall n | n in dirs :: n < MAX_INODES && LeadsTo(g, n, 0, DOT, n))
    && forall n, e | n in dirs && n < MAX_INODES && n < |g.inodes| && 2 <= e < |Entries(g, n)|
                     && Entries(g, n)[e].kind == TYPE_DIR ::
         LeadsTo(g, Entries(g, n)[e].inode, 1, DOTDOT, n)
  }

  /** The directory tree built by creations: dirs are the directory inodes. */
  ghost predicate TreeOk(g: Image, dirs: set<nat>) {
    && Shape(g) && 0 in dirs
    && (forall n | n in dirs :: n < MAX_INODES && DirShape(g, dirs, n))
    && OneEntryEach(g, dirs) && DotsOk(g, dirs)
  }

  /** Different numbers below n are at most n. */
  lemma {:induction false} Pigeonhole(s: seq<nat>, n: nat)
    requires forall i | 0 <= i < |s| :: s[i] < n
    requires forall i, j | 0 <= i < j < |s| :: s[i] != s[j]
    ensures |s| <= n
    decreases n
  {
    if s != [] {
      assert s[0] < n;
      if k :| 0 <= k < |s| && s[k] == n - 1 {
        var r := s[..k] + s[k + 1..];
        forall i | 0 <= i < |r|
          ensures r[i] < n - 1
        {
          assert r[i] == s[if i < k then i else i + 1];
        }
        Pigeonhole(r, n - 1);
      } else {
        Pigeonhole(s, n - 1);
      }
    }
  }

  /** There are not more entries than inodes, so a directory never runs out of indexable blocks. */
  lemma DirSmall(g: Image, dirs: set<nat>, n: nat)
    requires TreeOk(g, dirs) && n in dirs
    ensures |Entries(g, n)| <= MAX_INODES + 2
  {
    hide Entries, CStr, DirOk, Blank, DistinctNames, Bit;
    assert DirShape(g, dirs, n);
    var es := Entries(g, n);
    var s: seq<nat> := seq(|es| - 2, k requires 0 <= k < |es| - 2 => es[k + 2].inode as nat);
    forall i | 0 <= i < |s|
      ensures s[i] < MAX_INODES
    {
      assert ItemOk(g, dirs, es[i + 2]);
    }
    forall i, j | 0 <= i < j < |s|
      ensures s[i] != s[j]
    {
      assert es[i + 2].inode == es[j + 2].inode ==> i + 2 == j + 2;
    }
    Pigeonhole(s, MAX_INODES);
  }

  /** A plain name is found among the real entries, never as "." or "..". */
  lemma PlainHit(g: Image, dirs: set<nat>, n: nat, c: seq<u8>)
    requires TreeOk(g, dirs) && n in dirs && PlainName(c)
    ensures var k := IndexOf(Entries(g, n), c);
            k == -1 || (2 <= k && ItemOk(g, dirs, Entries(g, n)[k]))
  {
    hide CStr, Entries, DirOk, Blank, Allocated, OneEntryEach, DotsOk;
    assert DirShape(g, dirs, n);
    var k := IndexOf(Entries(g, n), c);
  }

  /** Resolution of one more component. */
  lemma {:induction false} ResolveSnoc(g: Image, cur: DirItem, cs: seq<seq<u8>>, c: seq<u8>)
    ensures Resolve(g, cur, cs + [c]) ==
            if Resolve(g, cur, cs).None? then None else Resolve(g, Resolve(g, cur, cs).value, [c])
    decreases |cs|
  {
    hide Entries, IndexOf;
    if cs == [] {
      assert cs + [c] == [c];
    } else {
      assert (cs + [c])[1..] == cs[1..] + [c];
      if cur.kind == TYPE_DIR && cur.inode < |g.inodes| {
        var k := IndexOf(Entries(g, cur.inode), cs[0]);
        if k != -1 {
          ResolveSnoc(g, Entries(g, cur.inode)[k], cs[1..], c);
        }
      }
    }
  }

  /** Resolution of a path in two parts. */
  lemma {:induction false} ResolveConcat(g: Image, cur: DirItem, a: seq<seq<u8>>, b: seq<seq<u8>>)
    ensures Resolve(g, cur, a + b) ==
            if Resolve(g, cur, a).None? then None else Resolve(g, Resolve(g, cur, a).value, b)
    decreases |a|
  {
    hide Entries, IndexOf;
    if a == [] {
      assert a + b == b;
    } else {
      assert (a + b)[0] == a[0] && (a + b)[1..] == a[1..] + b;
      if cur.kind == TYPE_DIR && cur.inode < |g.inodes| {
        var k := IndexOf(Entries(g, cur.inode), a[0]);
        if k != -1 {
          ResolveConcat(g, Entries(g, cur.inode)[k], a[1..], b);
        }
      }
    }
  }

  /** A resolved non-root item is a real entry of a directory of the tree. */
  lemma {:induction false} ResolvedOk(g: Image, dirs: set<nat>, cur: DirItem, cs: seq<seq<u8>>)
    requires TreeOk(g, dirs) && Plain(cs) && (cur.kind == TYPE_DIR ==> cur.inode in dirs)
    requires Resolve(g, cur, cs).Some?
    ensures var it := Resolve(g, cur, cs).value;
            && (it.kind == TYPE_DIR ==> it.inode in dirs)
            && (cs != [] ==> ItemOk(g, dirs, it))
    decreases |cs|
  {
    hide Entries, IndexOf, CStr, DirShape, OneEntryEach, DotsOk;
    if cs != [] {
      PlainHit(g, dirs, cur.inode, cs[0]);
      var k := IndexOf(Entries(g, cur.inode), cs[0]);
      ResolvedOk(g, dirs, Entries(g, cur.inode)[k], cs[1..]);
    }
  }

  /** The last step of a resolution: the directory searched and the entry hit there. */
  lemma LastStep(g: Image, dirs: set<nat>, cs: seq<seq<u8>>) returns (p: DirItem, e: nat)
    requires TreeOk(g, dirs) && Plain(cs) && cs != [] && Resolve(g, Root(), cs).Some?
    ensures Plain(cs[..|cs| - 1])
    ensures Resolve(g, Root(), cs[..|cs| - 1]) == Some(p) && p.inode in dirs
    ensures 2 <= e < |Entries(g, p.inode)| && Resolve(g, Root(), cs) == Some(Entries(g, p.inode)[e])
    ensures CStr(Entries(g, p.inode)[e].name) == cs[|cs| - 1]
  {
    hide Entries, CStr, DirShape, NameOf, OneEntryEach, DotsOk;
    var init, c := cs[..|cs| - 1], cs[|cs| - 1];
    assert cs == init + [c];
    ResolveSnoc(g, Root(), init, c);
    p := Resolve(g, Root(), init).value;
    ResolvedOk(g, dirs, Root(), init);
    assert p.kind == TYPE_DIR;
    PlainHit(g, dirs, p.inode, c);
    e := IndexOf(Entries(g, p.inode), c);
    assert Resolve(g, Entries(g, p.inode)[e], []) == Some(Entries(g, p.inode)[e]);
  }

  /** Two plain paths that resolve to the same inode are the same path. */
  lemma {:induction false} ResolveInjective(g: Image, dirs: set<nat>, a: seq<seq<u8>>, b: seq<seq<u8>>)
    requires TreeOk(g, dirs) && Plain(a) && Plain(b)
    requires Resolve(g, Root(), a).Some? && Resolve(g, Root(), b).Some?
    requires Resolve(g, Root(), a).value.inode == Resolve(g, Root(), b).value.inode
    ensures a == b
    decreases |a| + |b|
  {
    hide Entries, CStr, DirShape, NameOf, IndexOf, Allocated, DotsOk, PlainName;
    ResolvedOk(g, dirs, Root(), a);
    ResolvedOk(g, dirs, Root(), b);
    if a != [] && b != [] {
      var p, e := LastStep(g, dirs, a);
      var q, f := LastStep(g, dirs, b);
      hide Resolve;
      assert p.inode == q.inode && e == f;
      ResolveInjective(g, dirs, a[..|a| - 1], b[..|b| - 1]);
      assert a == a[..|a| - 1] + [a[|a| - 1]];
      assert b == b[..|b| - 1] + [b[|b| - 1]];
    }
  }

  /** The first item met that is no directory although components are left, with those components. */
  ghost function Blocked(g: Image, cur: DirItem, cs: seq<seq<u8>>): Option<(DirItem, seq<seq<u8>>)>
    decreases |cs|
  {
    if cs == [] then None
    else if cur.kind != TYPE_DIR then Some((cur, cs))
    else if |g.inodes| <= cur.inode then None
    else
      var k := IndexOf(Entries(g, cur.inode), cs[0]);
      if k == -1 then None else Blocked(g, Entries(g, cur.inode)[k], cs[1..])
  }

  /**
    Where no plain file stands before the last component, the lookup loop resolves the path;
    otherwise it goes on inside the file, where resolution ends.
   */
  lemma {:induction false} WalkIsResolve(g: Image, cur: DirItem, cs: seq<seq<u8>>)
    ensures Blocked(g, cur, cs).None? ==> Walk(g, cur, cs) == Resolve(g, cur, cs)
    ensures Blocked(g, cur, cs).Some? ==>
      && Resolve(g, cur, cs).None?
      && Walk(g, cur, cs) == Walk(g, Blocked(g, cur, cs).value.0, Blocked(g, cur, cs).value.1)
    decreases |cs|
  {
    hide Entries, IndexOf;
    if cs != [] && cur.kind == TYPE_DIR && cur.inode < |g.inodes| {
      var k := IndexOf(Entries(g, cur.inode), cs[0]);
      if k != -1 {
        WalkIsResolve(g, Entries(g, cur.inode)[k], cs[1..]);
      }
    }
  }

  /** The lookup loop on one more component. */
  lemma {:induction false} WalkSnoc(g: Image, cur: DirItem, cs: seq<seq<u8>>, c: seq<u8>)
    ensures Walk(g, cur, cs + [c]) ==
            if Walk(g, cur, cs).None? then None else Walk(g, Walk(g, cur, cs).value, [c])
    decreases |cs|
  {
    hide Entries, IndexOf;
    if cs == [] {
      assert cs + [c] == [c];
    } else {
      assert (cs + [c])[1..] == cs[1..] + [c];
      if cur.inode < |g.inodes| {
        var k := IndexOf(Entries(g, cur.inode), cs[0]);
        if k != -1 {
          WalkSnoc(g, Entries(g, cur.inode)[k], cs[1..], c);
        }
      }
    }
  }

  /** An item that is no directory, whose contents spell an entry with a plain name. */
  ghost predicate Masquerades(g: Image, f: DirItem) {
    && f.kind != TYPE_DIR && f.inode < |g.inodes|
    && exists e :: 0 <= e < |Entries(g, f.inode)| && PlainName(CStr(Entries(g, f.inode)[e].name))
  }

  /** Some plain path resolves to such an item. */
  ghost predicate MasqueradeAt(g: Image, cs: seq<seq<u8>>) {
    Plain(cs) && Resolve(g, Root(), cs).Some? && Masquerades(g, Resolve(g, Root(), cs).value)
  }

  /** One lookup from an item: as resolution has it, unless the item masquerades. */
  lemma StepAgrees(g: Image, f: DirItem, c: seq<u8>)
    requires PlainName(c) && !Masquerades(g, f)
    ensures Walk(g, f, [c]) == Resolve(g, f, [c])
  {
    hide Entries, CStr;
    if f.kind != TYPE_DIR && f.inode < |g.inodes| {
      var k := IndexOf(Entries(g, f.inode), c);
      assert k == -1;
    }
  }

  lemma StepDiffers(g: Image, f: DirItem) returns (c: seq<u8>)
    requires Masquerades(g, f)
    ensures PlainName(c) && Walk(g, f, [c]).Some? && Resolve(g, f, [c]).None?
  {
    hide Entries, CStr;
    var e :| 0 <= e < |Entries(g, f.inode)| && PlainName(CStr(Entries(g, f.inode)[e].name));
    c := CStr(Entries(g, f.inode)[e].name);
    var k := IndexOf(Entries(g, f.inode), c);
    assert [c][1..] == [];
    assert Walk(g, Entries(g, f.inode)[k], []) == Some(Entries(g, f.inode)[k]);
  }

  lemma {:induction false} AgreesWithout(g: Image, cs: seq<seq<u8>>)
    requires Plain(cs) && forall a :: !MasqueradeAt(g, a)
    ensures Walk(g, Root(), cs) == Resolve(g, Root(), cs)
    decreases |cs|
  {
    if cs != [] {
      var init, c := cs[..|cs| - 1], cs[|cs| - 1];
      assert cs == init + [c] && PlainName(c);
      AgreesWithout(g, init);
      WalkSnoc(g, Root(), init, c);
      ResolveSnoc(g, Root(), init, c);
      if Resolve(g, Root(), init).Some? {
        assert !MasqueradeAt(g, init);
        StepAgrees(g, Resolve(g, Root(), init).value, c);
      }
    }
  }

  /**
    diritem_find never looks at an item's type. Its lookup is path resolution, for every plain
    path, exactly when no path leads to a plain file whose contents, read as directory entries,
    hold a plain name.
   */
  lemma LookupAgreesIff(g: Image)
    ensures (forall cs | Plain(cs) :: Walk(g, Root(), cs) == Resolve(g, Root(), cs))
            <==> !exists cs :: MasqueradeAt(g, cs)
  {
    hide Entries, CStr, Walk, Resolve, Masquerades, PlainName;
    if cs :| MasqueradeAt(g, cs) {
      var f := Resolve(g, Root(), cs).value;
      var c := StepDiffers(g, f);
      WalkSnoc(g, Root(), cs, c);
      ResolveSnoc(g, Root(), cs, c);
      assert Plain(cs + [c]);
      assert Walk(g, Root(), cs) == Resolve(g, Root(), cs) ==>
          Walk(g, Root(), cs + [c]) != Resolve(g, Root(), cs + [c]);
    } else {
      forall cs | Plain(cs)
        ensures Walk(g, Root(), cs) == Resolve(g, Root(), cs)
      {
        AgreesWithout(g, cs);
      }
    }
  }

  /** A file whose first 24 bytes spell an entry is searched as a directory with that entry first. */
  lemma WalkIntoFile(g: Image, f: DirItem, it: DirItem)
    requires f.kind != TYPE_DIR && f.inode < |g.inodes| && g.inodes[f.inode].size != 0
    requires Live(g, f.inode, Data(0)) != 0
    requires Sec(g, Live(g, f.inode, Data(0)))[..DIRITEM_SIZE] == ItemBytes(it)
    ensures Entries(g, f.inode) != [] && Entries(g, f.inode)[0] == it
    ensures Walk(g, f, [CStr(it.name)]) == Some(it)
    ensures Resolve(g, f, [CStr(it.name)]) == None
  {
    hide Live, Sec, CStr, ItemBytes, BytesItem;
    var n := f.inode;
    var s := Sec(g, Live(g, n, Data(0)));
    assert s[24 * 0..24 * 0 + 24] == s[..DIRITEM_SIZE];
    ItemRoundTrip(it);
    assert GetItem(s, 0) == it;
    var items := BlockItems(s, ItemsIn(g.inodes[n].size, 0));
    assert Entries(g, n) == items + Scan(g, n, 1);
    assert Entries(g, n)[0] == it;
    assert Walk(g, it, []) == Some(it);
  }

  lemma DirScannable(g: Image, dirs: set<nat>, n: nat)
    requires TreeOk(g, dirs) && n in dirs
    ensures n < |g.inodes| && Allocated(g, n) && Scannable(g, n)
  {
    hide Entries, CStr, OneEntryEach, DotsOk, Live;
    assert DirShape(g, dirs, n);
    EntriesAre(g, n);
    forall e | 0 <= e < |Entries(g, n)|
      ensures |CStr(Entries(g, n)[e].name)| < DIRITEM_NAME_LEN
    {
      assert 2 <= e ==> ItemOk(g, dirs, Entries(g, n)[e]);
    }
  }

  /** In the tree, a plain path that meets no file too early is looked up without a panic. */
  lemma {:induction false} TreeWalkSafe(g: Image, dirs: set<nat>, cur: DirItem, cs: seq<seq<u8>>)
    requires TreeOk(g, dirs) && Plain(cs) && (cur.kind == TYPE_DIR ==> cur.inode in dirs)
    requires Blocked(g, cur, cs).None?
    ensures WalkSafe(g, cur, cs)
    decreases |cs|
  {
    hide Entries, IndexOf, CStr, TreeOk, Scannable, Searchable, Bit;
    if cs != [] {
      var n := cur.inode;
      DirScannable(g, dirs, n);
      ScannableSearch(g, n, cs[0]);
      PlainHit(g, dirs, n, cs[0]);
      var k := IndexOf(Entries(g, n), cs[0]);
      if k != -1 {
        TreeWalkSafe(g, dirs, Entries(g, n)[k], cs[1..]);
      }
    }
  }

  lemma EntriesKept(g: Image, h: Image, n: nat, m: nat)
    requires OthersKept(g, h, n) && m < |g.inodes| && m != n && DirOk(g, m)
    ensures DirOk(h, m) && Entries(h, m) == Entries(g, m) && (Blank(g, m) ==> Blank(h, m))
  {
    hide Live, Sec, GetItem;
    EntriesAre(g, m);
    EntriesAre(h, m);
    forall e: nat | e < g.inodes[m].size
      ensures EntryAt(h, m, e) == EntryAt(g, m, e)
    {
      var s := Data(e / PER_BLOCK);
      assert Live(g, m, s) != 0;
      assert Sec(h, Live(g, m, s)) == Sec(g, Live(g, m, s));
    }
  }

  /** h is g with one more entry `it`, for a new inode, at the end of directory p. */
  ghost predicate Grafted(g: Image, h: Image, dirs: set<nat>, p: nat, it: DirItem)
    requires TreeOk(g, dirs)
  {
    && Shape(h) && p in dirs && it.inode < MAX_INODES
    && !Allocated(g, it.inode) && Allocated(h, it.inode)
    && (forall m: nat | Allocated(g, m) :: Allocated(h, m))
    && PlainName(CStr(it.name)) && IndexOf(Entries(g, p), CStr(it.name)) == -1
    && (it.kind == TYPE_FILE || it.kind == TYPE_DIR)
    && DirOk(h, p) && Entries(h, p) == Entries(g, p) + [it] && |Entries(h, p)| / PER_BLOCK < BLOCK_INDEX_MAX
    && Blank(h, p) && (forall m | m in dirs && m != p :: DirOk(h, m) && Blank(h, m) && Entries(h, m) == Entries(g, m))
    && (it.kind == TYPE_DIR ==>
          && DirOk(h, it.inode) && Blank(h, it.inode) && |Entries(h, it.inode)| == 2
          && CStr(Entries(h, it.inode)[0].name) == DOT && CStr(Entries(h, it.inode)[1].name) == DOTDOT
          && p < MAX_INODES && LeadsTo(h, it.inode, 0, DOT, it.inode) && LeadsTo(h, it.inode, 1, DOTDOT, p))
  }

  function WithDir(dirs: set<nat>, it: DirItem): set<nat> {
    if it.kind == TYPE_DIR then dirs + {it.inode as nat} else dirs
  }

  lemma GraftedItems(g: Image, h: Image, dirs: set<nat>, p: nat, it: DirItem, n: nat)
    requires TreeOk(g, dirs) && Grafted(g, h, dirs, p, it) && n in dirs
    ensures DirShape(h, WithDir(dirs, it), n)
  {
    hide Entries, IndexOf, CStr, OneEntryEach, DotsOk, Live, Bit;
    assert DirShape(g, dirs, n);
    assert it.inode as nat !in dirs by {
      assert forall m | m in dirs :: DirShape(g, dirs, m);
    }
    assert Allocated(g, 0) by {
      assert DirShape(g, dirs, 0);
    }
    forall e | 2 <= e < |Entries(h, n)|
      ensures ItemOk(h, WithDir(dirs, it), Entries(h, n)[e])
    {
      if e < |Entries(g, n)| {
        assert ItemOk(g, dirs, Entries(g, n)[e]);
      }
    }
  }

  /** An old directory's entries lead where they led. */
  lemma LeadsOn(g: Image, h: Image, dirs: set<nat>, p: nat, it: DirItem, m: nat, e: nat, name: seq<u8>, to: u32)
    requires TreeOk(g, dirs) && Grafted(g, h, dirs, p, it) && m in dirs && |name| < DIRITEM_NAME_LEN
    requires LeadsTo(g, m, e, name, to)
    ensures LeadsTo(h, m, e, name, to)
  {
    hide Entries, IndexOf, CStr, DirShape, OneEntryEach, DotsOk, NameOf, Bit, DirOk, Blank;
  }

  /** The dot entries of the old directories stay, and those of a new one lead to it and to its parent. */
  lemma GraftedDots(g: Image, h: Image, dirs: set<nat>, p: nat, it: DirItem)
    requires TreeOk(g, dirs) && Grafted(g, h, dirs, p, it)
    ensures DotsOk(h, WithDir(dirs, it))
  {
    hide Entries, IndexOf, CStr, OneEntryEach, NameOf, Bit, DirOk, Blank, LeadsTo;
    var ds := WithDir(dirs, it);
    LeadsOn(g, h, dirs, p, it, 0, 1, DOTDOT, 0xffff_ffff);
    forall n | n in ds
      ensures n < MAX_INODES && LeadsTo(h, n, 0, DOT, n)
    {
      if n in dirs {
        LeadsOn(g, h, dirs, p, it, n, 0, DOT, n);
      }
    }
    forall n, e | n in ds && n < MAX_INODES && n < |h.inodes| && 2 <= e < |Entries(h, n)|
                  && Entries(h, n)[e].kind == TYPE_DIR
      ensures LeadsTo(h, Entries(h, n)[e].inode, 1, DOTDOT, n)
    {
      GraftedEntry(g, h, dirs, p, it, n, e);
      if e < |Entries(g, n)| && Entries(h, n)[e] == Entries(g, n)[e] {
        assert DirShape(g, dirs, n) && ItemOk(g, dirs, Entries(g, n)[e]);
        LeadsOn(g, h, dirs, p, it, Entries(g, n)[e].inode, 1, DOTDOT, n);
      }
    }
  }

  lemma {:induction false} WalkConcat(g: Image, cur: DirItem, a: seq<seq<u8>>, b: seq<seq<u8>>)
    ensures Walk(g, cur, a + b) == if Walk(g, cur, a).None? then None else Walk(g, Walk(g, cur, a).value, b)
    decreases |a|
  {
    hide Entries, IndexOf;
    if a == [] {
      assert a + b == b;
    } else if cur.inode < |g.inodes| {
      assert (a + b)[1..] == a[1..] + b;
      var k := IndexOf(Entries(g, cur.inode), a[0]);
      if k != -1 {
        WalkConcat(g, Entries(g, cur.inode)[k], a[1..], b);
      }
    }
  }

  /** A directory of the tree: lookup comes to it, and from there "." and ".." lead to these inodes. */
  lemma DotSteps(g: Image, dirs: set<nat>, cs: seq<seq<u8>>)
    requires TreeOk(g, dirs) && Plain(cs)
    requires Resolve(g, Root(), cs).Some? && Resolve(g, Root(), cs).value.kind == TYPE_DIR
    ensures var it := Resolve(g, Root(), cs).value;
            && Walk(g, Root(), cs) == Some(it) && it.inode in dirs && (cs == [] ==> it == Root())
            && Walk(g, it, [DOT]).Some? && Walk(g, it, [DOT]).value.inode == it.inode
            && Walk(g, it, [DOTDOT]).Some? && Walk(g, it, [DOTDOT]).value == Entries(g, it.inode)[1]
  {
    hide Entries, CStr, OneEntryEach, DirOk, Blank, Bit, NameOf;
    var it := Resolve(g, Root(), cs).value;
    WalkIsResolve(g, Root(), cs);
    ResolvedOk(g, dirs, Root(), cs);
    assert DirShape(g, dirs, it.inode) && LeadsTo(g, it.inode, 0, DOT, it.inode);
    var es := Entries(g, it.inode);
    assert IndexOf(es, DOT) == 0 && IndexOf(es, DOTDOT) == 1;
    assert Walk(g, es[0], []) == Some(es[0]) && Walk(g, es[1], []) == Some(es[1]);
    assert [DOT][1..] == [] && [DOTDOT][1..] == [];
  }

  /** Which inode the lookup loop is at is all that counts for the rest of the path. */
  lemma WalkByInode(g: Image, a: DirItem, b: DirItem, ds: seq<seq<u8>>)
    requires a.inode == b.inode && ds != []
    ensures Walk(g, a, ds) == Walk(g, b, ds)
  {
    hide Entries, IndexOf;
  }

  /** ".." in the root leads to no inode, and a lookup that goes on from there panics. */
  lemma AboveRoot(g: Image, dirs: set<nat>, ds: seq<seq<u8>>)
    requires TreeOk(g, dirs)
    ensures Walk(g, Root(), [DOTDOT]).Some? && Walk(g, Root(), [DOTDOT]).value.inode == 0xffff_ffff
    ensures WalkSafe(g, Root(), [DOTDOT] + ds) ==> ds == []
  {
    hide Entries, CStr, OneEntryEach, DirOk, Blank, Bit, NameOf, Searchable;
    DotSteps(g, dirs, []);
    assert LeadsTo(g, 0, 1, DOTDOT, 0xffff_ffff);
    assert DirShape(g, dirs, 0);
    assert IndexOf(Entries(g, 0), DOTDOT) == 1;
    assert ([DOTDOT] + ds)[0] == DOTDOT && ([DOTDOT] + ds)[1..] == ds;
    assert WalkSafe(g, Entries(g, 0)[1], ds) ==> ds == [];
  }

  /** "." after a directory can be left out of a path; ".." after one takes its last component back. */
  lemma DotsCancel(g: Image, dirs: set<nat>, cs: seq<seq<u8>>, ds: seq<seq<u8>>)
    requires TreeOk(g, dirs) && Plain(cs) && ds != []
    requires Resolve(g, Root(), cs).Some? && Resolve(g, Root(), cs).value.kind == TYPE_DIR
    ensures Walk(g, Root(), cs + [DOT] + ds) == Walk(g, Root(), cs + ds)
    ensures cs != [] ==> Walk(g, Root(), cs + [DOTDOT] + ds) == Walk(g, Root(), cs[..|cs| - 1] + ds)
  {
    hide Entries, CStr, OneEntryEach, DirShape, Bit, Walk, Resolve, PlainName, NameOf;
    var it := Resolve(g, Root(), cs).value;
    DotSteps(g, dirs, cs);
    WalkConcat(g, Root(), cs, ds);
    WalkConcat(g, Root(), cs + [DOT], ds);
    WalkConcat(g, Root(), cs, [DOT]);
    WalkByInode(g, Walk(g, it, [DOT]).value, it, ds);
    if cs != [] {
      var p, e := LastStep(g, dirs, cs);
      var init := cs[..|cs| - 1];
      WalkIsResolve(g, Root(), init);
      WalkIsResolve(g, Root(), cs);
      assert LeadsTo(g, it.inode, 1, DOTDOT, p.inode);
      WalkConcat(g, Root(), cs, [DOTDOT]);
      WalkConcat(g, Root(), cs + [DOTDOT], ds);
      WalkConcat(g, Root(), init, ds);
      WalkByInode(g, Walk(g, it, [DOTDOT]).value, p, ds);
    }
  }

  /** The tree stays a tree. */
  lemma GraftedTree(g: Image, h: Image, dirs: set<nat>, p: nat, it: DirItem)
    requires TreeOk(g, dirs) && Grafted(g, h, dirs, p, it)
    ensures TreeOk(h, WithDir(dirs, it))
  {
    hide Entries, IndexOf, CStr, Live, Bit, DotsOk, LeadsTo;
    GraftedDots(g, h, dirs, p, it);
    var ds := WithDir(dirs, it);
    forall n | n in ds
      ensures n < MAX_INODES && DirShape(h, ds, n)
    {
      if n in dirs {
        GraftedItems(g, h, dirs, p, it, n);
      }
    }
    assert |h.inodes| == |g.inodes| == MAX_INODES;
    forall n, e, m, f | n in ds && m in ds && 2 <= e < |Entries(h, n)| && 2 <= f < |Entries(h, m)|
      ensures Entries(h, n)[e].inode == Entries(h, m)[f].inode ==> n == m && e == f
    {
      hide DirShape, TreeOk;
      GraftedOnce(g, h, dirs, p, it, n, e, m, f);
    }
  }

  /** An entry of the new tree is either an old one, or the new one and then its inode is new. */
  lemma GraftedEntry(g: Image, h: Image, dirs: set<nat>, p: nat, it: DirItem, n: nat, e: nat)
    requires TreeOk(g, dirs) && Grafted(g, h, dirs, p, it)
    requires n < |h.inodes| && n < |g.inodes|
    requires n in WithDir(dirs, it) && 2 <= e < |Entries(h, n)|
    ensures n in dirs
    ensures if n == p && e == |Entries(g, p)| then Entries(h, n)[e] == it
            else e < |Entries(g, n)| && Entries(h, n)[e] == Entries(g, n)[e] && Entries(g, n)[e].inode != it.inode
  {
    hide Entries, IndexOf, CStr, Live, Bit, OneEntryEach, DotsOk;
    assert DirShape(g, dirs, p);
    if n in dirs {
      assert DirShape(g, dirs, n);
      assert e < |Entries(g, n)| ==> ItemOk(g, dirs, Entries(g, n)[e]);
    }
  }

  lemma GraftedOnce(g: Image, h: Image, dirs: set<nat>, p: nat, it: DirItem, n: nat, e: nat, m: nat, f: nat)
    requires TreeOk(g, dirs) && Grafted(g, h, dirs, p, it)
    requires n < |h.inodes| == |g.inodes| && m < |h.inodes|
    requires n in WithDir(dirs, it) && m in WithDir(dirs, it) && 2 <= e < |Entries(h, n)| && 2 <= f < |Entries(h, m)|
    ensures Entries(h, n)[e].inode == Entries(h, m)[f].inode ==> n == m && e == f
  {
    hide Entries, DirShape, WithDir, Grafted;
    GraftedEntry(g, h, dirs, p, it, n, e);
    GraftedEntry(g, h, dirs, p, it, m, f);
  }

  /** Where the new entry can be reached from `cur`: through p, under its own name. */
  ghost predicate Through(g: Image, cur: DirItem, cs: seq<seq<u8>>, p: nat, it: DirItem) {
    && cs != [] && cs[|cs| - 1] == CStr(it.name)
    && var r := Resolve(g, cur, cs[..|cs| - 1]);
       r.Some? && r.value.kind == TYPE_DIR && r.value.inode == p
  }

  lemma ThroughStep(g: Image, cur: DirItem, cs: seq<seq<u8>>, p: nat, it: DirItem, k: nat)
    requires 1 < |cs| && cur.kind == TYPE_DIR && cur.inode < |g.inodes|
    requires k == IndexOf(Entries(g, cur.inode), cs[0])
    ensures Through(g, cur, cs, p, it) == Through(g, Entries(g, cur.inode)[k], cs[1..], p, it)
  {
    hide Entries, IndexOf, CStr;
    var init := cs[..|cs| - 1];
    assert init[1..] == cs[1..][..|cs[1..]| - 1];
    assert init[0] == cs[0];
  }

  /** Resolution after the graft, from any item of the old tree. */
  lemma {:induction false} GraftResolve(g: Image, h: Image, dirs: set<nat>, p: nat, it: DirItem, cur: DirItem,
                                        cs: seq<seq<u8>>)
    requires TreeOk(g, dirs) && Grafted(g, h, dirs, p, it)
    requires Plain(cs) && (cur.kind == TYPE_DIR ==> cur.inode in dirs)
    ensures Resolve(h, cur, cs) == if Through(g, cur, cs, p, it) then Some(it) else Resolve(g, cur, cs)
    decreases |cs|
  {
    hide Entries, IndexOf, CStr, OneEntryEach, DotsOk, Live, Bit, DirShape;
    if cs != [] && cur.kind == TYPE_DIR {
      var n := cur.inode;
      var k := IndexOf(Entries(g, n), cs[0]);
      PlainHit(g, dirs, n, cs[0]);
      if n == p {
        IndexOfPush(Entries(g, n), it, cs[0]);
      }
      if k != -1 {
        var next := Entries(g, n)[k];
        assert IndexOf(Entries(h, n), cs[0]) == k && Entries(h, n)[k] == next;
        GraftResolve(g, h, dirs, p, it, next, cs[1..]);
        if 1 < |cs| {
          ThroughStep(g, cur, cs, p, it, k);
        } else {
          assert cs[..|cs| - 1] == [];
        }
      } else if n == p && cs[0] == CStr(it.name) {
        assert Entries(h, n)[|Entries(g, n)|] == it;
        if 1 < |cs| {
          NothingBelow(h, it, cs[1..]);
          assert cs[..|cs| - 1] != [] && cs[..|cs| - 1][0] == cs[0];
        } else {
          assert cs[..|cs| - 1] == [];
        }
      } else {
        if 1 < |cs| {
          assert cs[..|cs| - 1] != [] && cs[..|cs| - 1][0] == cs[0];
        } else {
          assert cs[..|cs| - 1] == [];
        }
      }
    } else if cs != [] {
      assert 1 < |cs| ==> cs[..|cs| - 1] != [];
      assert |cs| == 1 ==> cs[..|cs| - 1] == [];
    }
  }

  /** A fresh item has nothing under it. */
  lemma NothingBelow(h: Image, it: DirItem, cs: seq<seq<u8>>)
    requires cs != [] && Plain(cs) && Shape(h) && it.inode < MAX_INODES
    requires it.kind == TYPE_DIR ==>
      && |Entries(h, it.inode)| == 2
      && CStr(Entries(h, it.inode)[0].name) == DOT && CStr(Entries(h, it.inode)[1].name) == DOTDOT
    ensures Resolve(h, it, cs).None?
  {
    hide Entries, CStr;
    assert PlainName(cs[0]);
  }

  /** The directories of the tree hold the same entries in h. */
  ghost predicate SameDirs(g: Image, h: Image, dirs: set<nat>)
    requires TreeOk(g, dirs)
  {
    && Shape(h)
    && (forall n: nat | Allocated(g, n) :: Allocated(h, n))
    && forall n | n in dirs :: DirOk(h, n) && Blank(h, n) && Entries(h, n) == Entries(g, n)
  }

  lemma {:induction false} SameDirsResolve(g: Image, h: Image, dirs: set<nat>, cur: DirItem, cs: seq<seq<u8>>)
    requires TreeOk(g, dirs) && SameDirs(g, h, dirs) && Plain(cs) && (cur.kind == TYPE_DIR ==> cur.inode in dirs)
    ensures Resolve(h, cur, cs) == Resolve(g, cur, cs)
    decreases |cs|
  {
    hide Entries, IndexOf, CStr, OneEntryEach, DotsOk, DirShape, Bit;
    if cs != [] && cur.kind == TYPE_DIR {
      PlainHit(g, dirs, cur.inode, cs[0]);
      var k := IndexOf(Entries(g, cur.inode), cs[0]);
      if k != -1 {
        SameDirsResolve(g, h, dirs, Entries(g, cur.inode)[k], cs[1..]);
      }
    }
  }

  lemma SameDirsTree(g: Image, h: Image, dirs: set<nat>)
    requires TreeOk(g, dirs) && SameDirs(g, h, dirs)
    ensures TreeOk(h, dirs)
    ensures forall cs | Plain(cs) :: Resolve(h, Root(), cs) == Resolve(g, Root(), cs)
  {
    hide Entries, CStr, Bit, DirOk, Blank;
    forall n | n in dirs
      ensures DirShape(h, dirs, n)
    {
      assert DirShape(g, dirs, n);
      forall e | 2 <= e < |Entries(h, n)|
        ensures ItemOk(h, dirs, Entries(h, n)[e])
      {
        assert ItemOk(g, dirs, Entries(g, n)[e]);
      }
    }
    forall cs | Plain(cs)
      ensures Resolve(h, Root(), cs) == Resolve(g, Root(), cs)
    {
      SameDirsResolve(g, h, dirs, Root(), cs);
    }
  }

  /** A step on one inode that is no directory leaves all directories alone. */
  lemma OthersKeptDirs(g: Image, h: Image, dirs: set<nat>, n: nat)
    requires TreeOk(g, dirs) && OthersKept(g, h, n) && Allocated(g, n) && n !in dirs && Shape(h)
    ensures SameDirs(g, h, dirs)
  {
    hide Entries, CStr, Bit, DirOk, Blank, OneEntryEach, DotsOk;
    forall m | m in dirs
      ensures DirOk(h, m) && Blank(h, m) && Entries(h, m) == Entries(g, m)
    {
      assert DirShape(g, dirs, m);
      EntriesKept(g, h, n, m);
    }
  }
}
