/** The directory tree after a removal: which paths and which directories are left. */
module Prune {
  import opened Bytes
  import opened CStrings
  import opened Create
  import opened Dirs
  import opened Free
  import opened Images
  import opened Inodes
  import opened Layout
  import opened Remove
  import opened Sweep
  import opened Tree
  import opened Wrappers

  /** The directories that are not below the item. */
  ghost function Left(g: Image, dirs: set<nat>, di: DirItem): set<nat> {
    set n | n in dirs && !Below(g, di, n)
  }

  /** Item di, which path `at` leads to, is entry k of directory p. */
  ghost predicate EntryOf(g: Image, dirs: set<nat>, at: seq<seq<u8>>, p: nat, k: nat, di: DirItem) {
    && TreeOk(g, dirs) && p in dirs && p < |g.inodes| && 2 <= k < |Entries(g, p)| && Entries(g, p)[k] == di
    && at != [] && At(g, at, di)
  }

  /** h is g without what is below di: p has its entry blanked, the other directories left are as they were. */
  ghost predicate Pruned(g: Image, h: Image, dirs: set<nat>, at: seq<seq<u8>>, p: nat, k: nat, di: DirItem) {
    && EntryOf(g, dirs, at, p, k, di) && !Below(g, di, p)
    && Shape(h) && (forall m: nat :: Allocated(h, m) <==> Allocated(g, m) && !Below(g, di, m))
    && (forall n | n in dirs && n != p && !Below(g, di, n) ::
          DirOk(h, n) && Blank(h, n) && Entries(h, n) == Entries(g, n))
    && DirOk(h, p) && Entries(h, p) == Zeroed(Entries(g, p), k)
    && (k == |Entries(g, p)| - 1 ==> Blank(h, p))
  }

  lemma PrunedBy(g: Image, h: Image, dirs: set<nat>, at: seq<seq<u8>>, p: nat, k: nat, di: DirItem)
    requires EntryOf(g, dirs, at, p, k, di) && SubtreeGone(g, h, dirs, p, di) && !Below(g, di, p)
    requires p < |h.inodes| && DirOk(h, p) && Entries(h, p) == Zeroed(Entries(g, p), k)
    requires k == |Entries(g, p)| - 1 ==> Blank(h, p)
    ensures Pruned(g, h, dirs, at, p, k, di)
  {
    hide TreeOk, Owned, InodesSynced, Below, Entries, Live, Sec, Marked, Allocated, DirOk, Blank, FreeSynced, GivenBack,
         Zeroed, At;
    forall n | n in dirs && n != p && !Below(g, di, n)
      ensures n < |h.inodes| && DirOk(h, n) && Blank(h, n) && Entries(h, n) == Entries(g, n)
    {
      RemoveReady(g, dirs, n, di);
      DirectoryKept(g, h, n);
    }
  }

  lemma DirectoryKept(g: Image, h: Image, n: nat)
    requires n < |g.inodes| && n < |h.inodes| && h.inodes[n] == g.inodes[n] && DirOk(g, n) && Blank(g, n)
    requires forall s: Slot :: Live(h, n, s) == Live(g, n, s)
    requires forall s: Slot | s.Data? && Live(g, n, s) != 0 :: Sec(h, Live(g, n, s)) == Sec(g, Live(g, n, s))
    ensures DirOk(h, n) && Blank(h, n) && Entries(h, n) == Entries(g, n)
  {
    hide Live, Sec, GetItem;
    EntriesAre(g, n);
    EntriesAre(h, n);
    forall e: nat | Live(g, n, Data(e / PER_BLOCK)) != 0
      ensures EntryAt(h, n, e) == EntryAt(g, n, e)
    {
    }
  }

  /** Looking up a name after entry k was blanked. */
  lemma ZeroedIndex(items: seq<DirItem>, k: nat, c: seq<u8>)
    requires k < |items| && DistinctNames(items) && c != []
    ensures c == CStr(items[k].name) || c == CStr(items[|items| - 1].name) ==> IndexOf(Zeroed(items, k), c) == -1
    ensures c != CStr(items[k].name) && c != CStr(items[|items| - 1].name) ==>
      && IndexOf(Zeroed(items, k), c) == IndexOf(items, c)
      && (IndexOf(items, c) != -1 ==> Zeroed(items, k)[IndexOf(items, c)] == items[IndexOf(items, c)])
  {
    hide CStr, IndexOf;
    var rest, r := Zeroed(items, k), IndexOf(items, c);
    forall e | 0 <= e < |rest|
      ensures CStr(rest[e].name) == if e == k then [] else CStr(items[e].name)
      ensures e != k ==> rest[e] == items[e]
    {
      ZeroedName(items, k, e);
    }
    if c == CStr(items[k].name) || c == CStr(items[|items| - 1].name) {
      FirstIsIndex(rest, c, -1);
    } else {
      FirstIsIndex(rest, c, r);
    }
  }

  /** Below the item, exactly the paths that go through it lead to its inodes. */
  lemma BelowPath(g: Image, dirs: set<nat>, at: seq<seq<u8>>, di: DirItem, a: seq<seq<u8>>, x: DirItem)
    requires TreeOk(g, dirs) && At(g, at, di) && At(g, a, x) && Below(g, di, x.inode)
    ensures at <= a
  {
    hide TreeOk, PlainName, Resolve;
    var cs :| Plain(cs) && Resolve(g, di, cs).Some? && Resolve(g, di, cs).value.inode == x.inode;
    ResolveConcat(g, Root(), at, cs);
    ResolveInjective(g, dirs, at + cs, a);
  }

  /** Where the parent's path ends and how the last component is called. */
  lemma ParentPlace(g: Image, dirs: set<nat>, at: seq<seq<u8>>, p: nat, k: nat, di: DirItem, a: seq<seq<u8>>,
                    x: DirItem)
    requires EntryOf(g, dirs, at, p, k, di) && At(g, a, x)
    ensures x.inode == p <==> a == at[..|at| - 1]
    ensures at == at[..|at| - 1] + [CStr(di.name)]
  {
    hide TreeOk, PlainName, Resolve, CStr, Entries;
    ParentNotBelow(g, dirs, at, p, k, di);
    if x.inode == p {
      ResolveInjective(g, dirs, at[..|at| - 1], a);
    }
  }

  /** The path of the last entry in the item's directory. */
  ghost function LostPath(g: Image, at: seq<seq<u8>>, p: nat): (r: seq<seq<u8>>)
    requires at != [] && p < |g.inodes| && Entries(g, p) != []
    ensures |r| == |at| && r[..|r| - 1] == at[..|at| - 1]
    ensures r == r[..|r| - 1] + [CStr(Entries(g, p)[|Entries(g, p)| - 1].name)]
  {
    at[..|at| - 1] + [CStr(Entries(g, p)[|Entries(g, p)| - 1].name)]
  }

  /** One step of a path in the pruned tree. */
  lemma PrunedStep(g: Image, h: Image, dirs: set<nat>, at: seq<seq<u8>>, p: nat, k: nat, di: DirItem,
                   a: seq<seq<u8>>, x: DirItem, c: seq<u8>)
    requires Pruned(g, h, dirs, at, p, k, di) && At(g, a, x) && !(at <= a) && PlainName(c) && x.kind == TYPE_DIR
    ensures x.inode < |g.inodes| && x.inode < |h.inodes|
    ensures at == a + [c] || LostPath(g, at, p) == a + [c] ==> IndexOf(Entries(h, x.inode), c) == -1
    ensures at != a + [c] && LostPath(g, at, p) != a + [c] ==>
      var e := IndexOf(Entries(g, x.inode), c);
      && IndexOf(Entries(h, x.inode), c) == e
      && (e != -1 ==> Entries(h, x.inode)[e] == Entries(g, x.inode)[e])
  {
    hide CStr, IndexOf, Below, At, TreeOk, Zeroed, Entries, DirOk, Blank, Allocated;
    PathDir(g, dirs, at, di, a, x);
    ParentPlace(g, dirs, at, p, k, di, a, x);
    NamesDistinct(g, dirs, p);
    PlainNonEmpty(c);
    ZeroedIndex(Entries(g, p), k, c);
    LastDiffers(at, a, c, CStr(di.name));
    LastDiffers(LostPath(g, at, p), a, c, CStr(Entries(g, p)[|Entries(g, p)| - 1].name));
  }

  lemma LastDiffers(at: seq<seq<u8>>, a: seq<seq<u8>>, c: seq<u8>, name: seq<u8>)
    requires at != [] && at == at[..|at| - 1] + [name]
    ensures at == a + [c] <==> a == at[..|at| - 1] && c == name
  {
    if at == a + [c] {
      assert at[|at| - 1] == c && at[|at| - 1] == name;
    }
  }

  lemma PlainNonEmpty(c: seq<u8>)
    requires PlainName(c)
    ensures c != []
  {
  }

  lemma NamesDistinct(g: Image, dirs: set<nat>, p: nat)
    requires TreeOk(g, dirs) && p in dirs
    ensures p < |g.inodes| && DistinctNames(Entries(g, p))
  {
    hide DistinctNames, Entries, CStr, OneEntryEach, DotsOk, DirOk, Blank, Allocated;
    assert DirShape(g, dirs, p);
  }

  lemma PathDir(g: Image, dirs: set<nat>, at: seq<seq<u8>>, di: DirItem, a: seq<seq<u8>>, x: DirItem)
    requires TreeOk(g, dirs) && At(g, at, di) && At(g, a, x) && !(at <= a) && x.kind == TYPE_DIR
    ensures x.inode in dirs && x.inode < |g.inodes| && x.inode < MAX_INODES && !Below(g, di, x.inode)
  {
    hide Below, Resolve, PlainName, DirShape, OneEntryEach, DotsOk;
    if Below(g, di, x.inode) {
      BelowPath(g, dirs, at, di, a, x);
    }
    hide TreeOk;
    OnPath(g, dirs, a);
    TreeBounds(g, dirs);
  }

  /**
    Paths in the pruned tree: those through the item and those through the last entry of its
    directory are gone, and all others lead where they led.
   */
  lemma {:induction false} PrunedResolve(g: Image, h: Image, dirs: set<nat>, at: seq<seq<u8>>, p: nat, k: nat,
                                         di: DirItem, a: seq<seq<u8>>, x: DirItem, cs: seq<seq<u8>>)
    requires Pruned(g, h, dirs, at, p, k, di) && p < |g.inodes| && Entries(g, p) != []
    requires At(g, a, x) && !(at <= a) && !(LostPath(g, at, p) <= a) && Plain(cs)
    ensures Resolve(h, x, cs) ==
            if at <= a + cs || LostPath(g, at, p) <= a + cs then None else Resolve(g, x, cs)
    decreases |cs|
  {
    hide CStr, IndexOf, Below, At, Pruned, Entries, PlainName, LostPath;
    PrunedParts(g, h, dirs, at, p, k, di);
    var lost := LostPath(g, at, p);
    if cs == [] {
      assert a + cs == a;
    } else if x.kind == TYPE_DIR {
      PrunedStep(g, h, dirs, at, p, k, di, a, x, cs[0]);
      assert a + cs == (a + [cs[0]]) + cs[1..];
      PrefixStep(at, a, cs);
      PrefixStep(lost, a, cs);
      var e := IndexOf(Entries(g, x.inode), cs[0]);
      if at != a + [cs[0]] && lost != a + [cs[0]] && e != -1 {
        PathOn(g, dirs, a, x, cs[0]);
        PrunedResolve(g, h, dirs, at, p, k, di, a + [cs[0]], Entries(g, x.inode)[e], cs[1..]);
      }
    }
  }

  lemma PrunedParts(g: Image, h: Image, dirs: set<nat>, at: seq<seq<u8>>, p: nat, k: nat, di: DirItem)
    requires Pruned(g, h, dirs, at, p, k, di)
    ensures TreeOk(g, dirs) && at != [] && p < |g.inodes|
  {
    hide TreeOk, Below, Entries, DirOk, Blank, At, Allocated;
  }

  /** Going one component on, on a path that is not through `at` yet. */
  lemma PrefixStep(at: seq<seq<u8>>, a: seq<seq<u8>>, cs: seq<seq<u8>>)
    requires at != [] && !(at <= a) && cs != []
    ensures at <= a + [cs[0]] <==> at == a + [cs[0]]
    ensures at == a + [cs[0]] ==> at <= a + cs
  {
    if at == a + [cs[0]] {
      assert (a + cs)[..|at|] == at;
    }
  }

  lemma PathOn(g: Image, dirs: set<nat>, a: seq<seq<u8>>, x: DirItem, c: seq<u8>)
    requires TreeOk(g, dirs) && At(g, a, x) && x.kind == TYPE_DIR && x.inode < |g.inodes| && PlainName(c)
    requires IndexOf(Entries(g, x.inode), c) != -1
    ensures At(g, a + [c], Entries(g, x.inode)[IndexOf(Entries(g, x.inode), c)])
  {
    hide CStr, IndexOf, Entries, TreeOk, PlainName;
    var it := Entries(g, x.inode)[IndexOf(Entries(g, x.inode), c)];
    ResolveConcat(g, Root(), a, [c]);
    ResolveNothing(g, it);
    assert [c][1..] == [];
    assert Resolve(g, x, [c]) == Resolve(g, it, []);
    assert Plain([c]);
    PlainSnoc(a, c);
  }

  /** Every plain path, from the root. */
  lemma PrunedPaths(g: Image, h: Image, dirs: set<nat>, at: seq<seq<u8>>, p: nat, k: nat, di: DirItem)
    requires Pruned(g, h, dirs, at, p, k, di) && p < |g.inodes|
    ensures forall cs | Plain(cs) ::
              Resolve(h, Root(), cs) ==
              if at <= cs || LostPath(g, at, p) <= cs then None else Resolve(g, Root(), cs)
    ensures Plain(LostPath(g, at, p)) && Resolve(g, Root(), LostPath(g, at, p)).Some?
    ensures at <= LostPath(g, at, p) <==> k == |Entries(g, p)| - 1
  {
    hide CStr, IndexOf, Below, Entries, PlainName, Resolve, TreeOk, DirOk, Blank, Zeroed, Allocated, At, LostPath;
    ResolveNothing(g, Root());
    RootAt(g);
    forall cs | Plain(cs)
      ensures Resolve(h, Root(), cs) ==
              if at <= cs || LostPath(g, at, p) <= cs then None else Resolve(g, Root(), cs)
    {
      assert [] + cs == cs;
      PrunedResolve(g, h, dirs, at, p, k, di, [], Root(), cs);
    }
    LostLeads(g, dirs, at, p, k, di);
  }

  lemma RootAt(g: Image)
    ensures At(g, [], Root())
  {
    ResolveNothing(g, Root());
  }

  /** The last entry's path leads to the last entry, and is the item's own exactly when the item is the last. */
  lemma LostLeads(g: Image, dirs: set<nat>, at: seq<seq<u8>>, p: nat, k: nat, di: DirItem)
    requires EntryOf(g, dirs, at, p, k, di)
    ensures Plain(LostPath(g, at, p)) && Resolve(g, Root(), LostPath(g, at, p)).Some?
    ensures at <= LostPath(g, at, p) <==> k == |Entries(g, p)| - 1
  {
    hide CStr, IndexOf, TreeOk, Entries, Plain, Resolve, ItemOk, PlainName, Below, LostPath;
    ParentNotBelow(g, dirs, at, p, k, di);
    LostItem(g, dirs, at[..|at| - 1], p);
    EntryStep(g, dirs, p, |Entries(g, p)| - 1);
    EntryStep(g, dirs, p, k);
    SameLast(at, LostPath(g, at, p));
  }

  lemma LostItem(g: Image, dirs: set<nat>, init: seq<seq<u8>>, p: nat)
    requires TreeOk(g, dirs) && p in dirs && p < |g.inodes| && 2 < |Entries(g, p)|
    requires Plain(init) && Resolve(g, Root(), init).Some? && Resolve(g, Root(), init).value.inode == p
    ensures At(g, init + [CStr(Entries(g, p)[|Entries(g, p)| - 1].name)], Entries(g, p)[|Entries(g, p)| - 1])
  {
    hide CStr, IndexOf, TreeOk, Entries, Plain, Resolve, ItemOk, PlainName;
    OnPath(g, dirs, init);
    EntryPath(g, dirs, init, Resolve(g, Root(), init).value, |Entries(g, p)| - 1);
  }

  /** Two paths that differ in their last component at most. */
  lemma SameLast<T>(a: seq<T>, b: seq<T>)
    requires a != [] && |a| == |b| && a[..|a| - 1] == b[..|b| - 1]
    ensures a <= b <==> a[|a| - 1] == b[|b| - 1]
  {
    assert a == a[..|a| - 1] + [a[|a| - 1]] && b == b[..|b| - 1] + [b[|b| - 1]];
  }

  /** What is left is a tree again exactly when the entry was the last one. */
  lemma PrunedTree(g: Image, h: Image, dirs: set<nat>, at: seq<seq<u8>>, p: nat, k: nat, di: DirItem)
    requires Pruned(g, h, dirs, at, p, k, di) && p < |g.inodes|
    ensures TreeOk(h, Left(g, dirs, di)) <==> k == |Entries(g, p)| - 1
  {
    hide Below, Entries, CStr, IndexOf, DirOk, Blank, Allocated, Zeroed, DirShape, OneEntryEach, DotsOk, At,
         DistinctNames;
    var left := Left(g, dirs, di);
    if k == |Entries(g, p)| - 1 {
      RootLeft(g, dirs, at, di);
      forall n | n in left
        ensures n < MAX_INODES && DirShape(h, left, n)
      {
        LeftShape(g, h, dirs, at, p, k, di, n);
      }
      LeftOnce(g, h, dirs, at, p, k, di);
      LeftDots(g, h, dirs, at, p, k, di);
    } else {
      BlankEntry(g, h, dirs, at, p, k, di);
    }
  }

  lemma RootLeft(g: Image, dirs: set<nat>, at: seq<seq<u8>>, di: DirItem)
    requires TreeOk(g, dirs) && At(g, at, di) && at != []
    ensures 0 in Left(g, dirs, di)
  {
    hide Below, Resolve, PlainName, TreeOk;
    ResolveNothing(g, Root());
    TreeRoot(g, dirs);
    if Below(g, di, 0) {
      BelowPath(g, dirs, at, di, [], Root());
    }
  }

  lemma TreeRoot(g: Image, dirs: set<nat>)
    requires TreeOk(g, dirs)
    ensures 0 in dirs
  {
    hide DirShape, OneEntryEach, DotsOk;
  }

  lemma BlankEntry(g: Image, h: Image, dirs: set<nat>, at: seq<seq<u8>>, p: nat, k: nat, di: DirItem)
    requires Pruned(g, h, dirs, at, p, k, di) && p < |g.inodes| && k != |Entries(g, p)| - 1
    ensures !TreeOk(h, Left(g, dirs, di))
  {
    hide Below, Entries, IndexOf, DirOk, Blank, Allocated, OneEntryEach, DotsOk, At, DistinctNames;
    ZeroItemNameless();
    assert p in Left(g, dirs, di) && Entries(h, p)[k] == ZERO_ITEM;
    hide CStr;
    assert !DirShape(h, Left(g, dirs, di), p);
  }

  /** An entry outside the subtree, other than the one removed, leads out of it. */
  lemma EntryLeft(g: Image, dirs: set<nat>, at: seq<seq<u8>>, p: nat, k: nat, di: DirItem, n: nat, e: nat)
    requires EntryOf(g, dirs, at, p, k, di) && n in dirs && n < |g.inodes| && 2 <= e < |Entries(g, n)|
            && (n, e) != (p, k)
    requires !Below(g, di, n)
    ensures !Below(g, di, Entries(g, n)[e].inode)
  {
    hide Entries, CStr, DirShape, Below, At;
    if Below(g, di, Entries(g, n)[e].inode) {
      var q, f := BelowHas(g, dirs, at, di, Entries(g, n)[e].inode);
    }
  }

  /** What is below the item, but the item itself, has an entry in a directory below it. */
  lemma BelowHas(g: Image, dirs: set<nat>, at: seq<seq<u8>>, di: DirItem, m: nat) returns (q: nat, f: nat)
    requires TreeOk(g, dirs) && At(g, at, di) && at != [] && Below(g, di, m)
    ensures m == di.inode || (q in dirs && q < |g.inodes| && Below(g, di, q)
                              && 2 <= f < |Entries(g, q)| && Entries(g, q)[f].inode == m)
  {
    hide Entries, CStr, TreeOk, PlainName, Resolve;
    q, f := 0, 0;
    var cs :| Plain(cs) && Resolve(g, di, cs).Some? && Resolve(g, di, cs).value.inode == m;
    if cs == [] {
      ResolveNothing(g, di);
    } else {
      ResolveConcat(g, Root(), at, cs);
      TreeBounds(g, dirs);
      var x;
      x, f := LastStep(g, dirs, at + cs);
      q := x.inode;
      assert (at + cs)[..|at + cs| - 1] == at + cs[..|cs| - 1];
      ResolveConcat(g, Root(), at, cs[..|cs| - 1]);
      assert Plain(cs[..|cs| - 1]);
    }
  }

  lemma LeftShape(g: Image, h: Image, dirs: set<nat>, at: seq<seq<u8>>, p: nat, k: nat, di: DirItem, n: nat)
    requires Pruned(g, h, dirs, at, p, k, di) && p < |g.inodes| && k == |Entries(g, p)| - 1 && n in Left(g, dirs, di)
    ensures n < MAX_INODES && DirShape(h, Left(g, dirs, di), n)
  {
    hide Below, Entries, CStr, IndexOf, DirOk, Blank, Allocated, At, OneEntryEach, DotsOk;
    assert DirShape(g, dirs, n);
    var left, es := Left(g, dirs, di), Entries(h, n);
    assert n == p ==> es == Entries(g, p)[..k];
    assert forall e | 0 <= e < |es| :: es[e] == Entries(g, n)[e];
    forall e | 2 <= e < |es|
      ensures ItemOk(h, left, es[e])
    {
      assert ItemOk(g, dirs, Entries(g, n)[e]);
      EntryLeft(g, dirs, at, p, k, di, n, e);
    }
  }

  /** The directories that are left keep their dot entries. */
  lemma LeftDots(g: Image, h: Image, dirs: set<nat>, at: seq<seq<u8>>, p: nat, k: nat, di: DirItem)
    requires Pruned(g, h, dirs, at, p, k, di) && p < |g.inodes| && k == |Entries(g, p)| - 1
    requires 0 in Left(g, dirs, di)
    ensures DotsOk(h, Left(g, dirs, di))
  {
    hide Below, Entries, CStr, IndexOf, DirOk, Blank, Allocated, At, OneEntryEach, NameOf, DistinctNames;
    forall n | n in Left(g, dirs, di)
      ensures n in dirs && n < MAX_INODES && n < |h.inodes| == |g.inodes| && Entries(h, n) <= Entries(g, n)
      ensures 2 <= |Entries(h, n)|
    {
      assert DirShape(g, dirs, n);
    }
    forall n, e | n in Left(g, dirs, di) && n < MAX_INODES && n < |h.inodes| && 2 <= e < |Entries(h, n)|
                  && Entries(h, n)[e].kind == TYPE_DIR
      ensures LeadsTo(h, Entries(h, n)[e].inode, 1, DOTDOT, n)
    {
      EntryLeft(g, dirs, at, p, k, di, n, e);
      assert DirShape(g, dirs, n) && ItemOk(g, dirs, Entries(g, n)[e]);
      assert LeadsTo(g, Entries(g, n)[e].inode, 1, DOTDOT, n);
    }
  }

  lemma LeftOnce(g: Image, h: Image, dirs: set<nat>, at: seq<seq<u8>>, p: nat, k: nat, di: DirItem)
    requires Pruned(g, h, dirs, at, p, k, di) && p < |g.inodes| && k == |Entries(g, p)| - 1
    requires forall n | n in Left(g, dirs, di) :: n < |h.inodes|
    ensures OneEntryEach(h, Left(g, dirs, di))
  {
    hide Below, Entries, CStr, IndexOf, DirOk, Blank, Allocated, At, DirShape;
    forall n, e | n in Left(g, dirs, di) && 0 <= e < |Entries(h, n)|
      ensures n in dirs && n < |g.inodes| && e < |Entries(g, n)| && Entries(h, n)[e] == Entries(g, n)[e]
    {
    }
  }
}
