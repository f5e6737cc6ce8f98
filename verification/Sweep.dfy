/** kern/fs/dir.c, diritem_remove_sub: giving back everything below an entry, in memory only. */
module Sweep {
  import opened Bytes
  import opened Bitmaps
  import opened CStrings
  import opened Dirs
  import opened Free
  import opened Images
  import opened Inodes
  import opened Layout
  import opened Ownership
  import opened Tree
  import opened Volumes
  import opened Wrappers

  /** Inode m is the item's own, or that of an item some path leads to from it. */
  ghost predicate Below(g: Image, di: DirItem, m: nat) {
    exists cs :: Plain(cs) && Resolve(g, di, cs).Some? && Resolve(g, di, cs).value.inode == m
  }

  /** The same for one of the first e entries of directory n. */
  ghost predicate BelowFirst(g: Image, n: nat, e: nat, m: nat)
    requires n < |g.inodes|
  {
    exists k :: 2 <= k < e && k < |Entries(g, n)| && Below(g, Entries(g, n)[k], m)
  }

  /** The path leads to the item. */
  ghost predicate At(g: Image, at: seq<seq<u8>>, di: DirItem) {
    Plain(at) && Resolve(g, Root(), at) == Some(di)
  }

  lemma BelowSelf(g: Image, di: DirItem)
    ensures Below(g, di, di.inode)
  {
    assert Plain([]) && Resolve(g, di, []) == Some(di);
  }

  lemma BelowFile(g: Image, di: DirItem, m: nat)
    requires di.kind != TYPE_DIR
    ensures Below(g, di, m) <==> m == di.inode
  {
    BelowSelf(g, di);
    hide Entries, IndexOf;
  }

  /** An entry of a directory of the tree is what its name finds. */
  lemma EntryStep(g: Image, dirs: set<nat>, n: nat, e: nat)
    requires TreeOk(g, dirs) && n in dirs && 2 <= e < |Entries(g, n)|
    ensures var it := Entries(g, n)[e];
            ItemOk(g, dirs, it) && PlainName(CStr(it.name)) && IndexOf(Entries(g, n), CStr(it.name)) == e
  {
    hide Entries, CStr, IndexOf, DirOk, Blank, OneEntryEach, DotsOk, Bit, PlainName;
    assert DirShape(g, dirs, n);
    FirstIsIndex(Entries(g, n), CStr(Entries(g, n)[e].name), e);
  }

  /** Paths through the entry's name go on from the entry. */
  lemma EntryLeads(g: Image, dirs: set<nat>, di: DirItem, e: nat, cs: seq<seq<u8>>)
    requires TreeOk(g, dirs) && di.kind == TYPE_DIR && di.inode in dirs && 2 <= e < |Entries(g, di.inode)|
    ensures var it := Entries(g, di.inode)[e];
            && Resolve(g, di, [CStr(it.name)] + cs) == Resolve(g, it, cs)
            && (Plain(cs) ==> Plain([CStr(it.name)] + cs))
  {
    hide Entries, CStr, IndexOf, TreeOk, ItemOk, PlainName;
    TreeBounds(g, dirs);
    EntryStep(g, dirs, di.inode, e);
    var path := [CStr(Entries(g, di.inode)[e].name)] + cs;
    assert path[1..] == cs;
  }

  lemma TreeBounds(g: Image, dirs: set<nat>)
    requires TreeOk(g, dirs)
    ensures forall n | n in dirs :: n < |g.inodes|
  {
    hide DirShape, OneEntryEach, DotsOk;
  }

  lemma ResolveNothing(g: Image, it: DirItem)
    ensures Resolve(g, it, []) == Some(it)
  {
  }

  lemma PlainSnoc(at: seq<seq<u8>>, c: seq<u8>)
    ensures Plain(at) && Plain([c]) ==> Plain(at + [c])
  {
    hide PlainName;
    assert [c][0] == c;
  }

  lemma EntryPath(g: Image, dirs: set<nat>, at: seq<seq<u8>>, di: DirItem, e: nat)
    requires TreeOk(g, dirs) && At(g, at, di) && di.kind == TYPE_DIR && di.inode in dirs
    requires 2 <= e < |Entries(g, di.inode)|
    ensures At(g, at + [CStr(Entries(g, di.inode)[e].name)], Entries(g, di.inode)[e])
  {
    hide Entries, CStr, TreeOk, Resolve, PlainName;
    TreeBounds(g, dirs);
    EntryLeads(g, dirs, di, e, []);
    var it := Entries(g, di.inode)[e];
    assert [CStr(it.name)] + [] == [CStr(it.name)];
    ResolveConcat(g, Root(), at, [CStr(it.name)]);
    ResolveNothing(g, it);
    PlainSnoc(at, CStr(it.name));
  }

  /** What is below a directory: itself, and what is below its entries. */
  lemma BelowDir(g: Image, dirs: set<nat>, di: DirItem, m: nat)
    requires TreeOk(g, dirs) && di.kind == TYPE_DIR && di.inode in dirs
    ensures Below(g, di, m) <==> m == di.inode || BelowFirst(g, di.inode, |Entries(g, di.inode)|, m)
  {
    assert di.inode < |g.inodes|;
    hide Entries, CStr, IndexOf, TreeOk, DirShape;
    BelowSelf(g, di);
    var es := Entries(g, di.inode);
    if Below(g, di, m) && m != di.inode {
      BelowSome(g, dirs, di, m);
    }
    if k :| 2 <= k < |es| && Below(g, es[k], m) {
      EntryBelow(g, dirs, di, k, m);
    }
  }

  lemma BelowSome(g: Image, dirs: set<nat>, di: DirItem, m: nat)
    requires TreeOk(g, dirs) && di.kind == TYPE_DIR && di.inode in dirs && Below(g, di, m) && m != di.inode
    ensures BelowFirst(g, di.inode, |Entries(g, di.inode)|, m)
  {
    hide Entries, CStr, IndexOf, TreeOk, DirShape, PlainName;
    TreeBounds(g, dirs);
    var es := Entries(g, di.inode);
    var cs :| Plain(cs) && Resolve(g, di, cs).Some? && Resolve(g, di, cs).value.inode == m;
    assert cs != [];
    PlainHit(g, dirs, di.inode, cs[0]);
    var k := IndexOf(es, cs[0]);
    assert Resolve(g, es[k], cs[1..]) == Resolve(g, di, cs) && Plain(cs[1..]);
    assert Below(g, es[k], m);
  }

  lemma EntryBelow(g: Image, dirs: set<nat>, di: DirItem, k: nat, m: nat)
    requires TreeOk(g, dirs) && di.kind == TYPE_DIR && di.inode in dirs && 2 <= k < |Entries(g, di.inode)|
    requires Below(g, Entries(g, di.inode)[k], m)
    ensures Below(g, di, m)
  {
    hide Entries, CStr, TreeOk, Resolve, Plain;
    TreeBounds(g, dirs);
    var it := Entries(g, di.inode)[k];
    var cs :| Plain(cs) && Resolve(g, it, cs).Some? && Resolve(g, it, cs).value.inode == m;
    EntryLeads(g, dirs, di, k, cs);
  }

  /** One inode below two items: one of their paths leads through the other. */
  lemma BelowBoth(g: Image, dirs: set<nat>, a: seq<seq<u8>>, x: DirItem, b: seq<seq<u8>>, y: DirItem, m: nat)
    requires TreeOk(g, dirs) && At(g, a, x) && At(g, b, y) && Below(g, x, m) && Below(g, y, m)
    ensures a <= b || b <= a
  {
    hide TreeOk;
    var cs :| Plain(cs) && Resolve(g, x, cs).Some? && Resolve(g, x, cs).value.inode == m;
    var ds :| Plain(ds) && Resolve(g, y, ds).Some? && Resolve(g, y, ds).value.inode == m;
    ResolveConcat(g, Root(), a, cs);
    ResolveConcat(g, Root(), b, ds);
    ResolveInjective(g, dirs, a + cs, b + ds);
    if |a| <= |b| {
      assert b[..|a|] == (b + ds)[..|a|] == (a + cs)[..|a|] == a;
    } else {
      assert a[..|b|] == (a + cs)[..|b|] == (b + ds)[..|b|] == b;
    }
  }

  /** A directory is not below its own entry. */
  lemma NotBelowEntry(g: Image, dirs: set<nat>, a: seq<seq<u8>>, x: DirItem, b: seq<seq<u8>>, y: DirItem)
    requires TreeOk(g, dirs) && At(g, a, x) && At(g, b, y) && |a| < |b|
    ensures !Below(g, y, x.inode)
  {
    hide TreeOk;
    if Below(g, y, x.inode) {
      var ds :| Plain(ds) && Resolve(g, y, ds).Some? && Resolve(g, y, ds).value.inode == x.inode;
      ResolveConcat(g, Root(), b, ds);
      ResolveInjective(g, dirs, a, b + ds);
      assert false;
    }
  }

  /** A path in the tree is shorter than there are inodes: the items on it are different. */
  lemma PathShort(g: Image, dirs: set<nat>, at: seq<seq<u8>>, di: DirItem)
    requires TreeOk(g, dirs) && At(g, at, di)
    ensures |at| < MAX_INODES
  {
    hide TreeOk, Entries, IndexOf;
    forall k: nat | k <= |at|
      ensures Resolve(g, Root(), at[..k]).Some? && Resolve(g, Root(), at[..k]).value.inode < MAX_INODES
      ensures Plain(at[..k])
    {
      assert at == at[..k] + at[k..];
      ResolveConcat(g, Root(), at[..k], at[k..]);
      OnPath(g, dirs, at[..k]);
    }
    var s: seq<nat> := seq(|at| + 1, k requires 0 <= k <= |at| => Resolve(g, Root(), at[..k]).value.inode as nat);
    forall i, j | 0 <= i < j < |s|
      ensures s[i] != s[j]
    {
      if s[i] == s[j] {
        ResolveInjective(g, dirs, at[..i], at[..j]);
      }
    }
    Pigeonhole(s, MAX_INODES);
  }

  lemma OnPath(g: Image, dirs: set<nat>, cs: seq<seq<u8>>)
    requires TreeOk(g, dirs) && Plain(cs) && Resolve(g, Root(), cs).Some?
    ensures Resolve(g, Root(), cs).value.inode < MAX_INODES && Allocated(g, Resolve(g, Root(), cs).value.inode)
    ensures Resolve(g, Root(), cs).value.kind == TYPE_DIR <==> Resolve(g, Root(), cs).value.inode in dirs
    ensures cs != [] ==> ItemOk(g, dirs, Resolve(g, Root(), cs).value)
  {
    hide Entries, CStr, OneEntryEach, DotsOk, DirOk, Blank, DistinctNames;
    ResolvedOk(g, dirs, Root(), cs);
    assert DirShape(g, dirs, 0);
  }

  /** Block l is one of the first i logical blocks of inode n. */
  ghost predicate AmongFirst(g: Image, n: nat, i: nat, l: nat) {
    l != 0 && exists j: nat :: j < i && Live(g, n, Data(j)) == l
  }

  /** Where the loop over inode n's blocks stops: at the first missing block from i on, at the latest at `limit`. */
  ghost function Leading(g: Image, n: nat, i: nat, limit: nat): nat
    decreases limit - i
  {
    if limit <= i || Live(g, n, Data(i)) == 0 then i else Leading(g, n, i + 1, limit)
  }

  lemma {:induction false} LeadingIs(g: Image, n: nat, k: nat, i: nat, limit: nat)
    requires k <= i <= limit && (forall j: nat | k <= j < i :: Live(g, n, Data(j)) != 0)
    requires i == limit || Live(g, n, Data(i)) == 0
    ensures Leading(g, n, k, limit) == i
    decreases i - k
  {
    hide Live;
    if k < i {
      LeadingIs(g, n, k + 1, i, limit);
    }
  }

  /** A file system before a removal, the image b after p's entry was blanked, and the directories. */
  datatype Cut = Cut(g: Image, b: Image, dirs: set<nat>, p: nat)

  ghost predicate CutOk(t: Cut) {
    && TreeOk(t.g, t.dirs) && Consistent(t.b) && OthersKept(t.g, t.b, t.p) && SameRefs(t.g, t.b)
    && t.b.used == t.g.used
  }

  /** The blocks of inode m that are given back: a file's up to the first hole, a directory's also up to its size_. */
  ghost predicate FreedOf(t: Cut, m: nat, l: nat) {
    m < |t.b.inodes| &&
    AmongFirst(t.b, m, Leading(t.b, m, 0, if m in t.dirs then t.b.inodes[m].size else BLOCK_INDEX_MAX), l)
  }

  ghost predicate FreedBelow(t: Cut, di: DirItem, l: nat) {
    exists m: nat :: Below(t.g, di, m) && FreedOf(t, m, l)
  }

  ghost predicate FreedFirst(t: Cut, n: nat, e: nat, l: nat)
    requires n < |t.g.inodes|
  {
    exists m: nat :: BelowFirst(t.g, n, e, m) && FreedOf(t, m, l)
  }

  /** h is b with these inodes and these blocks unmarked in memory. */
  ghost predicate Swept(b: Image, h: Image, gone: set<nat>, freed: set<nat>) {
    && Shape(h) && h == b.(free := h.free, used := h.used)
    && (forall m: nat :: Allocated(h, m) <==> Allocated(b, m) && m !in gone)
    && (forall l: nat :: Marked(h, l) <==> Marked(b, l) && l !in freed)
  }

  /** Each freed block is a data block of one of these inodes, or one of the first i of inode n. */
  ghost predicate FromData(b: Image, owners: set<nat>, n: nat, i: nat, freed: set<nat>) {
    forall l | l in freed :: AmongFirst(b, n, i, l) || OwnedBy(b, owners, l)
  }

  ghost predicate OwnedBy(b: Image, owners: set<nat>, l: nat) {
    l != 0 && exists m: nat, j: nat :: m in owners && Live(b, m, Data(j)) == l
  }

  /** What is not gone keeps its blocks, and all index blocks stay marked. */
  lemma SweptKeeps(b: Image, h: Image, gone: set<nat>, freed: set<nat>, owners: set<nat>, n: nat, i: nat)
    requires Shape(b) && Owned(b) && Swept(b, h, gone, freed) && FromData(b, owners, n, i, freed)
    ensures forall m: nat, s: Slot :: Live(h, m, s) == if m in gone then 0 else Live(b, m, s)
    ensures IndexOwned(h)
  {
    hide Bit, GetWord, Marked;
    forall m: nat, s: Slot
      ensures Live(h, m, s) == if m in gone then 0 else Live(b, m, s)
    {
      SameDiskRef(b, h, m, s);
      hide Ref;
    }
    hide Live, Allocated;
    forall m: nat, s: Slot | !s.Data? && Live(h, m, s) != 0
      ensures Marked(h, Live(h, m, s))
    {
      assert Marked(b, Live(b, m, s));
    }
  }

  lemma SameDiskRef(b: Image, h: Image, m: nat, s: Slot)
    requires h.disk == b.disk && h.inodes == b.inodes
    ensures Ref(h, m, s) == Ref(b, m, s)
  {
    hide GetWord;
    RefFrame(b, h, m, s);
  }

  /** The block the loop has come to is still marked. */
  lemma NotFreedYet(b: Image, owners: set<nat>, n: nat, i: nat, freed: set<nat>)
    requires Owned(b) && FromData(b, owners, n, i, freed) && n !in owners && Live(b, n, Data(i)) != 0
    ensures Live(b, n, Data(i)) !in freed
  {
    hide Live, Marked;
  }

  /** Unmarking block i of inode n. */
  lemma OneFreed(b: Image, h: Image, gone: set<nat>, freed: set<nat>, owners: set<nat>, n: nat, i: nat)
    requires Shape(b) && Owned(b) && Swept(b, h, gone, freed) && FromData(b, owners, n, i, freed)
    requires Live(b, n, Data(i)) != 0
    ensures var l := Live(b, n, Data(i));
            && InPool(h, l) && Marked(b, l)
            && Swept(b, Mark(h, l, false), gone, freed + {l}) && FromData(b, owners, n, i + 1, freed + {l})
    ensures forall k: nat :: AmongFirst(b, n, i + 1, k) <==> AmongFirst(b, n, i, k) || k == Live(b, n, Data(i))
  {
    hide Live, Marked, WithBit, Bit, Allocated;
    var l := Live(b, n, Data(i));
    assert Marked(b, l);
    MarkedInPool(b, l);
    MarkEffect(h, l, false);
    SameUsed(h, Mark(h, l, false));
    NextAmong(b, n, i);
  }

  lemma NextAmong(b: Image, n: nat, i: nat)
    requires Live(b, n, Data(i)) != 0
    ensures forall k: nat :: AmongFirst(b, n, i + 1, k) <==> AmongFirst(b, n, i, k) || k == Live(b, n, Data(i))
  {
    hide Live;
    forall k: nat
      ensures AmongFirst(b, n, i + 1, k) <==> AmongFirst(b, n, i, k) || k == Live(b, n, Data(i))
    {
      assert Live(b, n, Data(i)) == Live(b, n, Data(i));
      if AmongFirst(b, n, i + 1, k) && k != Live(b, n, Data(i)) {
        var j: nat :| j < i + 1 && Live(b, n, Data(j)) == k;
        assert j < i;
      }
    }
  }

  lemma SameUsed(g: Image, h: Image)
    requires g.used == h.used
    ensures forall m: nat :: Allocated(g, m) == Allocated(h, m)
  {
  }

  /** Unmarking inode n. */
  lemma OneGone(b: Image, h: Image, gone: set<nat>, freed: set<nat>, n: nat)
    requires Swept(b, h, gone, freed) && n < MAX_INODES
    ensures Swept(b, h.(used := WithBit(h.used, n, false)), gone + {n}, freed)
  {
    WithBitEffect(h.used, n, false);
    hide Bit, WithBit;
  }

  /** The loop of diritem_remove_sub over a plain file's blocks: it stops at the first missing one. */
  method SweepFile(v: Volume, ghost b: Image, n: nat, ghost gone: set<nat>, ghost freed: set<nat>,
                   ghost owners: set<nat>)
    returns (ghost freed': set<nat>)
    requires v.Valid() && Consistent(b) && Swept(b, v.View(), gone, freed) && FromData(b, owners, n, 0, freed)
    requires n !in gone && Allocated(b, n)
    modifies v.freeMap.buff
    ensures v.Valid() && Swept(b, v.View(), gone, freed')
    ensures forall l :: l in freed' <==> l in freed || AmongFirst(b, n, Leading(b, n, 0, BLOCK_INDEX_MAX), l)
  {
    hide Live, Bit, Marked, InodesSynced, Owned, WithBit, AmongFirst, OwnedBy, FromData, Swept, Leading;
    freed' := freed;
    NoneAmong(b, n);
    var i := 0;
    while i < BLOCK_INDEX_MAX
      invariant 0 <= i <= BLOCK_INDEX_MAX
      invariant v.Valid() && Swept(b, v.View(), gone, freed') && FromData(b, owners, n, i, freed')
      invariant forall j: nat | j < i :: Live(b, n, Data(j)) != 0
      invariant forall l :: l in freed' <==> l in freed || AmongFirst(b, n, i, l)
    {
      SweptKeeps(b, v.View(), gone, freed', owners, n, i);
      SweptAllocated(b, v.View(), gone, freed');
      var lba := IblockGet(v, n, i);
      if lba == 0 {
        break;
      }
      OneFreed(b, v.View(), gone, freed', owners, n, i);
      freed' := freed' + {lba as nat};
      FreeMapSetup(v, lba, false);
      i := i + 1;
    }
    LeadingIs(b, n, 0, i, BLOCK_INDEX_MAX);
  }

  lemma NoneAmong(b: Image, n: nat)
    ensures forall l: nat :: !AmongFirst(b, n, 0, l)
  {
  }

  lemma SweptAllocated(b: Image, h: Image, gone: set<nat>, freed: set<nat>)
    requires Swept(b, h, gone, freed)
    ensures forall m: nat :: Allocated(h, m) <==> Allocated(b, m) && m !in gone
  {
    hide Allocated, Marked;
  }

  function Min(a: nat, b: nat): (r: nat)
    ensures r == if a < b then a else b
  {
    if a < b then a else b
  }

  /** The item's subtree is untouched so far, and the directory that lost its entry is not in it. */
  ghost predicate Ahead(t: Cut, at: seq<seq<u8>>, di: DirItem, owners: set<nat>) {
    && At(t.g, at, di) && at != [] && !Below(t.g, di, t.p)
    && forall m | m in owners :: !Below(t.g, di, m)
  }

  /** In directory n, everything below the first e entries and the first i blocks are given back. */
  ghost predicate Progress(t: Cut, n: nat, e: nat, i: nat, gone0: set<nat>, freed0: set<nat>, gone: set<nat>,
                           freed: set<nat>)
    requires n < |t.g.inodes|
  {
    && (forall m: nat :: m in gone <==> m in gone0 || BelowFirst(t.g, n, e, m))
    && (forall l: nat :: l in freed <==> l in freed0 || AmongFirst(t.b, n, i, l) || FreedFirst(t, n, e, l))
  }

  lemma ProgressStart(t: Cut, n: nat, e: nat, gone: set<nat>, freed: set<nat>)
    requires n < |t.g.inodes| && e <= 2
    ensures Progress(t, n, e, 0, gone, freed, gone, freed)
  {
    NoneAmong(t.b, n);
    hide AmongFirst, Below, Entries, FreedOf;
  }

  lemma ProgressFrom(t: Cut, n: nat, e: nat, i: nat, gone0: set<nat>, freed0: set<nat>, owners: set<nat>,
                     gone: set<nat>, freed: set<nat>)
    requires n < |t.g.inodes| && Progress(t, n, e, i, gone0, freed0, gone, freed)
    requires forall l | l in freed0 :: OwnedBy(t.b, owners, l)
    ensures FromData(t.b, owners + gone, n, i, freed)
    ensures forall l | l in freed :: OwnedBy(t.b, owners + gone + {n}, l)
  {
    hide Live, BelowFirst, Leading;
    forall l | l in freed
      ensures AmongFirst(t.b, n, i, l) || OwnedBy(t.b, owners + gone, l)
      ensures OwnedBy(t.b, owners + gone + {n}, l)
    {
      if AmongFirst(t.b, n, i, l) {
        assert n in owners + gone + {n};
      } else if l !in freed0 {
        var m: nat :| BelowFirst(t.g, n, e, m) && FreedOf(t, m, l);
        assert m in owners + gone && m in owners + gone + {n};
      }
    }
  }

  /** One more entry. */
  lemma ProgressEntry(t: Cut, n: nat, e: nat, i: nat, gone0: set<nat>, freed0: set<nat>,
                      gone: set<nat>, freed: set<nat>, gone1: set<nat>, freed1: set<nat>)
    requires n < |t.g.inodes| && 2 <= e < |Entries(t.g, n)|
    requires Progress(t, n, e, i, gone0, freed0, gone, freed)
    requires forall m: nat :: m in gone1 <==> m in gone || Below(t.g, Entries(t.g, n)[e], m)
    requires forall l: nat :: l in freed1 <==> l in freed || FreedBelow(t, Entries(t.g, n)[e], l)
    ensures Progress(t, n, e + 1, i, gone0, freed0, gone1, freed1)
  {
    hide AmongFirst, Below, Entries, FreedOf;
    forall m: nat
      ensures BelowFirst(t.g, n, e + 1, m) <==> BelowFirst(t.g, n, e, m) || Below(t.g, Entries(t.g, n)[e], m)
    {
    }
    hide BelowFirst;
    forall l: nat
      ensures FreedFirst(t, n, e + 1, l) <==> FreedFirst(t, n, e, l) || FreedBelow(t, Entries(t.g, n)[e], l)
    {
    }
  }

  /** One more block. */
  lemma ProgressBlock(t: Cut, n: nat, e: nat, i: nat, gone0: set<nat>, freed0: set<nat>, gone: set<nat>,
                      freed: set<nat>)
    requires n < |t.g.inodes| && Progress(t, n, e, i, gone0, freed0, gone, freed) && Live(t.b, n, Data(i)) != 0
    ensures Progress(t, n, e, i + 1, gone0, freed0, gone, freed + {Live(t.b, n, Data(i)) as nat})
  {
    NextAmong(t.b, n, i);
    hide Live, AmongFirst, BelowFirst, FreedFirst;
  }

  /** A directory's entry e is ahead when everything before it is done. */
  lemma EntryAhead(t: Cut, at: seq<seq<u8>>, di: DirItem, e: nat, gone0: set<nat>, owners: set<nat>, gone: set<nat>)
    requires CutOk(t) && Ahead(t, at, di, owners) && di.kind == TYPE_DIR && di.inode in t.dirs && gone0 <= owners
    requires 2 <= e < |Entries(t.g, di.inode)|
    requires forall m: nat :: m in gone <==> m in gone0 || BelowFirst(t.g, di.inode, e, m)
    ensures var it := Entries(t.g, di.inode)[e];
            && Ahead(t, at + [CStr(it.name)], it, owners + gone + {di.inode as nat})
            && |at| + 1 < MAX_INODES
  {
    hide CutOk, TreeOk, Entries, CStr, Resolve, Below, Plain, At, Consistent;
    var g, dirs, n := t.g, t.dirs, di.inode;
    CutTree(t);
    EntryPath(g, dirs, at, di, e);
    var it := Entries(g, n)[e];
    var b := at + [CStr(it.name)];
    PathShort(g, dirs, b, it);
    if Below(g, it, t.p) {
      EntryBelow(g, dirs, di, e, t.p);
    }
    NotBelowEntry(g, dirs, at, di, b, it);
    forall m | m in owners + gone + {n as nat}
      ensures !Below(g, it, m)
    {
      if Below(g, it, m) {
        EntryBelow(g, dirs, di, e, m);
        if k :| 2 <= k < e && k < |Entries(g, n)| && Below(g, Entries(g, n)[k], m) {
          TwoEntries(g, dirs, at, di, k, e, m);
        }
      }
    }
  }

  lemma CutTree(t: Cut)
    requires CutOk(t)
    ensures TreeOk(t.g, t.dirs) && forall n | n in t.dirs :: n < |t.g.inodes|
  {
    hide Consistent, OthersKept, SameRefs, DirShape, OneEntryEach, DotsOk;
  }

  /** No inode is below two entries of a directory. */
  lemma TwoEntries(g: Image, dirs: set<nat>, at: seq<seq<u8>>, di: DirItem, k: nat, e: nat, m: nat)
    requires TreeOk(g, dirs) && At(g, at, di) && di.kind == TYPE_DIR && di.inode in dirs
    requires 2 <= k < e < |Entries(g, di.inode)|
    ensures !(Below(g, Entries(g, di.inode)[k], m) && Below(g, Entries(g, di.inode)[e], m))
  {
    assert di.inode < |g.inodes|;
    EntryStep(g, dirs, di.inode, k);
    EntryStep(g, dirs, di.inode, e);
    EntryPath(g, dirs, at, di, k);
    EntryPath(g, dirs, at, di, e);
    hide TreeOk, Entries, CStr, Resolve, Below, Plain, IndexOf, ItemOk, PlainName;
    var es := Entries(g, di.inode);
    var a, b := at + [CStr(es[k].name)], at + [CStr(es[e].name)];
    SnocPrefix(at, CStr(es[k].name), CStr(es[e].name));
    SnocPrefix(at, CStr(es[e].name), CStr(es[k].name));
    if Below(g, es[k], m) && Below(g, es[e], m) {
      BelowBoth(g, dirs, a, es[k], b, es[e], m);
    }
  }

  lemma SnocPrefix<T>(p: seq<T>, x: T, y: T)
    ensures p + [x] <= p + [y] ==> x == y
  {
    assert (p + [x])[|p|] == x && (p + [y])[|p|] == y;
  }

  /** Entry j of block i: one of the directory's, or empty. */
  lemma ItemThere(t: Cut, n: nat, i: nat, j: nat)
    requires CutOk(t) && n in t.dirs && n != t.p && j < PER_BLOCK && Live(t.b, n, Data(i)) != 0
    ensures var it, e := GetItem(Sec(t.b, Live(t.b, n, Data(i))), j), PER_BLOCK * i + j;
            && |Entries(t.g, n)| == t.b.inodes[n].size
            && (if e < t.b.inodes[n].size then it == Entries(t.g, n)[e] && (2 <= e ==> it.kind != TYPE_INVALID)
                else it.kind == TYPE_INVALID)
  {
    hide Live, Sec, GetItem, Entries, CStr, OneEntryEach, DotsOk, DistinctNames, Consistent;
    assert DirShape(t.g, t.dirs, n);
    EntriesAre(t.g, n);
    var e := PER_BLOCK * i + j;
    assert e / PER_BLOCK == i && e % PER_BLOCK == j;
    assert Live(t.b, n, Data(i)) == Live(t.g, n, Data(i));
    assert EntryAt(t.g, n, e) == GetItem(Sec(t.b, Live(t.b, n, Data(i))), j);
  }

  lemma SweptReads(t: Cut, h: Image, gone: set<nat>, freed: set<nat>, owners: set<nat>, n: nat, i: nat)
    requires CutOk(t) && Swept(t.b, h, gone, freed) && FromData(t.b, owners, n, i, freed) && n !in gone
    requires Allocated(t.g, n)
    ensures IndexOwned(h) && Allocated(h, n) && h.disk == t.b.disk && h.inodes == t.b.inodes
    ensures forall j: nat :: Live(h, n, Data(j)) == Live(t.b, n, Data(j))
    ensures n !in owners && Live(t.b, n, Data(i)) != 0 ==> Marked(h, Live(t.b, n, Data(i)))
  {
    hide Live, Marked, Bit, FromData, InodesSynced, TreeOk;
    SweptKeeps(t.b, h, gone, freed, owners, n, i);
    if n !in owners && Live(t.b, n, Data(i)) != 0 {
      NotFreedYet(t.b, owners, n, i, freed);
      OwnedMarked(t.b, n, Data(i));
    }
  }

  lemma ItemOnPath(t: Cut, at: seq<seq<u8>>, di: DirItem, owners: set<nat>)
    requires CutOk(t) && Ahead(t, at, di, owners)
    ensures ItemOk(t.g, t.dirs, di) && di.inode < MAX_INODES && Allocated(t.g, di.inode) && Allocated(t.b, di.inode)
    ensures di.inode != t.p && di.inode as nat !in owners && |at| < MAX_INODES
  {
    hide TreeOk, Consistent, OthersKept, Below, Entries, ItemOk, Bit;
    BelowSelf(t.g, di);
    OnPath(t.g, t.dirs, at);
    PathShort(t.g, t.dirs, at, di);
  }

  /** What a file's sweep has given back. */
  lemma FileBelow(t: Cut, di: DirItem, freed: set<nat>, freed': set<nat>)
    requires di.kind != TYPE_DIR && di.inode as nat !in t.dirs && di.inode < |t.b.inodes|
    requires forall l :: l in freed' <==>
               l in freed || AmongFirst(t.b, di.inode, Leading(t.b, di.inode, 0, BLOCK_INDEX_MAX), l)
    ensures forall m: nat :: Below(t.g, di, m) <==> m == di.inode
    ensures forall l: nat :: l in freed' <==> l in freed || FreedBelow(t, di, l)
  {
    forall m: nat
      ensures Below(t.g, di, m) <==> m == di.inode
    {
      BelowFile(t.g, di, m);
    }
    hide Below, AmongFirst, Leading;
    assert Below(t.g, di, di.inode);
    assert forall l: nat :: FreedOf(t, di.inode, l) ==> FreedBelow(t, di, l);
  }

  /** What a directory's sweep has given back, its own inode included. */
  lemma DirBelow(t: Cut, di: DirItem, gone: set<nat>, freed: set<nat>, gone': set<nat>, freed': set<nat>)
    requires TreeOk(t.g, t.dirs) && di.kind == TYPE_DIR && di.inode as nat in t.dirs && di.inode < |t.b.inodes|
    requires Progress(t, di.inode, |Entries(t.g, di.inode)|,
                      Leading(t.b, di.inode, 0, t.b.inodes[di.inode].size), gone, freed, gone', freed')
    ensures forall m: nat :: m in gone' + {di.inode as nat} <==> m in gone || Below(t.g, di, m)
    ensures forall l: nat :: l in freed' <==> l in freed || FreedBelow(t, di, l)
  {
    var n := di.inode;
    assert n < |t.g.inodes|;
    hide Below, TreeOk, Entries, AmongFirst, Leading, BelowFirst;
    forall m: nat
      ensures Below(t.g, di, m) <==> m == n || BelowFirst(t.g, n, |Entries(t.g, n)|, m)
    {
      BelowDir(t.g, t.dirs, di, m);
    }
    forall l: nat
      ensures FreedBelow(t, di, l) <==> FreedOf(t, n, l) || FreedFirst(t, n, |Entries(t.g, n)|, l)
    {
      assert Below(t.g, di, n);
    }
  }

  /** One call of diritem_remove_sub: for the item at this path, with what was given back before. */
  datatype Level = Level(t: Cut, at: seq<seq<u8>>, di: DirItem, owners: set<nat>, gone: set<nat>, freed: set<nat>)

  ghost predicate LevelOk(x: Level) {
    && CutOk(x.t) && Ahead(x.t, x.at, x.di, x.owners) && x.gone <= x.owners
    && forall l | l in x.freed :: OwnedBy(x.t.b, x.owners, l)
  }

  /** In the call for a directory, its first e entries and its first i blocks are done. */
  ghost predicate Turn(x: Level, h: Image, e: nat, i: nat, gone: set<nat>, freed: set<nat>) {
    && LevelOk(x) && x.di.kind == TYPE_DIR && x.di.inode in x.t.dirs && x.di.inode < |x.t.g.inodes|
    && Swept(x.t.b, h, gone, freed) && Progress(x.t, x.di.inode, e, i, x.gone, x.freed, gone, freed)
  }

  /** The call for entry e. */
  ghost function Child(x: Level, e: nat, gone: set<nat>, freed: set<nat>): Level
    requires x.di.inode < |x.t.g.inodes| && e < |Entries(x.t.g, x.di.inode)|
  {
    var it := Entries(x.t.g, x.di.inode)[e];
    Level(x.t, x.at + [CStr(it.name)], it, x.owners + gone + {x.di.inode as nat}, gone, freed)
  }

  lemma TurnStart(x: Level, h: Image)
    requires LevelOk(x) && x.di.kind == TYPE_DIR && Swept(x.t.b, h, x.gone, x.freed)
    ensures Turn(x, h, 0, 0, x.gone, x.freed)
  {
    ItemOnPath(x.t, x.at, x.di, x.owners);
    assert x.di.inode < |x.t.g.inodes| by {
      hide Consistent, OthersKept, SameRefs, Ahead;
    }
    ProgressStart(x.t, x.di.inode, 0, x.gone, x.freed);
    hide CutOk, Swept, Ahead, OwnedBy, Progress, PlainName;
  }

  lemma TurnShape(x: Level, h: Image, e: nat, i: nat, gone: set<nat>, freed: set<nat>)
    requires Turn(x, h, e, i, gone, freed)
    ensures x.di.inode < |x.t.g.inodes| && x.di.inode < |x.t.b.inodes| && x.di.inode < |h.inodes|
            && x.di.inode < MAX_INODES
    ensures |Entries(x.t.g, x.di.inode)| == x.t.b.inodes[x.di.inode].size == h.inodes[x.di.inode].size
    ensures h.inodes[x.di.inode].size / PER_BLOCK < BLOCK_INDEX_MAX && h.inodes[x.di.inode].size < BLOCK_INDEX_MAX
  {
    hide Progress;
    ItemOnPath(x.t, x.at, x.di, x.owners);
    hide Ahead;
    ItemsCovered(x.t, x.di.inode, 0);
    DirSmall(x.t.g, x.t.dirs, x.di.inode);
    hide TreeOk, Consistent, OthersKept, SameRefs, Entries;
  }

  /** Entry j of the block that has been read. */
  lemma TurnItem(x: Level, h: Image, e: nat, i: nat, j: nat, gone: set<nat>, freed: set<nat>)
    requires Turn(x, h, e, i, gone, freed) && j < PER_BLOCK && Live(x.t.b, x.di.inode, Data(i)) != 0
    requires x.di.inode < |x.t.g.inodes|
    ensures var it, k := GetItem(Sec(x.t.b, Live(x.t.b, x.di.inode, Data(i))), j), PER_BLOCK * i + j;
            if k < |Entries(x.t.g, x.di.inode)| then
              it == Entries(x.t.g, x.di.inode)[k] && (2 <= k ==> it.kind != TYPE_INVALID)
            else it.kind == TYPE_INVALID
  {
    hide Progress, Swept;
    ItemOnPath(x.t, x.at, x.di, x.owners);
    hide Ahead;
    ItemThere(x.t, x.di.inode, i, j);
  }

  lemma TurnChild(x: Level, h: Image, e: nat, i: nat, gone: set<nat>, freed: set<nat>)
    requires Turn(x, h, e, i, gone, freed) && x.di.inode < |x.t.g.inodes| && 2 <= e < |Entries(x.t.g, x.di.inode)|
    ensures LevelOk(Child(x, e, gone, freed)) && |x.at| + 1 < MAX_INODES
  {
    hide CutOk, Swept, Ahead, OwnedBy, Below, Entries, CStr, FreedFirst, AmongFirst, BelowFirst;
    EntryAhead(x.t, x.at, x.di, e, x.gone, x.owners, gone);
    ProgressFrom(x.t, x.di.inode, e, i, x.gone, x.freed, x.owners, gone, freed);
  }

  lemma TurnEntry(x: Level, h: Image, h': Image, e: nat, i: nat,
                  gone: set<nat>, freed: set<nat>, gone': set<nat>, freed': set<nat>)
    requires Turn(x, h, e, i, gone, freed) && x.di.inode < |x.t.g.inodes| && 2 <= e < |Entries(x.t.g, x.di.inode)|
    requires Swept(x.t.b, h', gone', freed')
    requires forall m: nat :: m in gone' <==> m in gone || Below(x.t.g, Entries(x.t.g, x.di.inode)[e], m)
    requires forall l: nat :: l in freed' <==> l in freed || FreedBelow(x.t, Entries(x.t.g, x.di.inode)[e], l)
    ensures Turn(x, h', e + 1, i, gone', freed')
  {
    hide LevelOk, Swept, Progress, Below, FreedBelow, Entries;
    ProgressEntry(x.t, x.di.inode, e, i, x.gone, x.freed, gone, freed, gone', freed');
  }

  /** "." and ".." are passed over. */
  lemma TurnDots(x: Level, h: Image, e: nat, gone: set<nat>, freed: set<nat>)
    requires Turn(x, h, e, 0, gone, freed) && e < 2
    ensures Turn(x, h, e + 1, 0, gone, freed)
  {
    hide LevelOk, Swept, AmongFirst, Below, Entries, FreedOf;
  }

  /** What the loop over the blocks may read. */
  lemma TurnReads(x: Level, h: Image, e: nat, i: nat, gone: set<nat>, freed: set<nat>)
    requires Turn(x, h, e, i, gone, freed)
    ensures IndexOwned(h) && Allocated(h, x.di.inode) && h.disk == x.t.b.disk
    ensures forall j: nat :: Live(h, x.di.inode, Data(j)) == Live(x.t.b, x.di.inode, Data(j))
    ensures Live(x.t.b, x.di.inode, Data(i)) != 0 ==> Marked(h, Live(x.t.b, x.di.inode, Data(i)))
    ensures x.di.inode as nat !in x.owners + gone
  {
    hide Live, Marked, Bit, OwnedBy, FreedFirst, AmongFirst, BelowFirst, IndexOwned, CutOk, Swept, Ahead, FromData;
    var n := x.di.inode;
    ItemOnPath(x.t, x.at, x.di, x.owners);
    OwnInodeStays(x.t, x.at, x.di, e, x.gone, x.owners, gone);
    ProgressFrom(x.t, n, e, i, x.gone, x.freed, x.owners, gone, freed);
    SweptReads(x.t, h, gone, freed, x.owners + gone, n, i);
  }

  /** A directory block is given back. */
  lemma TurnBlock(x: Level, h: Image, e: nat, i: nat, gone: set<nat>, freed: set<nat>)
    requires Turn(x, h, e, i, gone, freed) && Live(x.t.b, x.di.inode, Data(i)) != 0
    ensures var l := Live(x.t.b, x.di.inode, Data(i));
            Shape(h) && InPool(h, l) && Turn(x, Mark(h, l, false), e, i + 1, gone, freed + {l as nat})
  {
    var n := x.di.inode;
    CutShape(x.t);
    hide Live, Marked, Bit, WithBit, OwnedBy, FreedFirst, AmongFirst, BelowFirst, CutOk, Ahead, FromData, Swept,
         Progress, Shape, InPool;
    ProgressFrom(x.t, n, e, i, x.gone, x.freed, x.owners, gone, freed);
    OneFreed(x.t.b, h, gone, freed, x.owners + gone, n, i);
    ProgressBlock(x.t, n, e, i, x.gone, x.freed, gone, freed);
  }

  lemma CutShape(t: Cut)
    requires CutOk(t)
    ensures Shape(t.b) && Owned(t.b)
  {
    hide Owned, InodesSynced, TreeOk, OthersKept, SameRefs;
  }

  /** Where the loop over the blocks stops, all entries and all blocks are done. */
  lemma TurnEnd(x: Level, h: Image, i: nat, gone: set<nat>, freed: set<nat>)
    requires x.di.inode < |x.t.b.inodes| && var size := x.t.b.inodes[x.di.inode].size;
             && Turn(x, h, Min(size, PER_BLOCK * i), i, gone, freed)
             && i <= size && (i == size || Live(x.t.b, x.di.inode, Data(i)) == 0)
    requires forall j: nat | j < i :: Live(x.t.b, x.di.inode, Data(j)) != 0
    ensures forall m: nat :: m in gone + {x.di.inode as nat} <==> m in x.gone || Below(x.t.g, x.di, m)
    ensures forall l: nat :: l in freed <==> l in x.freed || FreedBelow(x.t, x.di, l)
  {
    hide CutOk, Ahead, Swept, Progress, Entries, Live, Leading, Below, FreedBelow, OwnedBy, TreeOk, ItemOk, Allocated;
    var n := x.di.inode;
    ItemOnPath(x.t, x.at, x.di, x.owners);
    ItemsCovered(x.t, n, i);
    LeadingIs(x.t.b, n, 0, i, x.t.b.inodes[n].size);
    CutTree(x.t);
    DirBelow(x.t, x.di, x.gone, x.freed, gone, freed);
  }

  /**
    diritem_remove_sub: everything below the item is given back, and nothing else. The recursion ends
    because no path in the tree is longer than there are inodes.
   */
  method RemoveSub(v: Volume, ghost x: Level, di: DirItem) returns (ghost gone: set<nat>, ghost freed: set<nat>)
    requires v.Valid() && LevelOk(x) && di == x.di && Swept(x.t.b, v.View(), x.gone, x.freed)
    modifies v.freeMap.buff, v.usedMap.buff
    ensures v.Valid() && Swept(x.t.b, v.View(), gone, freed)
    ensures forall m: nat :: m in gone <==> m in x.gone || Below(x.t.g, x.di, m)
    ensures forall l: nat :: l in freed <==> l in x.freed || FreedBelow(x.t, x.di, l)
    decreases MAX_INODES - |x.at|, 3
  {
    hide *;
    LevelItem(x);
    var n := di.inode;
    if di.kind == TYPE_FILE {
      gone, freed := SweepOne(v, x, n);
    } else {
      gone, freed := SweepDir(v, x, n);
    }
    OneGone(x.t.b, v.View(), gone, freed, n);
    gone := gone + {n as nat};
    DropInode(v, n);
  }

  /** inode_map_setup(n, false) */
  method DropInode(v: Volume, n: nat)
    requires v.Valid() && n < MAX_INODES
    modifies v.usedMap.buff
    ensures v.Valid() && v.View() == old(v.View()).(used := WithBit(old(v.View()).used, n, false))
  {
    v.usedMap.Clear(n);
  }

  /** __fs_inodes[n].size_ */
  method SizeOf(v: Volume, n: nat) returns (size: u32)
    requires v.Valid() && n < MAX_INODES
    ensures n < |v.View().inodes| && size == v.View().inodes[n].size
  {
    size := v.inodes[n].size;
  }

  lemma LevelItem(x: Level)
    requires LevelOk(x)
    ensures x.di.inode < MAX_INODES && |x.at| < MAX_INODES && (x.di.kind == TYPE_FILE || x.di.kind == TYPE_DIR)
  {
    hide CutOk, Ahead, OwnedBy;
    ItemOnPath(x.t, x.at, x.di, x.owners);
  }

  /** The branch for a plain file. */
  method SweepOne(v: Volume, ghost x: Level, n: nat) returns (ghost gone: set<nat>, ghost freed: set<nat>)
    requires v.Valid() && LevelOk(x) && n == x.di.inode && x.di.kind == TYPE_FILE
            && Swept(x.t.b, v.View(), x.gone, x.freed)
    modifies v.freeMap.buff
    ensures v.Valid() && Swept(x.t.b, v.View(), gone, freed)
    ensures forall m: nat :: m in gone + {n} <==> m in x.gone || Below(x.t.g, x.di, m)
    ensures forall l: nat :: l in freed <==> l in x.freed || FreedBelow(x.t, x.di, l)
  {
    hide LevelOk, Swept, Below, FreedBelow, OwnedBy, AmongFirst, Leading, Bit, Allocated, Consistent, FromData, Live;
    OneReady(x);
    gone := x.gone;
    freed := SweepFile(v, x.t.b, n, x.gone, x.freed, x.owners);
    FileBelow(x.t, x.di, x.freed, freed);
  }

  lemma OneReady(x: Level)
    requires LevelOk(x)
    ensures Consistent(x.t.b) && x.di.inode < |x.t.b.inodes| && FromData(x.t.b, x.owners, x.di.inode, 0, x.freed)
    ensures Allocated(x.t.b, x.di.inode) && x.di.inode as nat !in x.gone
    ensures x.di.inode as nat in x.t.dirs <==> x.di.kind == TYPE_DIR
  {
    hide CutOk, Ahead, OwnedBy, AmongFirst, Consistent, Allocated, PlainName, CStr;
    ItemOnPath(x.t, x.at, x.di, x.owners);
    CutConsistent(x.t);
  }

  lemma CutConsistent(t: Cut)
    requires CutOk(t)
    ensures Consistent(t.b) && |t.b.inodes| == MAX_INODES
  {
    hide Owned, InodesSynced, TreeOk, OthersKept, SameRefs;
  }

  /** The branch for a directory: block by block, up to the first missing one. */
  method SweepDir(v: Volume, ghost x: Level, n: nat) returns (ghost gone: set<nat>, ghost freed: set<nat>)
    requires v.Valid() && LevelOk(x) && n == x.di.inode && x.di.kind == TYPE_DIR
            && Swept(x.t.b, v.View(), x.gone, x.freed)
    modifies v.freeMap.buff, v.usedMap.buff
    ensures v.Valid() && Swept(x.t.b, v.View(), gone, freed)
    ensures forall m: nat :: m in gone + {n} <==> m in x.gone || Below(x.t.g, x.di, m)
    ensures forall l: nat :: l in freed <==> l in x.freed || FreedBelow(x.t, x.di, l)
    decreases MAX_INODES - |x.at|, 2
  {
    hide LevelOk, Turn, Swept, Below, FreedBelow, Live, Marked, Allocated, Bit, WithBit, Entries, GetItem, Sec, Shape,
         IndexOwned, InPool, CStr, Child, Mark;
    TurnStart(x, v.View());
    TurnShape(x, v.View(), 0, 0, x.gone, x.freed);
    var size := SizeOf(v, n);
    gone, freed := x.gone, x.freed;
    var i := 0;
    while i < size
      invariant 0 <= i <= size && v.Valid()
      invariant Turn(x, v.View(), Min(size, PER_BLOCK * i), i, gone, freed)
      invariant forall j: nat | j < i :: Live(x.t.b, n, Data(j)) != 0
    {
      TurnReads(x, v.View(), Min(size, PER_BLOCK * i), i, gone, freed);
      var lba := IblockGet(v, n, i);
      if lba == 0 {
        break;
      }
      var db := FreeRead(v, lba);
      SameSectors(x.t.b, v.View());
      gone, freed := SweepItems(v, x, i, db, gone, freed);
      TurnBlock(x, v.View(), Min(size, PER_BLOCK * (i + 1)), i, gone, freed);
      freed := freed + {lba as nat};
      FreeMapSetup(v, lba, false);
      i := i + 1;
    }
    TurnEnd(x, v.View(), i, gone, freed);
    TurnSwept(x, v.View(), Min(size, PER_BLOCK * i), i, gone, freed);
  }

  lemma TurnSwept(x: Level, h: Image, e: nat, i: nat, gone: set<nat>, freed: set<nat>)
    requires Turn(x, h, e, i, gone, freed)
    ensures LevelOk(x) && Swept(x.t.b, h, gone, freed)
  {
    hide LevelOk, Swept, Progress;
  }

  /** The entries of one block, up to the first empty one. */
  method SweepItems(v: Volume, ghost x: Level, i: nat, db: Sector, ghost gone0: set<nat>, ghost freed0: set<nat>)
    returns (ghost gone: set<nat>, ghost freed: set<nat>)
    requires v.Valid() && x.di.inode < |x.t.b.inodes|
    requires Live(x.t.b, x.di.inode, Data(i)) != 0 && db == Sec(x.t.b, Live(x.t.b, x.di.inode, Data(i)))
    requires Turn(x, v.View(), Min(x.t.b.inodes[x.di.inode].size, PER_BLOCK * i), i, gone0, freed0)
    modifies v.freeMap.buff, v.usedMap.buff
    ensures v.Valid() && Turn(x, v.View(), Min(x.t.b.inodes[x.di.inode].size, PER_BLOCK * (i + 1)), i, gone, freed)
    decreases MAX_INODES - |x.at|, 1
  {
    hide LevelOk, Turn, Swept, Below, FreedBelow, Live, Marked, Allocated, Bit, WithBit, Entries, GetItem, Sec, Shape,
         IndexOwned, InPool, CStr, Child, Mark;
    ghost var size: nat := x.t.b.inodes[x.di.inode].size;
    TurnShape(x, v.View(), Min(size, PER_BLOCK * i), i, gone0, freed0);
    gone, freed := gone0, freed0;
    var j := 0;
    while j < PER_BLOCK
      invariant 0 <= j <= PER_BLOCK && v.Valid()
      invariant Turn(x, v.View(), Min(size, PER_BLOCK * i + j), i, gone, freed)
    {
      TurnItem(x, v.View(), Min(size, PER_BLOCK * i + j), i, j, gone, freed);
      if i == 0 && j < 2 {
        if j < size {
          TurnDots(x, v.View(), j, gone, freed);
        }
      } else {
        var it := GetItem(db, j);
        if it.kind == TYPE_INVALID {
          break;
        }
        gone, freed := SweepItem(v, x, PER_BLOCK * i + j, i, it, gone, freed);
      }
      j := j + 1;
    }
  }

  /** One entry: the recursive call. */
  method SweepItem(v: Volume, ghost x: Level, ghost e: nat, ghost i: nat, it: DirItem, ghost gone0: set<nat>,
                   ghost freed0: set<nat>)
    returns (ghost gone: set<nat>, ghost freed: set<nat>)
    requires v.Valid() && Turn(x, v.View(), e, i, gone0, freed0)
    requires x.di.inode < |x.t.g.inodes| && 2 <= e < |Entries(x.t.g, x.di.inode)| && it == Entries(x.t.g, x.di.inode)[e]
    modifies v.freeMap.buff, v.usedMap.buff
    ensures v.Valid() && Turn(x, v.View(), e + 1, i, gone, freed)
    decreases MAX_INODES - |x.at|, 0
  {
    ghost var h := v.View();
    TurnSwept(x, h, e, i, gone0, freed0);
    TurnChild(x, h, e, i, gone0, freed0);
    ghost var y := Child(x, e, gone0, freed0);
    assert y.di == it && y.t == x.t && y.gone == gone0 && y.freed == freed0 && |y.at| == |x.at| + 1;
    hide LevelOk, Turn, Swept, Below, FreedBelow, Live, Marked, Allocated, Bit, WithBit, Entries, GetItem, Sec, Shape,
         IndexOwned, InPool, CStr, Child, Mark;
    gone, freed := RemoveSub(v, y, it);
    TurnEntry(x, h, v.View(), e, i, gone0, freed0, gone, freed);
  }

  /** Where the loop stops, no entry is left. */
  lemma ItemsCovered(t: Cut, n: nat, i: nat)
    requires CutOk(t) && n in t.dirs && n != t.p
    ensures n < |t.b.inodes| && |Entries(t.g, n)| == t.b.inodes[n].size
    ensures Live(t.b, n, Data(i)) == 0 || t.b.inodes[n].size <= i ==> t.b.inodes[n].size <= PER_BLOCK * i
  {
    assert DirShape(t.g, t.dirs, n);
    EntriesAre(t.g, n);
    hide Live, Entries, CStr, OneEntryEach, DotsOk, DistinctNames, Owned, InodesSynced;
    assert Live(t.b, n, Data(i)) == Live(t.g, n, Data(i));
  }

  lemma OwnInodeStays(t: Cut, at: seq<seq<u8>>, di: DirItem, e: nat, gone0: set<nat>, owners: set<nat>, gone: set<nat>)
    requires CutOk(t) && Ahead(t, at, di, owners) && di.kind == TYPE_DIR && di.inode in t.dirs && gone0 <= owners
    requires di.inode < |t.g.inodes| && forall m: nat :: m in gone <==> m in gone0 || BelowFirst(t.g, di.inode, e, m)
    ensures di.inode as nat !in gone
  {
    hide Consistent, OthersKept, SameRefs, TreeOk, Entries, CStr, Resolve, Below, Plain;
    BelowSelf(t.g, di);
    var es := Entries(t.g, di.inode);
    if k :| 2 <= k < e && k < |es| && Below(t.g, es[k], di.inode) {
      EntryPath(t.g, t.dirs, at, di, k);
      NotBelowEntry(t.g, t.dirs, at, di, at + [CStr(es[k].name)], es[k]);
      assert false;
    }
  }
}
