/** kern/fs/dir.c, diritem_remove: taking an entry and everything below it out of the file system. */
module Remove {
  import opened Bytes
  import opened Bitmaps
  import opened CStrings
  import opened Dirs
  import opened Free
  import opened Images
  import opened Inodes
  import opened Layout
  import opened Ownership
  import opened Sweep
  import opened Tree
  import opened Volumes

  /** What dirblock_set writes when it is given no item. */
  const ZERO_ITEM := DirItem(TYPE_INVALID, 0, [0, 0, 0, 0, 0, 0, 0, 0, 0, 0, 0, 0, 0, 0, 0, 0])

  /** Zeroing entry k and shrinking size_: the last entry drops out of sight, whichever entry was removed. */
  function Zeroed(items: seq<DirItem>, k: nat): seq<DirItem>
    requires k < |items|
  {
    items[k := ZERO_ITEM][..|items| - 1]
  }

  lemma ZeroedEntries(g: Image, h: Image, p: nat, k: nat)
    requires p < |g.inodes| && p < |h.inodes| && DirOk(g, p) && k < g.inodes[p].size
    requires h.inodes[p].size == g.inodes[p].size - 1
    requires var b := Data(k / PER_BLOCK);
             && Live(h, p, b) == Live(g, p, b)
             && Sec(h, Live(h, p, b)) == PutItem(Sec(g, Live(g, p, b)), k % PER_BLOCK, ZERO_ITEM)
             && forall j: nat | j != k / PER_BLOCK && Live(g, p, Data(j)) != 0 ::
                  && Live(h, p, Data(j)) == Live(g, p, Data(j))
                  && Sec(h, Live(h, p, Data(j))) == Sec(g, Live(g, p, Data(j)))
    ensures DirOk(h, p) && |Entries(g, p)| == g.inodes[p].size
    ensures Entries(h, p) == Zeroed(Entries(g, p), k)
  {
    hide Live, Sec, GetItem, PutItem;
    EntriesAre(g, p);
    assert DirOk(h, p) by {
      forall i: nat | PER_BLOCK * i < h.inodes[p].size
        ensures Live(h, p, Data(i)) != 0
      {
        assert Live(g, p, Data(i)) != 0;
      }
    }
    EntriesAre(h, p);
    forall e: nat | e < h.inodes[p].size
      ensures EntryAt(h, p, e) == if e == k then ZERO_ITEM else EntryAt(g, p, e)
    {
      var i := e / PER_BLOCK;
      assert Live(g, p, Data(i)) != 0;
      if i == k / PER_BLOCK {
        PutGetItem(Sec(g, Live(g, p, Data(i))), k % PER_BLOCK, ZERO_ITEM, e % PER_BLOCK);
      }
    }
  }

  /** Blanking the last entry leaves nothing behind the others. */
  lemma ZeroedBlank(g: Image, h: Image, p: nat, k: nat)
    requires p < |g.inodes| && p < |h.inodes| && Blank(g, p) && k == g.inodes[p].size - 1 == h.inodes[p].size
    requires forall s: Slot :: Live(h, p, s) == Live(g, p, s)
    requires var b := Data(k / PER_BLOCK);
             && Sec(h, Live(g, p, b)) == PutItem(Sec(g, Live(g, p, b)), k % PER_BLOCK, ZERO_ITEM)
             && forall j: nat | j != k / PER_BLOCK && Live(g, p, Data(j)) != 0 ::
                  Sec(h, Live(h, p, Data(j))) == Sec(g, Live(g, p, Data(j)))
    ensures Blank(h, p)
  {
    hide Live, Sec, GetItem, PutItem;
    forall e: nat | k <= e && Live(h, p, Data(e / PER_BLOCK)) != 0
      ensures EntryAt(h, p, e).kind == TYPE_INVALID
    {
      if e / PER_BLOCK == k / PER_BLOCK {
        PutGetItem(Sec(g, Live(g, p, Data(k / PER_BLOCK))), k % PER_BLOCK, ZERO_ITEM, e % PER_BLOCK);
      }
      assert k < e ==> EntryAt(g, p, e).kind == TYPE_INVALID;
    }
  }

  /** Every name but c that could be found still can. */
  ghost predicate OthersFound(items: seq<DirItem>, rest: seq<DirItem>, removed: seq<u8>) {
    forall c | c != removed && IndexOf(items, c) != -1 :: IndexOf(rest, c) != -1
  }

  lemma LastRemoved(items: seq<DirItem>)
    requires items != []
    ensures OthersFound(items, Zeroed(items, |items| - 1), CStr(items[|items| - 1].name))
  {
    hide CStr;
    var rest := Zeroed(items, |items| - 1);
    forall c | c != CStr(items[|items| - 1].name) && IndexOf(items, c) != -1
      ensures IndexOf(rest, c) != -1
    {
      var i := IndexOf(items, c);
      assert rest[i] == items[i];
    }
  }

  lemma ZeroItemNameless()
    ensures CStr(ZERO_ITEM.name) == []
  {
    assert ZERO_ITEM.name[0] == 0;
  }

  lemma MiddleRemoved(items: seq<DirItem>, k: nat)
    requires k < |items| - 1 && DistinctNames(items)
    ensures IndexOf(items, CStr(items[|items| - 1].name)) == |items| - 1
    ensures IndexOf(Zeroed(items, k), CStr(items[|items| - 1].name)) == -1
  {
    LastIndex(items);
    NotInZeroed(items, k);
  }

  lemma LastIndex(items: seq<DirItem>)
    requires items != [] && DistinctNames(items)
    ensures IndexOf(items, CStr(items[|items| - 1].name)) == |items| - 1
  {
    hide CStr, IndexOf;
    var last := |items| - 1;
    assert forall e | 0 <= e < last :: CStr(items[e].name) != CStr(items[last].name);
    hide DistinctNames;
  }

  lemma NotInZeroed(items: seq<DirItem>, k: nat)
    requires k < |items| - 1 && DistinctNames(items)
    ensures IndexOf(Zeroed(items, k), CStr(items[|items| - 1].name)) == -1
  {
    hide CStr, IndexOf;
    var rest, last := Zeroed(items, k), |items| - 1;
    var c := CStr(items[last].name);
    forall e | 0 <= e < |rest|
      ensures CStr(rest[e].name) != c
    {
      ZeroedName(items, k, e);
      assert CStr(items[e].name) != CStr(items[last].name);
    }
    hide Zeroed;
    FirstIsIndex(rest, c, -1);
  }

  lemma ZeroedName(items: seq<DirItem>, k: nat, e: nat)
    requires k < |items| && e < |items| - 1
    ensures CStr(Zeroed(items, k)[e].name) == if e == k then [] else CStr(items[e].name)
  {
    ZeroItemNameless();
    hide CStr;
  }

  /**
    The source shrinks size_ without moving the last entry into the hole. With distinct names,
    every other name is still found exactly when the removed entry was the last one.
   */
  lemma OthersFoundIffLast(items: seq<DirItem>, k: nat)
    requires k < |items| && DistinctNames(items)
    ensures OthersFound(items, Zeroed(items, k), CStr(items[k].name)) <==> k == |items| - 1
  {
    hide CStr, IndexOf, Zeroed;
    if k == |items| - 1 {
      LastRemoved(items);
    } else {
      MiddleRemoved(items, k);
      assert CStr(items[|items| - 1].name) != CStr(items[k].name);
    }
  }

  /** The blocks that the removal of the item gives back: data blocks of inodes below it. */
  ghost predicate GivenBack(g: Image, dirs: set<nat>, di: DirItem, l: nat) {
    FreedBelow(Cut(g, g, dirs, 0), di, l)
  }

  /**
    Everything below the item is gone, and nothing else: the inodes below it are free, blocks are given
    back exactly as GivenBack says, and all other inodes keep their blocks. Only directory p changed.
   */
  ghost predicate SubtreeGone(g: Image, h: Image, dirs: set<nat>, p: nat, di: DirItem) {
    && Consistent(h) && FreeSynced(h) && |h.inodes| == |g.inodes|
    && (forall m: nat :: Allocated(h, m) <==> Allocated(g, m) && !Below(g, di, m))
    && (forall l: nat :: Marked(h, l) <==> Marked(g, l) && !GivenBack(g, dirs, di, l))
    && (forall m: nat, s: Slot | !Below(g, di, m) :: Live(h, m, s) == Live(g, m, s))
    && (forall m: nat | m < |g.inodes| && m != p :: h.inodes[m] == g.inodes[m])
    && (forall m: nat, s: Slot | !Below(g, di, m) && m != p && s.Data? && Live(g, m, s) != 0 ::
          Sec(h, Live(g, m, s)) == Sec(g, Live(g, m, s)))
  }

  /** The steps after the parent's block and inode are written. */
  ghost predicate TailSteps(b: Image, h: Image, gone: set<nat>, freed: set<nat>)
    requires Shape(b)
  {
    && Shape(h) && |h.disk| == |b.disk| && h.inodes == b.inodes
    && h.disk[BASE_MAP_INODES] == h.used
    && (forall m: nat :: Allocated(h, m) <==> Allocated(b, m) && m !in gone)
    && (forall l: nat :: Marked(h, l) <==> Marked(b, l) && l !in freed)
    && (forall l: nat | BASE_INODES <= l < BASE_MAP_FREE :: h.disk[l] == b.disk[l])
    && (forall l: nat | LBA_FREE <= l :: Sec(h, l) == Sec(b, l))
  }

  lemma TailRefs(b: Image, h: Image, gone: set<nat>, freed: set<nat>)
    requires Shape(b) && Owned(b) && TailSteps(b, h, gone, freed)
    ensures forall m: nat, s: Slot :: Live(h, m, s) == if m in gone then 0 else Live(b, m, s)
  {
    hide Bit, GetWord;
    forall m: nat, s: Slot
      ensures Live(h, m, s) == if m in gone then 0 else Live(b, m, s)
    {
      if m !in gone && Allocated(b, m) {
        forall u: Slot | IndexRef(b, m, u) != 0
          ensures Sec(h, IndexRef(b, m, u)) == Sec(b, IndexRef(b, m, u))
        {
          assert Live(b, m, u) == IndexRef(b, m, u);
          assert Marked(b, Live(b, m, u));
        }
        RefFrame(b, h, m, s);
      }
    }
  }

  lemma TailKeeps(b: Image, h: Image, gone: set<nat>, freed: set<nat>)
    requires Consistent(b) && TailSteps(b, h, gone, freed)
    requires forall l | l in freed :: OwnedBy(b, gone, l)
    ensures Consistent(h)
    ensures forall m: nat, s: Slot :: Live(h, m, s) == if m in gone then 0 else Live(b, m, s)
    ensures forall m: nat, s: Slot | Live(b, m, s) != 0 :: Sec(h, Live(b, m, s)) == Sec(b, Live(b, m, s))
  {
    hide Bit, Live, Marked, Sec, DecodeInode;
    TailRefs(b, h, gone, freed);
    forall m: nat, s: Slot | Live(b, m, s) != 0
      ensures Sec(h, Live(b, m, s)) == Sec(b, Live(b, m, s))
    {
      assert Marked(b, Live(b, m, s));
      MarkedInPool(b, Live(b, m, s));
    }
    forall m: nat | m < MAX_INODES && Allocated(h, m)
      ensures OnDisk(h, m)
    {
      assert Allocated(b, m) && OnDisk(b, m);
    }
  }

  /** The head of diritem_remove: the entry is zeroed on disk, size_ shrinks, the inode is written. */
  method ZeroEntry(v: Volume, p: nat, k: nat)
    requires v.Valid() && Consistent(v.View()) && Allocated(v.View(), p) && DirOk(v.View(), p)
    requires k < v.View().inodes[p].size
    modifies v.disk, v.inodes
    ensures v.Valid() && Consistent(v.View()) && OthersKept(old(v.View()), v.View(), p)
    ensures v.View().used == old(v.View()).used && v.View().free == old(v.View()).free
    ensures SameRefs(old(v.View()), v.View())
    ensures DirOk(v.View(), p) && k < |Entries(old(v.View()), p)|
    ensures Entries(v.View(), p) == Zeroed(Entries(old(v.View()), p), k)
    ensures Blank(old(v.View()), p) && k == old(v.View()).inodes[p].size - 1 ==> Blank(v.View(), p)
  {
    hide Live, Marked, Sec, Bit, EncodeInode, Owned, InodesSynced, PutItem, Zeroed, OthersKept, Entries, Blank;
    ghost var g := v.View();
    assert Live(g, p, Data(k / PER_BLOCK)) != 0;
    if BLOCK_INDEX_MAX <= k / PER_BLOCK {
      NoRefPastEnd(g, p, k / PER_BLOCK);
    }
    var lba, db := FetchBlock(v, p, k / PER_BLOCK);
    var x := PutItem(db, k % PER_BLOCK, ZERO_ITEM);
    PokedBlock(g, p, k / PER_BLOCK, x);
    FreeWrite(v, lba, x);
    ghost var g1 := v.View();
    v.inodes[p] := v.inodes[p].(size := v.inodes[p].size - 1);
    InodeWrite(v, p);
    ghost var g2 := v.View();
    assert g2 == Flush(SetSize(g1, p, g1.inodes[p].size - 1), p);
    SizedAndFlushed(g1, p, g1.inodes[p].size - 1);
    MetaStepKeeps(g1, g2, p);
    OthersKeptTrans(g, g1, g2, p);
    PokeElsewhereSame(g, g1, g2, p, k, lba, x);
    ZeroedEntries(g, g2, p, k);
    if Blank(g, p) && k == g.inodes[p].size - 1 {
      ZeroedBlank(g, g2, p, k);
    }
  }

  lemma PokeElsewhereSame(g: Image, g1: Image, g2: Image, p: nat, k: nat, lba: u32, x: Sector)
    requires Shape(g) && Owned(g) && lba < |g.disk| && g1 == Poke(g, lba, x)
    requires lba == Live(g, p, Data(k / PER_BLOCK)) != 0
    requires SameRefs(g1, g2)
    ensures SameRefs(g, g2)
  {
    hide Live;
    PokeElsewhere(g, lba, x);
  }

  /** The two flushes at the end. */
  lemma TailIsTail(b: Image, h3: Image, h4: Image, h: Image, gone: set<nat>, freed: set<nat>)
    requires Shape(b) && Swept(b, h3, gone, freed)
    requires Shape(h4) && |h4.disk| == |h3.disk| && h4 == h3.(disk := h4.disk)
    requires forall l: nat :: l < BASE_MAP_FREE || LBA_FREE <= l ==> Sec(h4, l) == Sec(h3, l)
    requires h == Poke(h4, BASE_MAP_INODES, h4.used)
    ensures TailSteps(b, h, gone, freed)
    ensures FreeSynced(h4) ==> FreeSynced(h)
  {
    hide Bit;
    assert forall l: nat :: Marked(h, l) == Marked(h3, l);
    forall l: nat | LBA_FREE <= l
      ensures Sec(h, l) == Sec(b, l)
    {
      assert Sec(h4, l) == Sec(h3, l);
    }
    forall l: nat | BASE_INODES <= l < BASE_MAP_FREE
      ensures h.disk[l] == b.disk[l]
    {
      assert Sec(h4, l) == Sec(h3, l);
    }
  }

  lemma SameBack(g: Image, b: Image, dirs: set<nat>, p: nat, di: DirItem)
    requires SameRefs(g, b) && |b.inodes| == |g.inodes| && !Below(g, di, p)
    requires forall m: nat | m < |g.inodes| && m != p :: b.inodes[m] == g.inodes[m]
    ensures forall l: nat :: FreedBelow(Cut(g, b, dirs, p), di, l) <==> GivenBack(g, dirs, di, l)
  {
    hide Live, Below, Leading, AmongFirst;
    forall m: nat, l: nat | Below(g, di, m)
      ensures FreedOf(Cut(g, b, dirs, p), m, l) <==> FreedOf(Cut(g, g, dirs, 0), m, l)
    {
      if m < |g.inodes| {
        var limit := if m in dirs then g.inodes[m].size as nat else BLOCK_INDEX_MAX;
        SameLeading(g, b, m, 0, limit);
        SameAmong(g, b, m, Leading(g, m, 0, limit), l);
      }
    }
    hide FreedOf;
  }

  lemma {:induction false} SameLeading(g: Image, b: Image, m: nat, i: nat, limit: nat)
    requires SameRefs(g, b)
    ensures Leading(b, m, i, limit) == Leading(g, m, i, limit)
    decreases limit - i
  {
    hide Live;
    if i < limit {
      SameLeading(g, b, m, i + 1, limit);
    }
  }

  lemma SameAmong(g: Image, b: Image, m: nat, i: nat, l: nat)
    requires SameRefs(g, b)
    ensures AmongFirst(b, m, i, l) <==> AmongFirst(g, m, i, l)
  {
    hide Live;
    assert forall j: nat :: Live(b, m, Data(j)) == Live(g, m, Data(j));
  }

  /** What was given back came from inodes below the item. */
  lemma BackOwned(t: Cut, di: DirItem, gone: set<nat>, freed: set<nat>)
    requires forall m: nat :: m in gone <==> Below(t.g, di, m)
    requires forall l: nat :: l in freed <==> FreedBelow(t, di, l)
    ensures forall l | l in freed :: OwnedBy(t.b, gone, l)
  {
    hide Live, Below, Leading;
  }

  lemma SubtreeIsGone(g: Image, b: Image, h: Image, dirs: set<nat>, p: nat, di: DirItem, gone: set<nat>,
                      freed: set<nat>)
    requires Consistent(g) && Consistent(b) && OthersKept(g, b, p) && SameRefs(g, b) && b.used == g.used
            && b.free == g.free
    requires !Below(g, di, p)
    requires TailSteps(b, h, gone, freed) && FreeSynced(h)
    requires forall m: nat :: m in gone <==> Below(g, di, m)
    requires forall l: nat :: l in freed <==> FreedBelow(Cut(g, b, dirs, p), di, l)
    ensures SubtreeGone(g, h, dirs, p, di)
    ensures h.inodes == b.inodes
    ensures forall m: nat, s: Slot | Live(b, m, s) != 0 :: Sec(h, Live(b, m, s)) == Sec(b, Live(b, m, s))
  {
    hide Live, Marked, Sec, Bit, Owned, InodesSynced, FreeSynced, Below, FreedBelow, OwnedBy, GivenBack;
    SameMarks(g, b);
    SameUsed(g, b);
    SameBack(g, b, dirs, p, di);
    BackOwned(Cut(g, b, dirs, p), di, gone, freed);
    TailKeeps(b, h, gone, freed);
  }

  /** The directory that lost the entry, across the steps that follow. */
  lemma ParentAfter(b: Image, h: Image, p: nat)
    requires p < |b.inodes| && h.inodes == b.inodes && DirOk(b, p)
    requires forall s: Slot :: Live(h, p, s) == Live(b, p, s)
    requires forall m: nat, s: Slot | Live(b, m, s) != 0 :: Sec(h, Live(b, m, s)) == Sec(b, Live(b, m, s))
    ensures DirOk(h, p) && Entries(h, p) == Entries(b, p) && (Blank(b, p) ==> Blank(h, p))
  {
    hide Live, Sec, GetItem;
    EntriesAre(b, p);
    EntriesAre(h, p);
    forall e: nat | Live(b, p, Data(e / PER_BLOCK)) != 0
      ensures EntryAt(h, p, e) == EntryAt(b, p, e)
    {
    }
  }

  lemma RemoveReady(g: Image, dirs: set<nat>, p: nat, di: DirItem)
    requires TreeOk(g, dirs) && p in dirs
    ensures p < |g.inodes| && Allocated(g, p) && DirOk(g, p) && Blank(g, p) && Searchable(g, p, CStr(di.name))
    ensures |Entries(g, p)| == g.inodes[p].size
  {
    hide Scannable, Searchable, Entries, CStr, Bit, OneEntryEach, DotsOk;
    DirScannable(g, dirs, p);
    ScannableSearch(g, p, CStr(di.name));
    assert DirShape(g, dirs, p);
    EntriesAre(g, p);
  }

  /** The parent of an item on a path is not below it. */
  lemma ParentNotBelow(g: Image, dirs: set<nat>, at: seq<seq<u8>>, p: nat, k: nat, di: DirItem)
    requires TreeOk(g, dirs) && p in dirs && p < |g.inodes| && 2 <= k < |Entries(g, p)| && Entries(g, p)[k] == di
    requires at != [] && At(g, at, di)
    ensures !Below(g, di, p)
    ensures var init := at[..|at| - 1];
            Plain(init) && Resolve(g, Root(), init).Some? && Resolve(g, Root(), init).value.inode == p
    ensures CStr(di.name) == at[|at| - 1]
  {
    hide DirShape, Entries, CStr, Below, Resolve, PlainName;
    var q, e := LastStep(g, dirs, at);
    assert q.inode == p && e == k;
    NotBelowEntry(g, dirs, at[..|at| - 1], q, at, di);
  }

  lemma LevelReady(g: Image, b: Image, dirs: set<nat>, at: seq<seq<u8>>, p: nat, k: nat, di: DirItem)
    requires TreeOk(g, dirs) && p in dirs && p < |g.inodes| && 2 <= k < |Entries(g, p)| && Entries(g, p)[k] == di
    requires at != [] && At(g, at, di)
    requires Consistent(b) && OthersKept(g, b, p) && SameRefs(g, b) && b.used == g.used
    ensures LevelOk(Level(Cut(g, b, dirs, p), at, di, {}, {}, {})) && Swept(b, b, {}, {}) && !Below(g, di, p)
  {
    hide TreeOk, Owned, InodesSynced, OthersKept, SameRefs, Entries, Below, At, Allocated, Marked;
    ParentNotBelow(g, dirs, at, p, k, di);
  }

  lemma KeptParent(g: Image, b: Image, h: Image, dirs: set<nat>, p: nat, di: DirItem)
    requires SubtreeGone(g, h, dirs, p, di) && !Below(g, di, p) && SameRefs(g, b)
    ensures forall s: Slot :: Live(h, p, s) == Live(b, p, s)
  {
    hide Live, Marked, Sec, Bit, Consistent, FreeSynced, Below, GivenBack, Allocated;
  }

  /**
    diritem_remove: -1 when there is no entry of that name. Otherwise the entry is blanked, and everything
    below it is given back: inodes, and data blocks up to the first hole of each. Index blocks stay marked.
   */
  method DiritemRemove(v: Volume, ghost dirs: set<nat>, ghost at: seq<seq<u8>>, p: nat, di: DirItem) returns (r: int)
    requires v.Valid() && Consistent(v.View()) && TreeOk(v.View(), dirs)
    requires p in dirs && p < |v.View().inodes|
    requires var k := IndexOf(Entries(v.View(), p), CStr(di.name));
             k == -1 || (2 <= k && Entries(v.View(), p)[k] == di && at != [] && At(v.View(), at, di))
    modifies v.disk, v.inodes, v.freeMap.buff, v.usedMap.buff
    ensures v.Valid()
    ensures var k := IndexOf(Entries(old(v.View()), p), CStr(di.name));
            r == (if k == -1 then -1 else 0)
            && (k == -1 ==> v.View() == old(v.View()))
            && (k != -1 ==>
                  && SubtreeGone(old(v.View()), v.View(), dirs, p, di) && !Below(old(v.View()), di, p)
                  && DirOk(v.View(), p) && Entries(v.View(), p) == Zeroed(Entries(old(v.View()), p), k)
                  && (k == |Entries(old(v.View()), p)| - 1 ==> Blank(v.View(), p)))
  {
    hide Live, Marked, Sec, Bit, Consistent, CStr, Zeroed, OthersKept, Entries, WithBit, TreeOk, Allocated, Below, At,
         FreeSynced, DirOk, Blank, SubtreeGone, Swept, FreedBelow, TailSteps, Shape, SameRefs, IndexOf, Searchable;
    ghost var g := v.View();
    RemoveReady(g, dirs, p, di);
    var k := FindSub(v, p, CStr(di.name));
    if k == -1 {
      return -1;
    }
    ZeroEntry(v, p, k);
    ghost var b := v.View();
    ghost var x := Level(Cut(g, b, dirs, p), at, di, {}, {}, {});
    LevelReady(g, b, dirs, at, p, k, di);
    ghost var gone, freed := RemoveSub(v, x, di);
    ghost var h3 := v.View();
    FreeMapUpdate(v);
    ghost var h4 := v.View();
    v.WriteSector(BASE_MAP_INODES, v.usedMap.buff[..]);
    TailIsTail(b, h3, h4, v.View(), gone, freed);
    SubtreeIsGone(g, b, v.View(), dirs, p, di, gone, freed);
    KeptParent(g, b, v.View(), dirs, p, di);
    ParentAfter(b, v.View(), p);
    r := 0;
  }
}
