/** kern/fs/dir.c: directories as packed blocks of 21 entries. */
module Dirs {
  import opened Bytes
  import opened Bitmaps
  import opened CStrings
  import opened Free
  import opened Images
  import opened Inodes
  import opened Layout
  import opened Ownership
  import opened Volumes

  const DIRITEM_SIZE: nat := 24
  /** MAX_DIRITEM_PER_BLOCK */
  const PER_BLOCK: nat := 21
  const TYPE_INVALID: u32 := 0
  const TYPE_FILE: u32 := 1
  const TYPE_DIR: u32 := 2

  type Name = s: seq<u8> | |s| == 16 witness [0, 0, 0, 0, 0, 0, 0, 0, 0, 0, 0, 0, 0, 0, 0, 0]

  /** diritem_t; an inode of -1 is stored as 0xffffffff. */
  datatype DirItem = DirItem(kind: u32, inode: u32, name: Name)

  function ItemBytes(it: DirItem): (r: seq<u8>)
    ensures |r| == 24
  {
    WordBytes(it.kind) + WordBytes(it.inode) + it.name
  }

  function BytesItem(b: seq<u8>): DirItem
    requires |b| == 24
  {
    DirItem(BytesWord(b[0..4]), BytesWord(b[4..8]), b[8..24])
  }

  lemma ItemRoundTrip(it: DirItem)
    ensures BytesItem(ItemBytes(it)) == it
  {
    hide WordBytes, BytesWord;
    var b := ItemBytes(it);
    assert b[0..4] == WordBytes(it.kind);
    assert b[4..8] == WordBytes(it.inode);
    assert b[8..24] == it.name;
    WordRoundTrip(it.kind);
    WordRoundTrip(it.inode);
  }

  /** Where the bytes of an entry are: type, inode, both low bytes first, and the name. */
  lemma ItemFormat(it: DirItem, k: nat)
    requires k < DIRITEM_SIZE
    ensures ItemBytes(it)[k] ==
            if k < 8 then (if k < 4 then it.kind else it.inode) / [1, 0x100, 0x1_0000, 0x100_0000][k % 4] % 0x100
            else it.name[k - 8]
  {
  }

  /** db->dir_[j] */
  function GetItem(s: Sector, j: nat): DirItem
    requires j < PER_BLOCK
  {
    BytesItem(s[24 * j..24 * j + 24])
  }

  /** db->dir_[j] = it */
  function PutItem(s: Sector, j: nat, it: DirItem): Sector
    requires j < PER_BLOCK
  {
    Splice(s, 24 * j, ItemBytes(it))
  }

  lemma PutGetItem(s: Sector, j: nat, it: DirItem, k: nat)
    requires j < PER_BLOCK && k < PER_BLOCK
    ensures GetItem(PutItem(s, j, it), k) == if k == j then it else GetItem(s, k)
  {
    hide BytesItem, ItemBytes;
    ItemRoundTrip(it);
    if k != j {
      SpliceElsewhere(s, 24 * j, ItemBytes(it), 24 * k, 24 * k + 24);
    }
  }

  /** The first `count` entries of a directory block. */
  function BlockItems(s: Sector, count: nat): (r: seq<DirItem>)
    requires count <= PER_BLOCK
    ensures |r| == count
  {
    seq(count, j requires 0 <= j < count => GetItem(s, j))
  }

  /** max_diritem_number: how many entries block i of a directory of this size holds. */
  function ItemsIn(size: nat, i: nat): (r: nat)
    ensures r <= PER_BLOCK
  {
    if i == size / PER_BLOCK then size % PER_BLOCK else PER_BLOCK
  }

  /** The entries in inode n's blocks from block i on, up to the first missing block. */
  ghost function Scan(g: Image, n: nat, i: nat): seq<DirItem>
    requires n < |g.inodes|
    decreases g.inodes[n].size / PER_BLOCK + 1 - i
  {
    if i > g.inodes[n].size / PER_BLOCK || Live(g, n, Data(i)) == 0 then []
    else BlockItems(Sec(g, Live(g, n, Data(i))), ItemsIn(g.inodes[n].size, i)) + Scan(g, n, i + 1)
  }

  /** The entry sequence that the source's loops over a directory visit. */
  ghost function Entries(g: Image, n: nat): seq<DirItem>
    requires n < |g.inodes|
  {
    Scan(g, n, 0)
  }

  /** Every block that holds one of the size_ entries exists. */
  ghost predicate DirOk(g: Image, n: nat)
    requires n < |g.inodes|
  {
    forall i: nat | PER_BLOCK * i < g.inodes[n].size :: Live(g, n, Data(i)) != 0
  }

  ghost function EntryAt(g: Image, n: nat, e: nat): DirItem {
    GetItem(Sec(g, Live(g, n, Data(e / PER_BLOCK))), e % PER_BLOCK)
  }

  /** What lies behind the size_ entries in the directory's blocks is empty. */
  ghost predicate Blank(g: Image, n: nat)
    requires n < |g.inodes|
  {
    forall e: nat | g.inodes[n].size <= e && Live(g, n, Data(e / PER_BLOCK)) != 0 ::
      EntryAt(g, n, e).kind == TYPE_INVALID
  }

  lemma ZeroItem(j: nat)
    requires j < PER_BLOCK
    ensures GetItem(ZeroSector(), j).kind == TYPE_INVALID
  {
    var b := ZeroSector()[24 * j..24 * j + 24];
    assert forall k | 0 <= k < 24 :: b[k] == ZeroSector()[24 * j + k] == 0;
  }

  /** Names are distinct and non-empty, as in a directory that only grew. */
  ghost predicate DistinctNames(items: seq<DirItem>) {
    && (forall i, j | 0 <= i < j < |items| :: CStr(items[i].name) != CStr(items[j].name))
    && (forall i | 0 <= i < |items| :: CStr(items[i].name) != [])
  }

  /** In a directory with all its blocks the visited entries are the size_ entries, in order. */
  lemma {:induction false} ScanIsAll(g: Image, n: nat, i: nat)
    requires n < |g.inodes| && DirOk(g, n) && PER_BLOCK * i <= g.inodes[n].size
    ensures |Scan(g, n, i)| == g.inodes[n].size - PER_BLOCK * i
    ensures forall k: nat | k < |Scan(g, n, i)| :: Scan(g, n, i)[k] == EntryAt(g, n, PER_BLOCK * i + k)
    decreases g.inodes[n].size / PER_BLOCK + 1 - i
  {
    hide GetItem, Live, Sec;
    var size := g.inodes[n].size;
    if i < size / PER_BLOCK {
      ScanIsAll(g, n, i + 1);
      assert Live(g, n, Data(i)) != 0;
      forall k: nat | k < |Scan(g, n, i)|
        ensures Scan(g, n, i)[k] == EntryAt(g, n, PER_BLOCK * i + k)
      {
        if PER_BLOCK <= k {
          assert Scan(g, n, i)[k] == Scan(g, n, i + 1)[k - PER_BLOCK];
        } else {
          assert (PER_BLOCK * i + k) / PER_BLOCK == i && (PER_BLOCK * i + k) % PER_BLOCK == k;
        }
      }
    } else if size % PER_BLOCK != 0 {
      assert Live(g, n, Data(i)) != 0;
      assert Scan(g, n, i + 1) == [];
      forall k: nat | k < |Scan(g, n, i)|
        ensures Scan(g, n, i)[k] == EntryAt(g, n, PER_BLOCK * i + k)
      {
        assert (PER_BLOCK * i + k) / PER_BLOCK == i && (PER_BLOCK * i + k) % PER_BLOCK == k;
      }
    } else {
      assert Scan(g, n, i + 1) == [];
    }
  }

  lemma EntriesAre(g: Image, n: nat)
    requires n < |g.inodes| && DirOk(g, n)
    ensures |Entries(g, n)| == g.inodes[n].size
    ensures forall e: nat | e < |Entries(g, n)| :: Entries(g, n)[e] == EntryAt(g, n, e)
  {
    ScanIsAll(g, n, 0);
    hide Scan, EntryAt, DirOk;
    forall e: nat | e < |Entries(g, n)|
      ensures Entries(g, n)[e] == EntryAt(g, n, e)
    {
      assert Scan(g, n, 0)[e] == EntryAt(g, n, PER_BLOCK * 0 + e);
    }
  }

  /** Index of the first entry with this name; -1 when there is none. */
  function IndexOf(items: seq<DirItem>, search: seq<u8>): (r: int)
    ensures -1 <= r < |items|
    ensures r == -1 ==> forall e | 0 <= e < |items| :: CStr(items[e].name) != search
    ensures r != -1 ==> CStr(items[r].name) == search && forall e | 0 <= e < r :: CStr(items[e].name) != search
  {
    if items == [] then -1
    else if CStr(items[0].name) == search then 0
    else var r := IndexOf(items[1..], search); if r == -1 then -1 else r + 1
  }

  ghost predicate IsFirst(items: seq<DirItem>, search: seq<u8>, r: int) {
    && -1 <= r < |items|
    && (r == -1 ==> forall e | 0 <= e < |items| :: CStr(items[e].name) != search)
    && (r != -1 ==> CStr(items[r].name) == search && forall e | 0 <= e < r :: CStr(items[e].name) != search)
  }

  lemma FirstIsIndex(items: seq<DirItem>, search: seq<u8>, r: int)
    requires IsFirst(items, search, r)
    ensures r == IndexOf(items, search)
  {
    hide CStr;
  }

  /** Old names keep their index, a new name gets the old size. */
  lemma IndexOfPush(items: seq<DirItem>, it: DirItem, search: seq<u8>)
    ensures IndexOf(items + [it], search) ==
            if IndexOf(items, search) != -1 then IndexOf(items, search)
            else if CStr(it.name) == search then |items|
            else -1
  {
    hide CStr;
    var a := IndexOf(items, search);
    FirstIsIndex(items + [it], search, if a != -1 then a else if CStr(it.name) == search then |items| else -1);
  }

  lemma IndexOfConcat(a: seq<DirItem>, b: seq<DirItem>, search: seq<u8>)
    ensures IndexOf(a + b, search) ==
            if IndexOf(a, search) != -1 then IndexOf(a, search)
            else if IndexOf(b, search) != -1 then |a| + IndexOf(b, search)
            else -1
  {
    hide CStr;
    var r, t := IndexOf(a, search), IndexOf(b, search);
    FirstIsIndex(a + b, search, if r != -1 then r else if t != -1 then |a| + t else -1);
  }

  /** The scan stays inside the indexable blocks, and the names it compares are C strings. */
  ghost predicate Scannable(g: Image, n: nat)
    requires n < |g.inodes|
  {
    && (g.inodes[n].size / PER_BLOCK < BLOCK_INDEX_MAX
        || exists i: nat | i < BLOCK_INDEX_MAX :: Live(g, n, Data(i)) == 0)
    && forall e | 0 <= e < |Entries(g, n)| :: |CStr(Entries(g, n)[e].name)| < DIRITEM_NAME_LEN
  }

  /**
    The scan for one name runs without reading outside: up to the match every name is a C string,
    and without a match the whole directory is scannable.
   */
  ghost predicate Searchable(g: Image, n: nat, search: seq<u8>)
    requires n < |g.inodes|
  {
    var k := IndexOf(Entries(g, n), search);
    if k == -1 then Scannable(g, n)
    else forall e | 0 <= e < k :: |CStr(Entries(g, n)[e].name)| < DIRITEM_NAME_LEN
  }

  lemma ScannableSearch(g: Image, n: nat, search: seq<u8>)
    requires n < |g.inodes| && Scannable(g, n)
    ensures Searchable(g, n, search)
  {
    hide CStr, Live;
  }

  /** The inner loop of diritem_find_sub. */
  method FindInBlock(db: Sector, count: nat, search: seq<u8>) returns (r: int)
    requires count <= PER_BLOCK
    ensures r == IndexOf(BlockItems(db, count), search)
  {
    hide GetItem, CStr;
    ghost var items := BlockItems(db, count);
    var j := 0;
    while j < count
      invariant 0 <= j <= count
      invariant forall e | 0 <= e < j :: CStr(items[e].name) != search
    {
      if search == CStr(GetItem(db, j).name) {
        assert items[j] == GetItem(db, j);
        return j;
      }
      j := j + 1;
    }
    r := -1;
  }

  lemma ScannableHas(g: Image, n: nat, i: nat)
    requires n < |g.inodes| && Scannable(g, n) && i <= g.inodes[n].size / PER_BLOCK
    requires forall k: nat | k < i :: Live(g, n, Data(k)) != 0
    ensures i < BLOCK_INDEX_MAX
  {
    hide Live, Entries;
  }

  /** The loop of diritem_find_sub has passed blocks 0..i and seen these entries without a match. */
  ghost predicate Passed(g: Image, n: nat, i: nat, seen: seq<DirItem>, search: seq<u8>)
    requires n < |g.inodes|
  {
    && i <= g.inodes[n].size / PER_BLOCK + 1
    && Entries(g, n) == seen + Scan(g, n, i)
    && (i <= g.inodes[n].size / PER_BLOCK ==> |seen| == PER_BLOCK * i)
    && IndexOf(seen, search) == -1
    && forall k: nat | k < i :: Live(g, n, Data(k)) != 0
  }

  lemma PassedNone(g: Image, n: nat, search: seq<u8>)
    requires n < |g.inodes|
    ensures Passed(g, n, 0, [], search)
  {
    hide Scan;
  }

  lemma PassedBlocks(g: Image, n: nat, i: nat, seen: seq<DirItem>, search: seq<u8>)
    requires n < |g.inodes| && Passed(g, n, i, seen, search)
    ensures forall k: nat | k < i :: Live(g, n, Data(k)) != 0
  {
    hide Live;
  }

  lemma SearchableHas(g: Image, n: nat, i: nat, seen: seq<DirItem>, search: seq<u8>)
    requires n < |g.inodes| && Searchable(g, n, search) && Passed(g, n, i, seen, search)
    requires i <= g.inodes[n].size / PER_BLOCK
    ensures i < BLOCK_INDEX_MAX
  {
    PassedBlocks(g, n, i, seen, search);
    if IndexOf(Entries(g, n), search) == -1 {
      ScannableHas(g, n, i);
    } else if BLOCK_INDEX_MAX <= i {
      NoRefPastEnd(g, n, i);
      PassedAll(g, n, i, seen, search);
    }
  }

  /** Passing one more block, with or without a match in it. */
  lemma PassBlock(g: Image, n: nat, i: nat, seen: seq<DirItem>, search: seq<u8>)
    requires n < |g.inodes| && Passed(g, n, i, seen, search)
    requires i <= g.inodes[n].size / PER_BLOCK && Live(g, n, Data(i)) != 0
    ensures var items := BlockItems(Sec(g, Live(g, n, Data(i))), ItemsIn(g.inodes[n].size, i));
            var j := IndexOf(items, search);
            if j == -1 then Passed(g, n, i + 1, seen + items, search)
            else IndexOf(Entries(g, n), search) == PER_BLOCK * i + j
  {
    hide Live, Sec, GetItem, IndexOf, CStr;
    var items := BlockItems(Sec(g, Live(g, n, Data(i))), ItemsIn(g.inodes[n].size, i));
    assert Entries(g, n) == (seen + items) + Scan(g, n, i + 1);
    IndexOfConcat(seen, items, search);
    IndexOfConcat(seen + items, Scan(g, n, i + 1), search);
  }

  lemma PassedAll(g: Image, n: nat, i: nat, seen: seq<DirItem>, search: seq<u8>)
    requires n < |g.inodes| && Passed(g, n, i, seen, search)
    requires i > g.inodes[n].size / PER_BLOCK || Live(g, n, Data(i)) == 0
    ensures IndexOf(Entries(g, n), search) == -1
  {
    assert Entries(g, n) == seen;
  }

  /** diritem_find_sub: the entry index of `search` in inode n's entries, or -1. */
  method FindSub(v: Volume, n: nat, search: seq<u8>) returns (ret: int)
    requires v.Valid() && Consistent(v.View())
    requires Allocated(v.View(), n) && Searchable(v.View(), n, search)
    ensures ret == IndexOf(Entries(v.View(), n), search)
  {
    hide Live, Bit, Consistent, Searchable, Sec, BlockItems, Marked, Passed, Entries;
    ghost var g := v.View();
    ghost var seen := [];
    var size := v.inodes[n].size;
    PassedNone(g, n, search);
    var i := 0;
    while i <= size / PER_BLOCK
      invariant 0 <= i <= size / PER_BLOCK + 1
      invariant Passed(g, n, i, seen, search)
    {
      SearchableHas(g, n, i, seen, search);
      var lba, db := FetchBlock(v, n, i);
      if lba == 0 {
        break;
      }
      var j := FindInBlock(db, ItemsIn(size, i), search);
      PassBlock(g, n, i, seen, search);
      if j != -1 {
        return PER_BLOCK * i + j;
      }
      seen := seen + BlockItems(db, ItemsIn(size, i));
      i := i + 1;
    }
    PassedAll(g, n, i, seen, search);
    ret := -1;
  }

  /** Appending an entry in the block its index falls into. */
  lemma PushEntries(g: Image, h: Image, p: nat, cur: DirItem, db: Sector)
    requires p < |g.inodes| && p < |h.inodes| && DirOk(g, p)
    requires h.inodes[p].size == g.inodes[p].size + 1
    requires var i := g.inodes[p].size / PER_BLOCK;
             && (Live(g, p, Data(i)) != 0 ==> db == Sec(g, Live(g, p, Data(i))))
             && Live(h, p, Data(i)) != 0
             && Sec(h, Live(h, p, Data(i))) == PutItem(db, g.inodes[p].size % PER_BLOCK, cur)
             && forall j: nat | j != i && Live(g, p, Data(j)) != 0 ::
                  && Live(h, p, Data(j)) == Live(g, p, Data(j))
                  && Sec(h, Live(h, p, Data(j))) == Sec(g, Live(g, p, Data(j)))
    ensures DirOk(h, p) && Entries(h, p) == Entries(g, p) + [cur]
  {
    hide Live, Sec, GetItem, PutItem;
    var size := g.inodes[p].size;
    EntriesAre(g, p);
    assert forall i: nat | PER_BLOCK * i < size + 1 :: i == size / PER_BLOCK || PER_BLOCK * i < size;
    EntriesAre(h, p);
    forall e: nat | e < size + 1
      ensures EntryAt(h, p, e) == if e == size then cur else EntryAt(g, p, e)
    {
      var i := e / PER_BLOCK;
      if i == size / PER_BLOCK {
        PutGetItem(db, size % PER_BLOCK, cur, e % PER_BLOCK);
        if e < size {
          assert PER_BLOCK * i < size;
          assert Live(g, p, Data(i)) != 0;
        }
      } else {
        assert PER_BLOCK * i < size;
        assert Live(g, p, Data(i)) != 0;
      }
    }
  }

  /** The new entry is the last one in use: nothing is behind it. */
  lemma PushBlank(g: Image, h: Image, p: nat, cur: DirItem, db: Sector)
    requires p < |g.inodes| && p < |h.inodes| && Blank(g, p)
    requires h.inodes[p].size == g.inodes[p].size + 1
    requires var i := g.inodes[p].size / PER_BLOCK;
             && (if Live(g, p, Data(i)) != 0 then db == Sec(g, Live(g, p, Data(i))) else db == ZeroSector())
             && Sec(h, Live(h, p, Data(i))) == PutItem(db, g.inodes[p].size % PER_BLOCK, cur)
             && (forall j: nat | j != i :: Live(h, p, Data(j)) == Live(g, p, Data(j)))
             && forall j: nat | j != i && Live(g, p, Data(j)) != 0 ::
                  Sec(h, Live(h, p, Data(j))) == Sec(g, Live(g, p, Data(j)))
    ensures Blank(h, p)
  {
    hide Live, Sec, GetItem, PutItem;
    var size := g.inodes[p].size;
    forall e: nat | size + 1 <= e && Live(h, p, Data(e / PER_BLOCK)) != 0
      ensures EntryAt(h, p, e).kind == TYPE_INVALID
    {
      var i := e / PER_BLOCK;
      if i == size / PER_BLOCK {
        PutGetItem(db, size % PER_BLOCK, cur, e % PER_BLOCK);
        ZeroItem(e % PER_BLOCK);
        assert Live(g, p, Data(i)) != 0 ==> EntryAt(g, p, e).kind == TYPE_INVALID;
      } else {
        assert EntryAt(h, p, e) == EntryAt(g, p, e);
      }
    }
  }

  /** A push to inode p: one more entry at the end, nothing else moved. */
  ghost predicate Pushed(g: Image, h: Image, p: nat, cur: DirItem)
    requires p < |g.inodes|
  {
    && Consistent(h) && OthersKept(g, h, p)
    && h.inodes[p].size == g.inodes[p].size + 1
    && DirOk(h, p) && Entries(h, p) == Entries(g, p) + [cur]
    && (Blank(g, p) ==> Blank(h, p)) && SameLeaks(g, h)
  }

  /** Hooking a fresh block into p with the free map already flushed, and flushing the inode again. */
  lemma HookedForPush(g: Image, g2: Image, g3: Image, g4: Image, p: nat, i: nat, lba: u32)
    requires Consistent(g) && Allocated(g, p) && Live(g, p, Data(i)) == 0
    requires InPool(g, lba) && !Marked(g, lba)
    requires Shape(g2) && |g2.disk| == |g.disk| && g2 == Mark(g, lba, true).(disk := g2.disk)
    requires forall l: nat :: l < BASE_MAP_FREE || LBA_FREE <= l ==> Sec(g2, l) == Sec(g, l)
    requires Assigned(g2, g3, p, i, lba)
    requires Shape(g3) && g4 == Flush(g3, p)
    ensures lba < |g4.disk| && BlockWritten(g, g4, p, i, g4.disk[lba])
    ensures Live(g4, p, Data(i)) == lba
  {
    hide Live, Marked, Sec, OnDisk, EncodeInode, WithBit, IndexOwned, Owned, InodesSynced, Assigned;
    var g' := g.(disk := g2.disk);
    SameSectors(g2, g');
    MapFlushed(g, g', p);
    MetaStepKeeps(g, g', p);
    assert g2 == Mark(g', lba, true);
    HookedBlock(g', g3, p, i, lba);
    SizedAndFlushed(g3, p, g3.inodes[p].size);
    assert SetSize(g3, p, g3.inodes[p].size) == g3;
    MetaStepKeeps(g3, g4, p);
    OthersKeptTrans(g, g', g3, p);
    OthersKeptTrans(g, g3, g4, p);
    SectorAt(g4, lba);
  }

  /**
    diritem_push's first half: the block that receives the next entry, and its contents.
    A missing block is taken from the pool and hooked in, with the free map flushed in between.
   */
  method PushBlock(v: Volume, p: nat, i: nat) returns (ok: bool, lba: u32, db: Sector)
    requires v.Valid() && Consistent(v.View()) && Allocated(v.View(), p) && i < BLOCK_INDEX_MAX
    modifies v.disk, v.inodes, v.freeMap, v.freeMap.buff
    ensures v.Valid()
    ensures Live(old(v.View()), p, Data(i)) != 0 ==>
      ok && v.View() == old(v.View()) && v.freeMap.prevFree == old(v.freeMap.prevFree)
      && lba == Live(v.View(), p, Data(i)) && db == Sec(v.View(), lba)
    ensures ok && Live(old(v.View()), p, Data(i)) == 0 ==>
      && lba < |v.View().disk| && lba == Live(v.View(), p, Data(i)) != 0
      && BlockWritten(old(v.View()), v.View(), p, i, v.View().disk[lba]) && db == ZeroSector()
      && (FreeSynced(v.View()) <==> !NeedsIndex(old(v.View()), p, i))
      && (Covered(v.View()) <==> !NeedsIndex(old(v.View()), p, i))
      && MapBehind(v.View())
    ensures !ok ==> NoRoom(v.View())
    ensures 3 <= old(BlocksAhead(v)) ==> ok
    ensures old(BlocksAhead(v)) <= BlocksAhead(v) + 3
  {
    hide Live, Marked, Sec, Bit, EncodeInode, WithBit, Owned, InodesSynced, Assigned, BlockWritten, IndexOwned,
         OnDisk, ClearFrom, Leaked;
    ghost var g := v.View();
    ok := true;
    lba, db := FetchBlock(v, p, i);
    if lba == 0 {
      db := ZeroSector();
      var a := TakeBlock(v);
      if a.None? {
        return false, 0, db;
      }
      lba := a.value;
      MarkEffect(g, lba, true);
      FreeMapUpdate(v);
      ghost var g2 := v.View();
      SameSectors(g, Mark(g, lba, true));
      PushReady(g, g2, p, i, lba);
      ok := IblockSet(v, p, i, lba);
      if !ok {
        return;
      }
      ghost var g3 := v.View();
      assert Shape(g3);
      InodeWrite(v, p);
      HookedForPush(g, g2, g3, v.View(), p, i, lba);
      SyncedIffNoIndex(g, g2, g3, v.View(), p, i, lba);
      AssignedBehind(g2, g3, p, i, lba);
      if NeedsIndex(g, p, i) {
        IndexNotCovered(g2, g3, v.View(), p, i, lba);
      } else {
        HookedCovers(g, v.View(), p, i, lba);
      }
    }
  }

  lemma PushReady(g: Image, g2: Image, p: nat, i: nat, lba: u32)
    requires Consistent(g) && Allocated(g, p)
    requires InPool(g, lba) && !Marked(g, lba)
    requires Shape(g2) && |g2.disk| == |g.disk| && g2 == Mark(g, lba, true).(disk := g2.disk)
    requires forall l: nat :: l < BASE_MAP_FREE || LBA_FREE <= l ==> Sec(g2, l) == Sec(g, l)
    ensures IndexOwned(g2) && Allocated(g2, p)
    ensures NeedsIndex(g2, p, i) == NeedsIndex(g, p, i)
  {
    hide Live, Marked, Sec, WithBit, InodesSynced;
    var g' := g.(disk := g2.disk);
    SameSectors(g2, g');
    MapFlushed(g, g', p);
    MetaStepKeeps(g, g', p);
    MarkEffect(g', lba, true);
    assert g2 == Mark(g', lba, true);
    SameRefsOwned(g', g2);
    OwnedIsIndexOwned(g2);
  }

  /** After the push block is hooked in, the map on disk is current unless an index block was taken after the flush. */
  lemma SyncedIffNoIndex(g: Image, g2: Image, g3: Image, g4: Image, p: nat, i: nat, lba: u32)
    requires Shape(g) && Shape(g2) && p < MAX_INODES && FreeSynced(g2) && IndexOwned(g2) && Allocated(g2, p)
    requires lba != 0 && Assigned(g2, g3, p, i, lba)
    requires Shape(g3) && g4 == Flush(g3, p)
    requires NeedsIndex(g2, p, i) == NeedsIndex(g, p, i)
    requires !NeedsIndex(g2, p, i) ==> g3.free == g2.free
    ensures FreeSynced(g4) <==> !NeedsIndex(g, p, i)
  {
    hide Live, Marked, OnDisk, EncodeInode, NeedsIndex;
    forall l: nat | BASE_MAP_FREE <= l < LBA_FREE
      ensures g4.disk[l] == g2.disk[l]
    {
      RegionNoIndex(g3, l);
      assert Sec(g3, l) == Sec(g2, l);
    }
    if NeedsIndex(g2, p, i) {
      AssignedTakes(g2, g3, p, i, lba);
      if FreeSynced(g4) {
        FreeSyncedUnique(g4, g2.(disk := g4.disk));
      }
    }
  }

  lemma HookedCovers(g: Image, h: Image, p: nat, i: nat, lba: u32)
    requires p < |g.inodes| && Shape(h) && lba < |h.disk| && BlockWritten(g, h, p, i, h.disk[lba]) && FreeSynced(h)
    ensures Covered(h)
  {
    hide FreeSynced, Live, Marked;
    SyncedCovers(h);
  }

  /** An index block taken after the flush is not in the map on disk. */
  lemma IndexNotCovered(g2: Image, g3: Image, g4: Image, p: nat, i: nat, lba: u32)
    requires Shape(g2) && p < MAX_INODES && FreeSynced(g2) && IndexOwned(g2) && Allocated(g2, p)
    requires lba != 0 && Assigned(g2, g3, p, i, lba) && NeedsIndex(g2, p, i)
    requires Shape(g3) && g4 == Flush(g3, p)
    ensures !Covered(g4)
  {
    IndexTaken(g2, g3, p, i, lba);
    hide Live, Marked, EncodeInode, NeedsIndex, Grown;
    var a := Live(g3, p, IndexOver(i));
    MapRegionKept(g2, g3, p, i, lba);
    FlushEffect(g3, p);
    SyncedMarks(g2);
    NotDiskMarked(g2, g4, a);
    assert Live(g4, p, IndexOver(i)) == a;
  }

  lemma IndexTaken(g2: Image, g3: Image, p: nat, i: nat, lba: u32)
    requires Shape(g2) && p < MAX_INODES && Assigned(g2, g3, p, i, lba) && lba != 0
    requires NeedsIndex(g2, p, i) && Allocated(g2, p)
    ensures Live(g3, p, IndexOver(i)) != 0 && !Marked(g2, Live(g3, p, IndexOver(i)))
  {
    hide OnDisk, Bit, GetWord, Marked;
    assert Live(g3, p, Data(i)) == lba;
  }

  lemma MapRegionKept(g2: Image, g3: Image, p: nat, i: nat, lba: u32)
    requires Shape(g2) && Shape(g3) && p < MAX_INODES && Assigned(g2, g3, p, i, lba)
    ensures SameMapOnDisk(g2, Flush(g3, p)) && |Flush(g3, p).disk| == |g2.disk|
  {
    hide Live, Marked, OnDisk, EncodeInode;
    forall l: nat | BASE_MAP_FREE <= l < LBA_FREE
      ensures Flush(g3, p).disk[l] == g2.disk[l]
    {
      RegionNoIndex(g3, l);
      assert Sec(g3, l) == Sec(g2, l);
    }
  }

  lemma AssignedBehind(g2: Image, g3: Image, p: nat, i: nat, lba: u32)
    requires Shape(g2) && Shape(g3) && p < MAX_INODES && FreeSynced(g2) && Assigned(g2, g3, p, i, lba)
    ensures MapBehind(Flush(g3, p))
  {
    SyncedBehind(g2);
    MapRegionKept(g2, g3, p, i, lba);
    FlushEffect(g3, p);
    hide Live, OnDisk, EncodeInode, Bit, MapBehind, FreeSynced, IndexOwned, MapUpdated;
    assert forall l: nat | Marked(g2, l) :: Marked(g3, l);
    BehindKept(g2, Flush(g3, p));
  }

  /**
    diritem_push. The clauses before the last say when the free map on disk is left current, and
    when it shows every block in use: as before if the entry fits a block already there,
    otherwise unless an index block was needed.
   */
  method DiritemPush(v: Volume, p: nat, cur: DirItem) returns (ok: bool)
    requires v.Valid() && Consistent(v.View()) && Allocated(v.View(), p) && DirOk(v.View(), p)
    requires v.View().inodes[p].size / PER_BLOCK < BLOCK_INDEX_MAX
    modifies v.disk, v.inodes, v.freeMap, v.freeMap.buff
    ensures v.Valid()
    ensures ok ==> Pushed(old(v.View()), v.View(), p, cur)
    ensures ok ==>
      var i := old(v.View()).inodes[p].size / PER_BLOCK;
      (FreeSynced(v.View()) <==>
       if Live(old(v.View()), p, Data(i)) != 0 then FreeSynced(old(v.View())) else !NeedsIndex(old(v.View()), p, i))
      && (Covered(v.View()) <==>
          if Live(old(v.View()), p, Data(i)) != 0 then Covered(old(v.View())) else !NeedsIndex(old(v.View()), p, i))
    ensures ok && MapBehind(old(v.View())) ==> MapBehind(v.View())
    ensures Live(old(v.View()), p, Data(old(v.View()).inodes[p].size / PER_BLOCK)) != 0 ==>
      ok && v.View().free == old(v.View()).free && v.freeMap.prevFree == old(v.freeMap.prevFree)
    ensures !ok ==> NoRoom(v.View())
    ensures 3 <= old(BlocksAhead(v)) ==> ok
    ensures old(BlocksAhead(v)) <= BlocksAhead(v) + 3
  {
    hide Live, Marked, Sec, Bit, EncodeInode, Consistent, Pushed, BlockWritten, PutItem, DirOk, Blank, NeedsIndex,
         FreeSynced, Covered, MapBehind, ClearFrom, Leaked;
    ghost var g := v.View();
    var size := v.inodes[p].size;
    var lba, db;
    ok, lba, db := PushBlock(v, p, size / PER_BLOCK);
    if !ok {
      return;
    }
    ghost var g4 := v.View();
    PushFinish(g, g4, p, size / PER_BLOCK, lba, db, cur);
    StoreEntry(v, p, lba, PutItem(db, size % PER_BLOCK, cur));
  }

  /** The tail of diritem_push: bump size_, write the block, write the inode. */
  method StoreEntry(v: Volume, p: nat, lba: u32, x: Sector)
    requires v.Valid() && p < MAX_INODES && Marked(v.View(), lba)
    requires v.View().inodes[p].size < 0xffff_ffff
    modifies v.disk, v.inodes
    ensures v.Valid() && lba < |old(v.View()).disk|
    ensures v.View() == Flush(SetSize(Poke(old(v.View()), lba, x), p, old(v.View()).inodes[p].size + 1), p)
  {
    hide Marked, EncodeInode;
    MarkedInPool(v.View(), lba);
    ghost var g := v.View();
    v.inodes[p] := v.inodes[p].(size := v.inodes[p].size + 1);
    SameMarks(g, v.View());
    FreeWrite(v, lba, x);
    InodeWrite(v, p);
  }

  lemma PushFinish(g: Image, g4: Image, p: nat, i: nat, lba: u32, db: Sector, cur: DirItem)
    requires Consistent(g) && Allocated(g, p) && DirOk(g, p)
    requires i == g.inodes[p].size / PER_BLOCK < BLOCK_INDEX_MAX
    requires lba == Live(g4, p, Data(i)) != 0
    requires if Live(g, p, Data(i)) != 0 then g4 == g && db == Sec(g, lba)
             else lba < |g4.disk| && BlockWritten(g, g4, p, i, g4.disk[lba]) && db == ZeroSector()
    ensures Consistent(g4) && Allocated(g4, p) && Marked(g4, lba) && lba < |g4.disk|
    ensures g4.inodes[p].size == g.inodes[p].size
    ensures var x := PutItem(db, g.inodes[p].size % PER_BLOCK, cur);
            var h := Flush(SetSize(Poke(g4, lba, x), p, g.inodes[p].size + 1), p);
            && Pushed(g, h, p, cur) && (FreeSynced(h) <==> FreeSynced(g4)) && (Covered(h) <==> Covered(g4))
            && (MapBehind(g4) ==> MapBehind(h))
  {
    hide Live, Marked, Sec, Bit, EncodeInode, Owned, InodesSynced, PutItem, Entries, DirOk, Blank, Scan, WithBit;
    hide Leaked;
    assert Consistent(g4);
    OwnedMarked(g4, p, Data(i));
    MarkedInPool(g4, lba);
    var x := PutItem(db, g.inodes[p].size % PER_BLOCK, cur);
    var g5 := Poke(g4, lba, x);
    PokedBlock(g4, p, i, x);
    var h := Flush(SetSize(g5, p, g.inodes[p].size + 1), p);
    SizedAndFlushed(g5, p, g.inodes[p].size + 1);
    MetaStepKeeps(g5, h, p);
    CoveredFrame(g4, h);
    if MapBehind(g4) {
      BehindKept(g4, h);
    }
    PushEntries(g, h, p, cur, db);
    if Blank(g, p) {
      PushBlank(g, h, p, cur, db);
    }
    if g4 == g {
      OthersKeptTrans(g, g5, h, p);
    } else {
      OthersKeptTrans(g, g4, g5, p);
      OthersKeptTrans(g, g5, h, p);
    }
  }
}
