/** kern/fs/dir.c, diritem_traversal: the names of a directory, 16 bytes each. */
module Listing {
  import opened Bytes
  import opened Bitmaps
  import opened CStrings
  import opened Dirs
  import opened Images
  import opened Ownership
  import opened Volumes

  /** A listed name: directories get a '/' behind their name. */
  function Listed(it: DirItem): (r: Name)
    requires |CStr(it.name)| < DIRITEM_NAME_LEN
  {
    if it.kind == TYPE_DIR then it.name[|CStr(it.name)| := SLASH] else it.name
  }

  /** A second NUL, or the end of the field, follows the name. */
  predicate PaddedTwice(name: Name) {
    |CStr(name)| + 1 < DIRITEM_NAME_LEN ==> name[|CStr(name)| + 1] == 0
  }

  /**
    What a reader of the listing sees: the name of anything but a directory, and a directory's name with
    a '/', unless the field held something behind the name's NUL.
   */
  lemma ListedName(it: DirItem)
    requires |CStr(it.name)| < DIRITEM_NAME_LEN
    ensures it.kind != TYPE_DIR ==> CStr(Listed(it)) == CStr(it.name)
    ensures it.kind == TYPE_DIR ==> (CStr(Listed(it)) == CStr(it.name) + [SLASH] <==> PaddedTwice(it.name))
  {
    var c, f := CStr(it.name), Listed(it);
    hide CStr;
    if it.kind == TYPE_DIR {
      assert f[..|c| + 1] == c + [SLASH];
      if |c| + 1 == DIRITEM_NAME_LEN {
        assert f == c + [SLASH] && 0 !in f;
      } else if PaddedTwice(it.name) {
        CStrOf(c + [SLASH], f);
      }
    }
  }

  /** The first e entries are listed in order, the rest of the buffer is zero. */
  ghost predicate ListedTo(buff: seq<u8>, items: seq<DirItem>, e: nat)
    requires forall k | 0 <= k < |items| :: |CStr(items[k].name)| < DIRITEM_NAME_LEN
  {
    && e <= |items| && |buff| == DIRITEM_NAME_LEN * |items|
    && (forall k | 0 <= k < e :: buff[DIRITEM_NAME_LEN * k..DIRITEM_NAME_LEN * k + DIRITEM_NAME_LEN] ==
            Listed(items[k]))
    && (forall m | DIRITEM_NAME_LEN * e <= m < |buff| :: buff[m] == 0)
  }

  lemma ListedNext(a: seq<u8>, items: seq<DirItem>, e: nat)
    requires forall k | 0 <= k < |items| :: |CStr(items[k].name)| < DIRITEM_NAME_LEN
    requires ListedTo(a, items, e) && e < |items|
    ensures ListedTo(Splice(a, DIRITEM_NAME_LEN * e, Listed(items[e])), items, e + 1)
  {
    hide CStr, Listed;
    var name := Listed(items[e]);
    var b := Splice(a, DIRITEM_NAME_LEN * e, name);
    forall k | 0 <= k < e
      ensures b[DIRITEM_NAME_LEN * k..DIRITEM_NAME_LEN * k + DIRITEM_NAME_LEN] == Listed(items[k])
    {
      SpliceElsewhere(a, DIRITEM_NAME_LEN * e, name, DIRITEM_NAME_LEN * k, DIRITEM_NAME_LEN * k + DIRITEM_NAME_LEN);
    }
    forall m: nat | DIRITEM_NAME_LEN * (e + 1) <= m < |b|
      ensures b[m] == 0
    {
      SpliceElement(a, DIRITEM_NAME_LEN * e, name, m);
    }
  }

  /** memmove of one name and the '/' behind it. */
  method PutName(buff: array<u8>, at: nat, it: DirItem)
    requires at + DIRITEM_NAME_LEN <= buff.Length && |CStr(it.name)| < DIRITEM_NAME_LEN
    modifies buff
    ensures buff[..] == Splice(old(buff[..]), at, Listed(it))
  {
    hide Splice;
    ghost var before := buff[..];
    MemMove(buff, at, it.name);
    forall m | 0 <= m < |before|
      ensures buff[m] == if at <= m < at + DIRITEM_NAME_LEN then it.name[m - at] else before[m]
    {
      SpliceElement(before, at, it.name, m);
    }
    if it.kind == TYPE_DIR {
      buff[at + |CStr(it.name)|] := SLASH;
    }
    SpliceIs(before, at, Listed(it), buff[..]);
  }

  /** diritem_traversal: exactly the directory's entries, in order, across its blocks. */
  method DiritemTraversal(v: Volume, n: nat) returns (buff: array<u8>)
    requires v.Valid() && Consistent(v.View()) && Allocated(v.View(), n)
    requires DirOk(v.View(), n) && Scannable(v.View(), n)
    ensures fresh(buff) && v.Valid() && v.View() == old(v.View())
    ensures |Entries(v.View(), n)| == v.View().inodes[n].size
    ensures ListedTo(buff[..], Entries(v.View(), n), v.View().inodes[n].size)
    ensures forall e: nat | e < v.View().inodes[n].size ::
              var it, f := Entries(v.View(), n)[e], buff[DIRITEM_NAME_LEN * e..DIRITEM_NAME_LEN * e + DIRITEM_NAME_LEN];
              && (it.kind != TYPE_DIR ==> CStr(f) == CStr(it.name))
              && (it.kind == TYPE_DIR ==> (CStr(f) == CStr(it.name) + [SLASH] <==> PaddedTwice(it.name)))
  {
    hide Live, Bit, Consistent, Sec, GetItem, CStr, Listed, Splice, Entries;
    ghost var g := v.View();
    ghost var items := Entries(g, n);
    EntriesAre(g, n);
    var size := v.inodes[n].size;
    buff := new u8[DIRITEM_NAME_LEN * size](_ => 0);
    assert ListedTo(buff[..], items, 0);
    hide ListedTo;
    var i := 0;
    while i <= size / PER_BLOCK
      invariant 0 <= i <= size / PER_BLOCK + 1
      invariant v.View() == g && v.Valid()
      invariant ListedTo(buff[..], items, if i <= size / PER_BLOCK then PER_BLOCK * i else size)
      invariant forall k: nat | k < i :: Live(g, n, Data(k)) != 0
    {
      ScannableHas(g, n, i);
      var lba, db := FetchBlock(v, n, i);
      if lba == 0 {
        assert PER_BLOCK * i == size;
        break;
      }
      ListBlock(db, ItemsIn(size, i), buff, PER_BLOCK * i, items, g, n);
      i := i + 1;
    }
    AllListed(buff[..], items, size);
  }

  lemma AllListed(buff: seq<u8>, items: seq<DirItem>, size: nat)
    requires size == |items| && forall k | 0 <= k < |items| :: |CStr(items[k].name)| < DIRITEM_NAME_LEN
    requires ListedTo(buff, items, size)
    ensures forall e: nat | e < size ::
              var it, f := items[e], buff[DIRITEM_NAME_LEN * e..DIRITEM_NAME_LEN * e + DIRITEM_NAME_LEN];
              && (it.kind != TYPE_DIR ==> CStr(f) == CStr(it.name))
              && (it.kind == TYPE_DIR ==> (CStr(f) == CStr(it.name) + [SLASH] <==> PaddedTwice(it.name)))
  {
    hide CStr, Listed, PaddedTwice;
    forall e: nat | e < size
      ensures var it, f := items[e], buff[DIRITEM_NAME_LEN * e..DIRITEM_NAME_LEN * e + DIRITEM_NAME_LEN];
              && (it.kind != TYPE_DIR ==> CStr(f) == CStr(it.name))
              && (it.kind == TYPE_DIR ==> (CStr(f) == CStr(it.name) + [SLASH] <==> PaddedTwice(it.name)))
    {
      ListedName(items[e]);
    }
  }

  /** The inner loop of diritem_traversal. */
  method ListBlock(db: Sector, count: nat, buff: array<u8>, first: nat, ghost items: seq<DirItem>, ghost g: Image,
                   ghost n: nat)
    requires forall k | 0 <= k < |items| :: |CStr(items[k].name)| < DIRITEM_NAME_LEN
    requires count <= PER_BLOCK && first % PER_BLOCK == 0 && first + count <= |items|
    requires forall k: nat | k < |items| :: items[k] == EntryAt(g, n, k)
    requires db == Sec(g, Live(g, n, Data(first / PER_BLOCK)))
    requires ListedTo(buff[..], items, first)
    modifies buff
    ensures ListedTo(buff[..], items, first + count)
  {
    assert buff.Length == DIRITEM_NAME_LEN * |items|;
    hide Live, Sec, GetItem, CStr, Listed, Splice, ListedTo;
    var j := 0;
    while j < count
      invariant 0 <= j <= count && ListedTo(buff[..], items, first + j)
    {
      assert (first + j) / PER_BLOCK == first / PER_BLOCK && (first + j) % PER_BLOCK == j;
      assert GetItem(db, j) == items[first + j];
      ListedNext(buff[..], items, first + j);
      PutName(buff, DIRITEM_NAME_LEN * (first + j), GetItem(db, j));
      j := j + 1;
    }
  }
}
