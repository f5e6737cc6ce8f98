/** kern/mem/vm.c: what becomes of the room in the address space when pages are requested and released. */
module VirtualRoom {
  import opened MemoryLayout
  import opened VirtualSpace

  /** The bytes that these ranges take up. */
  ghost function Width(s: seq<Range>): int {
    if s == [] then 0 else (s[0].end - s[0].begin) + Width(s[1..])
  }

  /** The gaps behind range i and all further ones, and the rest up to the limit. */
  ghost function GapsFrom(s: seq<Range>, begin: nat, i: nat): int
    requires i < |s|
    decreases |s| - i
  {
    if i + 1 == |s| then MaxEnd(begin) - LastEnd(s, begin, i) else Gap(s, begin, i) + GapsFrom(s, begin, i + 1)
  }

  /** All that can be handed out: every gap that a request can find, and what lies behind the last range. */
  ghost function Room(s: seq<Range>, begin: nat): int
    requires s != []
  {
    GapsFrom(s, begin, 0)
  }

  lemma {:induction false} GapsAreRest(s: seq<Range>, begin: nat, i: nat)
    requires i < |s|
    ensures GapsFrom(s, begin, i) == MaxEnd(begin) - LastEnd(s, begin, i) - Width(s[i + 1..])
    decreases |s| - i
  {
    if i + 1 < |s| {
      GapsAreRest(s, begin, i + 1);
      assert s[i + 1..][0] == s[i + 1] && s[i + 1..][1..] == s[i + 2..];
    }
  }

  lemma RoomIs(s: seq<Range>, begin: nat)
    requires s != []
    ensures Room(s, begin) == MaxEnd(begin) - begin - Width(s[1..])
  {
    GapsAreRest(s, begin, 0);
  }

  lemma {:induction false} WidthConcat(a: seq<Range>, b: seq<Range>)
    ensures Width(a + b) == Width(a) + Width(b)
  {
    if a == [] {
      assert a + b == b;
    } else {
      WidthConcat(a[1..], b);
      assert (a + b)[0] == a[0] && (a + b)[1..] == a[1..] + b;
    }
  }

  lemma WidthOne(r: Range)
    ensures Width([r]) == r.end - r.begin && Width([]) == 0
  {
    assert [r][1..] == [];
  }

  /** Range k is replaced by others. */
  lemma RoomReplaced(s: seq<Range>, begin: nat, k: nat, mid: seq<Range>)
    requires 1 <= k < |s|
    ensures Room(s[..k] + mid + s[k + 1..], begin) == Room(s, begin) + (s[k].end - s[k].begin) - Width(mid)
  {
    var n := s[..k] + mid + s[k + 1..];
    RoomIs(s, begin);
    RoomIs(n, begin);
    assert n[1..] == s[1..k] + mid + s[k + 1..];
    assert s[1..] == s[1..k] + [s[k]] + s[k + 1..];
    WidthConcat(s[1..k] + mid, s[k + 1..]);
    WidthConcat(s[1..k], mid);
    WidthConcat(s[1..k] + [s[k]], s[k + 1..]);
    WidthConcat(s[1..k], [s[k]]);
    WidthOne(s[k]);
  }

  /** The room after a release, by where the record stood. */
  ghost function Gained(s: seq<Range>, begin: nat, k: nat, j: nat): int
    requires 1 <= k < |s| && j < |s[k].records| && (|s[k].records| == 1 ==> k + 1 < |s|)
  {
    var w, bytes := s[k], s[k].records[j].pages * PGSIZE;
    if 1 < |w.records| then
      if j == 0 || j == |w.records| - 1 then bytes
      else bytes + (w.records[|w.records| - 1].va - w.begin)
    else if k == 1 then w.end - w.begin
    else -(Gap(s, begin, k - 1) + Gap(s, begin, k))
  }

  /**
    A release of the highest or the lowest record of a range gives exactly its pages back, one from
    the middle also what lay below the lowest record, and the only record of the first range the whole range.
    The only record of a later range gives nothing back: the range before is stretched over it, and
    the gaps on both sides go, too.
   */
  lemma RoomAfterRelease(s: seq<Range>, begin: nat, va: nat, k: nat, j: nat)
    requires Inv(s, begin) && Held(s, va, k, j)
    ensures s[k].records[j].pages * PGSIZE <= s[k].end
    ensures Dropped(s, k, j) != [] && Room(Dropped(s, k, j), begin) == Room(s, begin) + Gained(s, begin, k, j)
  {
    hide Inv, RangeOk, Room, Width;
    OneHolder(s, begin, va, k, j);
    var w := s[k];
    var q, r := w.records, w.records[j];
    if |q| == 1 {
      RoomAfterOnly(s, begin, k);
    } else if j == 0 {
      RoomNarrowed(s, begin, k, Range(w.begin, w.end - r.pages * PGSIZE, q[1..]));
    } else if j == |q| - 1 {
      RoomNarrowed(s, begin, k, Range(w.begin + r.pages * PGSIZE, w.end, q[..j]));
    } else {
      RoomSplit(s, begin, k, Lower(w, j), Upper(w, j));
    }
  }

  lemma RoomNarrowed(s: seq<Range>, begin: nat, k: nat, u: Range)
    requires 1 <= k < |s|
    ensures Room(s[k := u], begin) == Room(s, begin) + (s[k].end - s[k].begin) - (u.end - u.begin)
  {
    hide Room, Width;
    RoomReplaced(s, begin, k, [u]);
    WidthOne(u);
    assert s[k := u] == s[..k] + [u] + s[k + 1..];
  }

  lemma RoomSplit(s: seq<Range>, begin: nat, k: nat, u: Range, w: Range)
    requires 1 <= k < |s|
    ensures Room(s[..k] + [u, w] + s[k + 1..], begin)
         == Room(s, begin) + (s[k].end - s[k].begin) - (u.end - u.begin) - (w.end - w.begin)
  {
    hide Room, Width;
    RoomReplaced(s, begin, k, [u, w]);
    WidthConcat([u], [w]);
    WidthOne(u);
    WidthOne(w);
    assert [u] + [w] == [u, w];
  }

  lemma RoomAfterOnly(s: seq<Range>, begin: nat, k: nat)
    requires 1 <= k && k + 1 < |s| && |s[k].records| == 1 && s[k].records[0].pages * PGSIZE <= s[k].end
    ensures Dropped(s, k, 0) != [] && Room(Dropped(s, k, 0), begin) == Room(s, begin) + Gained(s, begin, k, 0)
  {
    var t, prev := s[..k] + s[k + 1..], s[k - 1].(end := s[k + 1].begin);
    RoomReplaced(s, begin, k, []);
    assert s[..k] + [] + s[k + 1..] == t;
    if k == 1 {
      RoomIs(t, begin);
      RoomIs(t[0 := prev], begin);
      assert t[0 := prev][1..] == t[1..];
    } else {
      RoomReplaced(t, begin, k - 1, [prev]);
      WidthOne(prev);
      assert t[k - 1 := prev] == t[..k - 1] + [prev] + t[k..] && t[k - 1] == s[k - 1];
    }
  }

  /** The released pages can be handed out again exactly unless they were alone in a range that is not the first. */
  lemma RoomComesBackIff(s: seq<Range>, begin: nat, va: nat, k: nat, j: nat)
    requires Inv(s, begin) && Held(s, va, k, j)
    ensures s[k].records[j].pages * PGSIZE <= s[k].end
    ensures Dropped(s, k, j) != []
    ensures Room(s, begin) + s[k].records[j].pages * PGSIZE <= Room(Dropped(s, k, j), begin)
            <==> !(|s[k].records| == 1 && 1 < k)
  {
    RoomAfterRelease(s, begin, va, k, j);
    assert RangeOk(s[k]);
    hide RangeOk, Room, Dropped;
    if |s[k].records| == 1 && 1 < k {
      assert s[k - 1].end <= s[k].begin && s[k].end <= s[k + 1].begin;
    }
  }

  /** A request takes exactly its pages, while the first range starts at the start address. */
  lemma RoomAfterRequest(s: seq<Range>, begin: nat, amount: nat, i: nat)
    requires Inv(s, begin) && Anchored(s, begin) && 0 < amount && FirstFit(s, begin, amount, i)
    requires Limit(s, begin, amount, i) < 0x1_0000_0000
    ensures Placed(s, begin, amount, i) != []
    ensures Room(Placed(s, begin, amount, i), begin) == Room(s, begin) - amount * PGSIZE
  {
    hide RangeOk, Width, GapsFrom, Room;
    AllocKeepsAnchor(s, begin, amount, i);
    var n := Placed(s, begin, amount, i);
    if i == 0 {
      RoomIs(s, begin);
      RoomIs(n, begin);
      assert n[1..] == [n[1]] && s[1..] == [];
      WidthOne(n[1]);
    } else {
      RoomReplaced(s, begin, i, [n[i]]);
      WidthOne(n[i]);
      assert n == s[..i] + [n[i]] + s[i + 1..];
    }
  }

  /** A place that holds the request: the walk stops there or earlier. */
  lemma {:induction false} GrantedBy(s: seq<Range>, begin: nat, amount: nat, m: nat) returns (i: nat)
    requires Inv(s, begin) && m < |s| && amount * PGSIZE <= GapBehind(s, begin, m)
    ensures i <= m && FirstFit(s, begin, amount, i) && !NoSpace(s, begin, amount, i)
    ensures LastEnd(s, begin, i) <= LastEnd(s, begin, m)
  {
    hide RangeOk;
    i := 0;
    while i < m && Gap(s, begin, i) < amount * PGSIZE
      invariant i <= m && forall k: nat | k < i :: Gap(s, begin, k) < amount * PGSIZE
    {
      i := i + 1;
    }
    assert i < m && 1 <= i ==> s[i].end <= s[m].begin;
    assert 1 <= m ==> begin <= s[m].begin <= s[m].end;
  }

  /** The bytes behind range m; behind the last range, those that a request may end in. */
  ghost function GapBehind(s: seq<Range>, begin: nat, m: nat): int
    requires m < |s|
  {
    if m + 1 < |s| then Gap(s, begin, m) else MaxEnd(begin) - 1 - LastEnd(s, begin, m)
  }

  /** Where the room of a released record is found: behind this range of the new list. */
  ghost function Place(s: seq<Range>, k: nat, j: nat): nat
    requires 1 <= k < |s| && j < |s[k].records|
  {
    if j == 0 && 1 < |s[k].records| then k else if j == |s[k].records| - 1 then k - 1 else k
  }

  /**
    The gap at that place after the release: for the highest record what was there and its pages; for the lowest
    the same in front of the range; for a middle one exactly its pages, from its own address on.
   */
  lemma GapAfterRelease(s: seq<Range>, begin: nat, va: nat, k: nat, j: nat)
    requires Inv(s, begin) && Held(s, va, k, j) && 1 < |s[k].records|
    ensures s[k].records[j].pages * PGSIZE <= s[k].end
    ensures Place(s, k, j) < |Dropped(s, k, j)|
    ensures var n, m, bytes := Dropped(s, k, j), Place(s, k, j), s[k].records[j].pages * PGSIZE;
            GapBehind(n, begin, m) ==
            if j == 0 then GapBehind(s, begin, k) + bytes
            else if j == |s[k].records| - 1 then Gap(s, begin, k - 1) + bytes
            else bytes
    ensures LastEnd(Dropped(s, k, j), begin, Place(s, k, j)) ==
            if j == 0 then s[k].end - s[k].records[j].pages * PGSIZE
            else if j == |s[k].records| - 1 then LastEnd(s, begin, k - 1)
            else va
  {
    OneHolder(s, begin, va, k, j);
    hide Inv, RangeOk;
    var n, w := Dropped(s, k, j), s[k];
    if 0 < j < |w.records| - 1 {
      assert n[k] == Lower(w, j) && n[k + 1] == Upper(w, j);
    }
  }

  /** The same pages can be had again: at or before the place where the release left room. */
  lemma ReleasedIsGranted(s: seq<Range>, begin: nat, va: nat, k: nat, j: nat) returns (i: nat)
    requires Inv(s, begin) && Held(s, va, k, j) && 1 < |s[k].records|
    ensures s[k].records[j].pages * PGSIZE <= s[k].end
    ensures var n, pages := Dropped(s, k, j), s[k].records[j].pages;
            && FirstFit(n, begin, pages, i) && !NoSpace(n, begin, pages, i)
            && LastEnd(n, begin, i) <=
               if j == 0 then s[k].end - pages * PGSIZE
               else if j == |s[k].records| - 1 then LastEnd(s, begin, k - 1) else va
  {
    ReleaseKeepsInv(s, begin, va, k, j);
    GapAfterRelease(s, begin, va, k, j);
    GapsNotNegative(s, begin, k);
    hide Inv, Dropped;
    i := GrantedBy(Dropped(s, k, j), begin, s[k].records[j].pages, Place(s, k, j));
  }

  lemma GapsNotNegative(s: seq<Range>, begin: nat, k: nat)
    requires Inv(s, begin) && 1 <= k < |s|
    ensures 0 <= GapBehind(s, begin, k) && 0 <= Gap(s, begin, k - 1)
  {
    hide RangeOk;
  }

  /** A list of one range with pages of one page each, the newest first. */
  function Page(begin: nat, i: nat): Record {
    Record(begin + i * PGSIZE, 1)
  }

  const FIRST: Range := Range(0, 0, [])

  /** The first node, once a range is behind it. */
  function Head(begin: nat): Range {
    Range(0, begin, [])
  }

  /** A request of one page where the only range holds these records. */
  lemma OneMore(begin: nat, end: nat, q: seq<Record>, i: nat)
    requires q != [] && begin <= end && end + PGSIZE < MaxEnd(begin)
    requires FirstFit([Head(begin), Range(begin, end, q)], begin, 1, i)
    ensures i == 1 && !NoSpace([Head(begin), Range(begin, end, q)], begin, 1, i)
    ensures LastEnd([Head(begin), Range(begin, end, q)], begin, i) == end
    ensures Placed([Head(begin), Range(begin, end, q)], begin, 1, i) ==
            [Head(begin), Range(begin, end + PGSIZE, [Record(end, 1)] + q)]
  {
    var s := [Head(begin), Range(begin, end, q)];
    assert Gap(s, begin, 0) == 0;
    assert Placed(s, begin, 1, 1) == s[1 := Range(begin, end + PGSIZE, [Record(end, 1)] + q)];
  }

  lemma FirstPage(begin: nat, i: nat)
    requires begin + PGSIZE < MaxEnd(begin) && FirstFit([FIRST], begin, 1, i)
    ensures i == 0 && !NoSpace([FIRST], begin, 1, i) && LastEnd([FIRST], begin, i) == begin
    ensures Placed([FIRST], begin, 1, i) == [Head(begin), Range(begin, begin + PGSIZE, [Page(begin, 0)])]
  {
  }

  /** The list of the run while its pages are in one range. */
  function Pages(begin: nat, n: nat): seq<Range>
    requires 0 < n
  {
    [Head(begin), Range(begin, begin + n * PGSIZE, Newest(begin, n))]
  }

  function Newest(begin: nat, n: nat): (r: seq<Record>)
    ensures |r| == n
  {
    if n == 0 then [] else [Page(begin, n - 1)] + Newest(begin, n - 1)
  }

  lemma NewestFirst(begin: nat)
    ensures Newest(begin, 1) == [Page(begin, 0)]
  {
    assert Newest(begin, 0) == [];
  }

  lemma {:induction false} NewestAt(begin: nat, n: nat, j: nat)
    requires j < n
    ensures Newest(begin, n)[j] == Page(begin, n - 1 - j)
  {
    if j != 0 {
      NewestAt(begin, n - 1, j - 1);
    }
  }

  /** n requests of one page each, from an empty list: the pages follow each other. */
  method RequestPages(vs: Vspace, begin: nat, n: nat)
    requires vs.ranges == [FIRST] && 0 < n && begin + n * PGSIZE < MaxEnd(begin)
    modifies vs
    ensures vs.ranges == Pages(begin, n)
  {
    ghost var k;
    var ok, va;
    ok, va, k := vs.AllocPages(1, begin);
    FirstPage(begin, k);
    NewestFirst(begin);
    var i := 1;
    while i < n
      invariant 1 <= i <= n && vs.ranges == Pages(begin, i)
    {
      PagesOk(begin, i);
      ok, va, k := vs.AllocPages(1, begin);
      OneMore(begin, begin + i * PGSIZE, Newest(begin, i), k);
      i := i + 1;
    }
  }

  lemma PagesOk(begin: nat, n: nat)
    requires 0 < n && begin + n * PGSIZE < MaxEnd(begin)
    ensures Inv(Pages(begin, n), begin)
  {
    var r := Pages(begin, n)[1];
    forall j | 0 <= j < n
      ensures r.records[j] == Page(begin, n - 1 - j)
    {
      NewestAt(begin, n, j);
    }
    assert RangeOk(r);
  }

  /** The highest page is released and requested again: the same address, and the same list. */
  method SameAddressAgain(vs: Vspace, begin: nat, n: nat) returns (c: nat)
    requires vs.ranges == [FIRST] && 1 < n && begin + n * PGSIZE < MaxEnd(begin)
    modifies vs
    ensures c == begin + (n - 1) * PGSIZE && vs.ranges == Pages(begin, n)
  {
    RequestPages(vs, begin, n);
    PagesOk(begin, n);
    var top := begin + (n - 1) * PGSIZE;
    var r := vs.ReleasePages(top, begin, 1, 0);
    assert vs.ranges == Pages(begin, n - 1);
    var ok;
    ghost var k;
    ok, c, k := vs.AllocPages(1, begin);
    OneMore(begin, top, Newest(begin, n - 1), k);
  }

  /**
    Five pages; the second, the fourth and then the third are released. The third was alone in its range,
    so the first range is stretched over all three, and the next request goes behind the fifth page.
   */
  method RoomLost(vs: Vspace, begin: nat) returns (c: nat)
    requires vs.ranges == [FIRST] && begin + 6 * PGSIZE < MaxEnd(begin)
    modifies vs
    ensures c == begin + 5 * PGSIZE && vs.ranges != [] && Inv(vs.ranges, begin)
    ensures Room(vs.ranges, begin) == MaxEnd(begin) - begin - 6 * PGSIZE
    ensures All(vs.ranges) == [Page(begin, 0), Page(begin, 5), Page(begin, 4)]
  {
    RequestPages(vs, begin, 5);
    PagesOk(begin, 5);
    FivePages(begin);
    hide Inv, Dropped, Placed, Room, All, FirstFit, NoSpace;
    SecondGoes(begin);
    ReleaseKeepsInv(Five(begin), begin, begin + PGSIZE, 1, 3);
    var r := vs.ReleasePages(begin + PGSIZE, begin, 1, 3);
    FourthGoes(begin);
    ReleaseKeepsInv(TwoLeft(begin), begin, begin + 3 * PGSIZE, 2, 1);
    r := vs.ReleasePages(begin + 3 * PGSIZE, begin, 2, 1);
    ThirdGoes(begin);
    ReleaseKeepsInv(ThreeLeft(begin), begin, begin + 2 * PGSIZE, 2, 0);
    r := vs.ReleasePages(begin + 2 * PGSIZE, begin, 2, 0);
    var ok;
    ghost var k;
    ok, c, k := vs.AllocPages(1, begin);
    AtTheEnd(begin, k);
    FinalRoom(begin);
  }

  lemma FivePages(begin: nat)
    ensures Pages(begin, 5) == Five(begin)
  {
    forall j | 0 <= j < 5
      ensures Newest(begin, 5)[j] == Page(begin, 4 - j)
    {
      NewestAt(begin, 5, j);
    }
    hide Newest;
    assert Newest(begin, 5) == Five(begin)[1].records;
  }

  function Five(begin: nat): seq<Range> {
    [Head(begin), Range(begin, begin + 5 * PGSIZE,
                        [Page(begin, 4), Page(begin, 3), Page(begin, 2), Page(begin, 1), Page(begin, 0)])]
  }

  lemma SecondGoes(begin: nat)
    ensures Dropped(Five(begin), 1, 3) == TwoLeft(begin)
  {
    var s := Five(begin);
    var q := s[1].records;
    assert q[4..] == [Page(begin, 0)] && q[..3] == [Page(begin, 4), Page(begin, 3), Page(begin, 2)];
    assert Lower(s[1], 3) == TwoLeft(begin)[1] && Upper(s[1], 3) == TwoLeft(begin)[2];
    assert s[..1] == [s[0]] && s[2..] == [];
  }

  lemma FourthGoes(begin: nat)
    ensures Dropped(TwoLeft(begin), 2, 1) == ThreeLeft(begin)
  {
    var s := TwoLeft(begin);
    var q := s[2].records;
    assert q[2..] == [Page(begin, 2)] && q[..1] == [Page(begin, 4)];
    assert Lower(s[2], 1) == ThreeLeft(begin)[2] && Upper(s[2], 1) == ThreeLeft(begin)[3];
    assert s[..2] == [s[0], s[1]] && s[3..] == [];
  }

  lemma ThirdGoes(begin: nat)
    ensures Dropped(ThreeLeft(begin), 2, 0) == Stretched(begin)
  {
    var s := ThreeLeft(begin);
    assert s[..2] == [s[0], s[1]] && s[3..] == [s[3]];
  }

  function TwoLeft(begin: nat): seq<Range> {
    [Head(begin), Range(begin, begin + PGSIZE, [Page(begin, 0)]),
     Range(begin + 2 * PGSIZE, begin + 5 * PGSIZE, [Page(begin, 4), Page(begin, 3), Page(begin, 2)])]
  }

  function ThreeLeft(begin: nat): seq<Range> {
    [Head(begin), Range(begin, begin + PGSIZE, [Page(begin, 0)]),
     Range(begin + 2 * PGSIZE, begin + 3 * PGSIZE, [Page(begin, 2)]),
     Range(begin + 4 * PGSIZE, begin + 5 * PGSIZE, [Page(begin, 4)])]
  }

  function Stretched(begin: nat): seq<Range> {
    [Head(begin), Range(begin, begin + 4 * PGSIZE, [Page(begin, 0)]),
     Range(begin + 4 * PGSIZE, begin + 5 * PGSIZE, [Page(begin, 4)])]
  }

  function Final(begin: nat): seq<Range> {
    [Head(begin), Range(begin, begin + 4 * PGSIZE, [Page(begin, 0)]),
     Range(begin + 4 * PGSIZE, begin + 6 * PGSIZE, [Page(begin, 5), Page(begin, 4)])]
  }

  lemma AtTheEnd(begin: nat, k: nat)
    requires begin + 6 * PGSIZE < MaxEnd(begin) && FirstFit(Stretched(begin), begin, 1, k)
    ensures k == 2 && !NoSpace(Stretched(begin), begin, 1, k)
    ensures LastEnd(Stretched(begin), begin, k) == begin + 5 * PGSIZE
    ensures Placed(Stretched(begin), begin, 1, k) == Final(begin)
  {
    var s := Stretched(begin);
    assert Gap(s, begin, 0) == 0 && Gap(s, begin, 1) == 0;
    assert [Page(begin, 5)] + [Page(begin, 4)] == [Page(begin, 5), Page(begin, 4)];
    assert Placed(s, begin, 1, 2) == s[2 := Final(begin)[2]];
  }

  lemma FinalRoom(begin: nat)
    requires begin + 6 * PGSIZE < MaxEnd(begin)
    ensures Inv(Final(begin), begin) && Room(Final(begin), begin) == MaxEnd(begin) - begin - 6 * PGSIZE
    ensures All(Final(begin)) == [Page(begin, 0), Page(begin, 5), Page(begin, 4)]
  {
    var s := Final(begin);
    assert RangeOk(s[1]) && RangeOk(s[2]);
    assert GapsFrom(s, begin, 2) == MaxEnd(begin) - begin - 6 * PGSIZE;
    assert GapsFrom(s, begin, 1) == GapsFrom(s, begin, 2);
    assert s[1..] == [s[1], s[2]];
    HeadAll(s);
    TwoRanges(s[1], s[2]);
  }
}
